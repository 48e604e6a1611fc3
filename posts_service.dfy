/** The posts service: the moderation gate in front of post creation
    (skipped when unconfigured, open when the moderation service is
    unreachable, closed on a negative verdict or any other error), and the
    posts table behind the ORM. */
module PostsService {
  import opened Js
  import opened Enrichment
  import Tables

  const FlaggedMessage := "Your post contains inappropriate content and cannot be published."
  /** The timeout of the moderation call, in milliseconds. */
  const ModerationTimeoutMs: nat := 5000

  /** The request sent to `POST {MODERATION_SERVICE_URL}/moderation/check`. */
  datatype CheckRequest = CheckRequest(content: string, contentType: string, timeoutMs: nat)

  /** What that call did: answered with the `approved` field of its body,
      or threw (connection refused, timed out, non-2xx status, ...). */
  datatype CheckCall = Replied(approved: bool) | CallFailed(error: JsError)

  /** What the gate sent (None: nothing), and whether it let the write on. */
  datatype Gate = Gate(sent: Option<CheckRequest>, outcome: Result<(), JsError>)

  /** The error a negative verdict throws: a plain Error, which has no code. */
  const FlaggedError := JsError("Error", "", FlaggedMessage)

  /** The code axios gives the error of an expired `timeout` (it gives
      ETIMEDOUT only with `transitional.clarifyTimeoutError` set). */
  const AxiosTimeoutCode := "ECONNABORTED"

  /** The error axios rejects with when the `timeout` of `ms` expires. */
  function AxiosTimeout(ms: nat): JsError
  {
    JsError("AxiosError", AxiosTimeoutCode, "timeout of " + IntToString(ms) + "ms exceeded")
  }

  /** The error codes the gate, as written, treats as "moderation
      unavailable". */
  predicate Unavailable(e: JsError)
  {
    e.code == "ECONNREFUSED" || e.code == "ETIMEDOUT"
  }

  /** "Moderation unavailable" as the gate evidently intends it: refused
      connections and expired timeouts, including axios's own. */
  predicate Unreachable(e: JsError)
  {
    Unavailable(e) || e.code == AxiosTimeoutCode
  }

  /** `moderateContent`: `configured` says whether MODERATION_SERVICE_URL
      is set, `call` what the check call does when it is made, and
      `absorbs` which thrown errors the catch block swallows (Unavailable
      as written, Unreachable as intended). */
  function ModerateContent(configured: bool, content: string, call: CheckCall, absorbs: JsError -> bool): (g: Gate)
    requires !absorbs(FlaggedError)
    ensures !configured ==> g == Gate(None, Success(()))
    ensures configured ==> g.sent == Some(CheckRequest(content, "post", 5000))
    // fail-closed on a verdict: a negative verdict always blocks
    ensures configured && call.Replied? && !call.approved ==> g.outcome == Failure(FlaggedError)
    // fail-open on unavailability, fail-closed on every other error
    ensures configured && call.CallFailed? ==>
              g.outcome == (if absorbs(call.error) then Success(()) else Failure(call.error))
    ensures configured && call.Replied? && call.approved ==> g.outcome == Success(())
  {
    if !configured then Gate(None, Success(()))
    else
      var sent := Some(CheckRequest(content, "post", ModerationTimeoutMs));
      // what the try block throws, if anything
      var thrown: Option<JsError> :=
        match call
        case Replied(approved) => if approved then None else Some(FlaggedError)
        case CallFailed(e) => Some(e);
      match thrown
      case None => Gate(sent, Success(()))
      case Some(e) => if absorbs(e) then Gate(sent, Success(())) else Gate(sent, Failure(e))
  }

  /** The gate blocks exactly when it is configured and either the verdict
      is negative or the call failed for a reason it does not absorb. */
  lemma GateBlocksIff(configured: bool, content: string, call: CheckCall, absorbs: JsError -> bool)
    requires !absorbs(FlaggedError)
    ensures ModerateContent(configured, content, call, absorbs).outcome.Failure? <==>
            configured && ((call.Replied? && !call.approved) || (call.CallFailed? && !absorbs(call.error)))
  {
  }

  /** As written, a moderation service that does not answer within the
      5000 ms timeout blocks the post: axios's timeout error is rethrown. */
  lemma TimeoutBlocksAsWritten(content: string)
    ensures ModerateContent(true, content, CallFailed(AxiosTimeout(ModerationTimeoutMs)), Unavailable).outcome
         == Failure(AxiosTimeout(ModerationTimeoutMs))
  {
  }

  /** With the intended absorption, the same timeout lets the post on,
      while a negative verdict and every other error still block. */
  lemma TimeoutFailsOpen(content: string, e: JsError)
    ensures ModerateContent(true, content, CallFailed(AxiosTimeout(ModerationTimeoutMs)), Unreachable).outcome
         == Success(())
    ensures ModerateContent(true, content, Replied(false), Unreachable).outcome == Failure(FlaggedError)
    ensures !Unreachable(e) ==> ModerateContent(true, content, CallFailed(e), Unreachable).outcome == Failure(e)
  {
  }

  /** A stored post. `topics` is a nullable JSON column. */
  datatype PostRow = PostRow(id: int, title: string, text: string, author: int,
                             topics: Option<seq<string>>, createdAt: int)

  /** A post as the service returns it. */
  datatype Post = Post(id: int, title: string, text: string, author: int,
                       authorName: string, topics: seq<string>)

  /** `topics || []`. */
  function TopicsOrEmpty(topics: Option<seq<string>>): (r: seq<string>)
    ensures topics.None? ==> r == []
    ensures topics.Some? ==> r == topics.value
  {
    if topics.Some? then topics.value else []
  }

  /** A stored post with its author's display name. */
  function Enrich(row: PostRow, directory: Directory): (p: Post)
    ensures p.authorName != ""
    ensures p.id == row.id && p.title == row.title && p.text == row.text && p.author == row.author
    ensures p.authorName == UserName(row.author, directory(row.author))
    ensures row.topics.None? ==> p.topics == []
    ensures row.topics.Some? ==> p.topics == row.topics.value
  {
    Post(row.id, row.title, row.text, row.author,
         UserName(row.author, directory(row.author)), TopicsOrEmpty(row.topics))
  }

  /** `ORDER BY createdAt DESC`: the rows, newest first. */
  function NewestFirst(rows: seq<PostRow>): (sorted: seq<PostRow>)
    ensures multiset(sorted) == multiset(rows)
    ensures |sorted| == |rows|
    ensures forall i, j :: 0 <= i < j < |sorted| ==> sorted[i].createdAt >= sorted[j].createdAt
  {
    var key := (r: PostRow) => -r.createdAt;
    var sorted := Tables.SortBy(rows, key);
    assert forall i, j :: 0 <= i < j < |sorted| ==> key(sorted[i]) <= key(sorted[j]);
    sorted
  }

  /** The rows `where: { author }` selects. */
  function ByAuthor(authorId: int): PostRow -> bool
  {
    (r: PostRow) => r.author == authorId
  }

  function PostId(r: PostRow): int
  {
    r.id
  }

  /** The posts table. Ids are assigned from `nextId` (auto-increment);
      `createdAt` is the time passed to the operation that inserts the row. */
  class PostStore {
    var rows: seq<PostRow>
    var nextId: int

    ghost predicate Valid()
      reads this
    {
      Tables.AutoIds(rows, PostId, nextId)
    }

    constructor ()
      ensures Valid() && rows == [] && nextId == 1
    {
      rows, nextId := [], 1;
    }

    /** `getPosts`: every stored post, newest first, with its author's name. */
    function GetPosts(directory: Directory): (posts: seq<Post>)
      reads this
      ensures |posts| == |rows|
      ensures forall i :: 0 <= i < |posts| ==> posts[i] == Enrich(NewestFirst(rows)[i], directory)
    {
      var sorted := NewestFirst(rows);
      seq(|sorted|, i requires 0 <= i < |sorted| => Enrich(sorted[i], directory))
    }

    /** `countByAuthor`. */
    function CountByAuthor(authorId: int): (n: nat)
      reads this
      ensures n <= |rows|
      ensures n == Tables.Count(rows, ByAuthor(authorId))
    {
      Tables.Count(rows, ByAuthor(authorId))
    }

    /** `createPost`: moderates `title + "\n" + text` once, and only when
        the gate lets it on inserts the post; `moderated` is what was sent
        to the moderation service. `absorbs` is the gate's catch block:
        Unavailable as written, Unreachable as intended. */
    method CreatePost(title: string, text: string, author: int, topics: Option<seq<string>>,
                      configured: bool, call: CheckCall, absorbs: JsError -> bool, directory: Directory, now: int)
      returns (r: Result<Post, JsError>, moderated: Option<CheckRequest>)
      requires Valid()
      requires !absorbs(FlaggedError)
      modifies this
      ensures Valid()
      ensures var gate := ModerateContent(configured, title + "\n" + text, call, absorbs);
              && moderated == gate.sent
              && (gate.outcome.Failure? ==>
                    r == Failure(gate.outcome.error) && rows == old(rows) && nextId == old(nextId))
              && (gate.outcome.Success? ==>
                    var row := PostRow(old(nextId), title, text, author, Some(TopicsOrEmpty(topics)), now);
                    && rows == old(rows) + [row]
                    && nextId == old(nextId) + 1
                    && r == Success(Enrich(row, directory))
                    && CountByAuthor(author) == old(CountByAuthor(author)) + 1)
    {
      var gate := ModerateContent(configured, title + "\n" + text, call, absorbs);
      moderated := gate.sent;
      if gate.outcome.Failure? {
        r := Failure(gate.outcome.error);
        return;
      }
      var row := PostRow(nextId, title, text, author, Some(TopicsOrEmpty(topics)), now);
      CreateRaisesCount(rows, row, author);
      Tables.AppendAutoIds(rows, row, PostId, nextId);
      rows := rows + [row];
      nextId := nextId + 1;
      r := Success(Enrich(row, directory));
    }

    /** `deletePost`: only the author may delete; a missing post and
        someone else's post answer the same. */
    method DeletePost(postId: int, userId: int) returns (deleted: bool)
      requires Valid()
      modifies this
      ensures Valid() && nextId == old(nextId)
      ensures deleted <==> exists i :: 0 <= i < |old(rows)| && old(rows)[i].id == postId && old(rows)[i].author == userId
      ensures !deleted ==> rows == old(rows)
      ensures deleted ==> exists k :: 0 <= k < |old(rows)| && old(rows)[k].id == postId
                                      && rows == Tables.RemoveAt(old(rows), k)
      ensures deleted ==> forall i :: 0 <= i < |rows| ==> rows[i].id != postId
      ensures deleted ==> CountByAuthor(userId) == old(CountByAuthor(userId)) - 1
    {
      var k := Tables.FindFirst(rows, (p: PostRow) => p.id == postId);
      if k < 0 {
        return false;
      }
      if rows[k].author != userId {
        return false;
      }
      Tables.CountRemoveAt(rows, k, ByAuthor(userId));
      Tables.RemoveAtAutoIds(rows, k, PostId, nextId);
      rows := Tables.RemoveAt(rows, k);
      deleted := true;
    }
  }

  /** Creating a post raises its author's count by one, and no one else's. */
  lemma CreateRaisesCount(rows: seq<PostRow>, row: PostRow, authorId: int)
    ensures Tables.Count(rows + [row], ByAuthor(authorId))
         == Tables.Count(rows, ByAuthor(authorId)) + (if row.author == authorId then 1 else 0)
  {
    Tables.CountAppend(rows, row, ByAuthor(authorId));
  }

  /** Every stored post appears in the listing, and every listed post is a
      stored one. */
  lemma GetPostsCoversTable(rows: seq<PostRow>, directory: Directory)
    ensures forall k :: 0 <= k < |rows| ==>
              exists i :: 0 <= i < |NewestFirst(rows)| && NewestFirst(rows)[i] == rows[k]
    ensures forall i :: 0 <= i < |NewestFirst(rows)| ==> NewestFirst(rows)[i] in rows
  {
    var sorted := NewestFirst(rows);
    forall k | 0 <= k < |rows|
      ensures exists i :: 0 <= i < |sorted| && sorted[i] == rows[k]
    {
      assert rows[k] in multiset(rows);
      assert rows[k] in multiset(sorted);
    }
    forall i | 0 <= i < |sorted| ensures sorted[i] in rows {
      assert sorted[i] in multiset(sorted);
    }
  }
}
