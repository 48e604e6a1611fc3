/** The comments service: the comments table behind the ORM, listing by
    post in creation order with the commenter's display name, creation
    without any moderation step, and deletion restricted to the commenter. */
module CommentsService {
  import opened Js
  import opened Enrichment
  import Tables

  /** A stored comment; `createdAt` is the time of insertion. */
  datatype CommentRow = CommentRow(id: int, postId: int, userId: int, text: string, createdAt: int)

  /** A comment as the service returns it. */
  datatype Comment = Comment(id: int, postId: int, userId: int, text: string,
                             authorName: string, createdAt: int)

  /** A stored comment with its author's display name. */
  function Enrich(row: CommentRow, directory: Directory): (c: Comment)
    ensures c.authorName != ""
    ensures c.authorName == UserName(row.userId, directory(row.userId))
    ensures c.id == row.id && c.postId == row.postId && c.userId == row.userId
    ensures c.text == row.text && c.createdAt == row.createdAt
    ensures directory(row.userId).Found? && directory(row.userId).username != "" ==>
              c.authorName == directory(row.userId).username
  {
    Comment(row.id, row.postId, row.userId, row.text, UserName(row.userId, directory(row.userId)), row.createdAt)
  }

  /** The rows `where: { postId }` selects. */
  function OfPost(postId: int): CommentRow -> bool
  {
    (c: CommentRow) => c.postId == postId
  }

  function CreatedAt(c: CommentRow): int
  {
    c.createdAt
  }

  /** `sorted` lists exactly the comments of post `postId`, oldest first. */
  predicate ListsPostComments(rows: seq<CommentRow>, postId: int, sorted: seq<CommentRow>)
  {
    && |sorted| == Tables.Count(rows, OfPost(postId))
    && multiset(sorted) == multiset(Tables.Filter(rows, OfPost(postId)))
    && (forall i :: 0 <= i < |sorted| ==> sorted[i].postId == postId && sorted[i] in rows)
    && (forall k :: 0 <= k < |rows| && rows[k].postId == postId ==> rows[k] in sorted)
    && (forall i, j :: 0 <= i < j < |sorted| ==> sorted[i].createdAt <= sorted[j].createdAt)
  }

  /** `findAll({ where: { postId }, order: [["createdAt", "ASC"]] })`. */
  function OfPostOldestFirst(rows: seq<CommentRow>, postId: int): (sorted: seq<CommentRow>)
    ensures ListsPostComments(rows, postId, sorted)
  {
    OldestFirstLists(rows, postId);
    Tables.SortBy(Tables.Filter(rows, OfPost(postId)), CreatedAt)
  }

  lemma OldestFirstLists(rows: seq<CommentRow>, postId: int)
    ensures ListsPostComments(rows, postId, Tables.SortBy(Tables.Filter(rows, OfPost(postId)), CreatedAt))
  {
    var matching := Tables.Filter(rows, OfPost(postId));
    var sorted := Tables.SortBy(matching, CreatedAt);
    Tables.SortByMembers(matching, CreatedAt);
    forall i | 0 <= i < |sorted| ensures sorted[i].postId == postId && sorted[i] in rows {
      assert sorted[i] in matching;
      var j :| 0 <= j < |matching| && matching[j] == sorted[i];
    }
    forall k | 0 <= k < |rows| && rows[k].postId == postId ensures rows[k] in sorted {
      assert OfPost(postId)(rows[k]);
      assert rows[k] in matching;
    }
    assert forall i, j :: 0 <= i < j < |sorted| ==> CreatedAt(sorted[i]) <= CreatedAt(sorted[j]);
  }

  function CommentId(r: CommentRow): int
  {
    r.id
  }

  /** The comments table. Ids come from `nextId` (auto-increment). */
  class CommentStore {
    var rows: seq<CommentRow>
    var nextId: int

    ghost predicate Valid()
      reads this
    {
      Tables.AutoIds(rows, CommentId, nextId)
    }

    constructor ()
      ensures Valid() && rows == [] && nextId == 1
    {
      rows, nextId := [], 1;
    }

    /** `getCommentsByPost`: the post's comments, oldest first, each with
        its author's display name. */
    function GetCommentsByPost(postId: int, directory: Directory): (comments: seq<Comment>)
      reads this
      ensures |comments| == Tables.Count(rows, OfPost(postId))
      ensures forall i :: 0 <= i < |comments| ==> comments[i] == Enrich(OfPostOldestFirst(rows, postId)[i], directory)
    {
      var sorted := OfPostOldestFirst(rows, postId);
      seq(|sorted|, i requires 0 <= i < |sorted| => Enrich(sorted[i], directory))
    }

    /** `createComment`: stores the comment as given (there is no
        moderation step) and returns it with the author's display name. */
    method CreateComment(postId: int, userId: int, text: string, directory: Directory, now: int)
      returns (c: Comment)
      requires Valid()
      modifies this
      ensures Valid()
      ensures var row := CommentRow(old(nextId), postId, userId, text, now);
              && rows == old(rows) + [row]
              && nextId == old(nextId) + 1
              && c == Enrich(row, directory)
    {
      var row := CommentRow(nextId, postId, userId, text, now);
      Tables.AppendAutoIds(rows, row, CommentId, nextId);
      rows := rows + [row];
      nextId := nextId + 1;
      c := Enrich(row, directory);
    }

    /** `deleteComment`: only the commenter may delete; a missing comment
        and someone else's comment answer the same, and leave the table as
        it was. */
    method DeleteComment(commentId: int, userId: int) returns (deleted: bool)
      requires Valid()
      modifies this
      ensures Valid() && nextId == old(nextId)
      ensures deleted <==> exists i :: 0 <= i < |old(rows)| && old(rows)[i].id == commentId && old(rows)[i].userId == userId
      ensures !deleted ==> rows == old(rows)
      ensures deleted ==> exists k :: 0 <= k < |old(rows)| && old(rows)[k].id == commentId
                                      && rows == Tables.RemoveAt(old(rows), k)
      ensures deleted ==> forall i :: 0 <= i < |rows| ==> rows[i].id != commentId
    {
      var k := Tables.FindFirst(rows, (c: CommentRow) => c.id == commentId);
      if k < 0 {
        return false;
      }
      if rows[k].userId != userId {
        return false;
      }
      Tables.RemoveAtAutoIds(rows, k, CommentId, nextId);
      rows := Tables.RemoveAt(rows, k);
      deleted := true;
    }
  }

  /** A new comment appears in its post's listing and in no other post's. */
  lemma NewCommentListed(rows: seq<CommentRow>, row: CommentRow, postId: int)
    ensures row.postId == postId ==> row in OfPostOldestFirst(rows + [row], postId)
    ensures row.postId != postId ==> OfPostOldestFirst(rows + [row], postId) == OfPostOldestFirst(rows, postId)
  {
    var p := OfPost(postId);
    var s := rows + [row];
    assert s[|s| - 1] == row;
    if row.postId != postId {
      assert s[..|s| - 1] == rows;
      assert Tables.Filter(s, p) == Tables.Filter(rows, p);
    }
  }
}
