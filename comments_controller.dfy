/** The comments service's routes: listing by post (public), and creating
    and deleting (behind the delegated bearer gate). */
module CommentsController {
  import opened Js
  import opened Auth
  import opened CommentsService

  /** What the routes send: plain text, JSON comments, `{ message }` or
      the gate's `{ error }`. */
  datatype Body = Text(text: string)
                | CommentList(comments: seq<Comment>)
                | CommentJson(comment: Comment)
                | Message(message: string)
                | ErrorJson(error: string)

  /** The arguments of `createComment`. */
  datatype NewComment = NewComment(postId: int, userId: int, text: string)

  /** `GET /post/:postId`: the id is read with `parseInt` and no radix. */
  function GetByPost(postIdParam: string, service: Result<seq<Comment>, string>): (h: Handled<int, Body>)
    ensures ParseInt(postIdParam, true).None? ==> h == Handled(None, Reply(400, Text("Invalid post ID")))
    ensures ParseInt(postIdParam, true).Some? ==> h.call == ParseInt(postIdParam, true)
    ensures h.call.Some? && service.Success? ==> h.reply == Reply(200, CommentList(service.value))
    ensures h.call.Some? && service.Failure? ==> h.reply == Reply(500, Text(service.error))
  {
    match ParseInt(postIdParam, true)
    case None => Handled(None, Reply(400, Text("Invalid post ID")))
    case Some(postId) =>
      match service
      case Success(comments) => Handled(Some(postId), Reply(200, CommentList(comments)))
      case Failure(message) => Handled(Some(postId), Reply(500, Text(message)))
  }

  /** The gate's refusal as a reply. */
  function Refusal(g: Gate): (r: Reply<Body>)
    requires g.Deny?
    ensures r.status == g.status && r.body == ErrorJson(g.error)
  {
    Reply(g.status, ErrorJson(g.error))
  }

  /** `POST /`: behind the gate; `postId` is the body's numeric field
      (None when absent) and `text` its text ("" when absent). The author
      is the authenticated user, whatever the body says. */
  function Create(header: Option<string>, remote: string -> VerifyCall,
                  postId: Option<int>, text: string, service: Result<Comment, string>)
    : (h: Handled<NewComment, Body>)
    ensures var gate := DelegatedAuthenticate(header, remote).gate;
            && (gate.Deny? ==> h == Handled(None, Refusal(gate)))
            && (gate.Pass? && (!TruthyNumber(postId) || text == "") ==>
                  h == Handled(None, Reply(400, Text("Missing required fields: postId, text"))))
            && (h.call.Some? <==> gate.Pass? && TruthyNumber(postId) && text != "")
            && (h.call.Some? ==> h.call.value == NewComment(postId.value, gate.user.id, text))
    ensures h.call.Some? && service.Success? ==> h.reply == Reply(201, CommentJson(service.value))
    ensures h.call.Some? && service.Failure? ==> h.reply == Reply(500, Text(service.error))
  {
    match DelegatedAuthenticate(header, remote).gate
    case Deny(status, error) => Handled(None, Reply(status, ErrorJson(error)))
    case Pass(user, _) =>
      if !TruthyNumber(postId) || text == "" then
        Handled(None, Reply(400, Text("Missing required fields: postId, text")))
      else
        var args := NewComment(postId.value, user.id, text);
        match service
        case Success(comment) => Handled(Some(args), Reply(201, CommentJson(comment)))
        case Failure(message) => Handled(Some(args), Reply(500, Text(message)))
  }

  /** The arguments of `deleteComment`. */
  datatype Removal = Removal(commentId: int, userId: int)

  /** `DELETE /:id`: behind the gate; the id is read with `parseInt` and
      no radix, and `service` is `deleteComment`'s answer. */
  function Delete(header: Option<string>, remote: string -> VerifyCall, idParam: string, service: Result<bool, string>)
    : (h: Handled<Removal, Body>)
    ensures var gate := DelegatedAuthenticate(header, remote).gate;
            && (gate.Deny? ==> h == Handled(None, Refusal(gate)))
            && (gate.Pass? && ParseInt(idParam, true).None? ==> h == Handled(None, Reply(400, Text("Invalid comment ID"))))
            && (h.call.Some? <==> gate.Pass? && ParseInt(idParam, true).Some?)
            && (h.call.Some? ==> h.call.value == Removal(ParseInt(idParam, true).value, gate.user.id))
    ensures h.call.Some? ==>
              h.reply == (match service
                          case Success(false) => Reply(404, Text("Comment not found or unauthorized"))
                          case Success(true) => Reply(200, Message("Comment deleted successfully"))
                          case Failure(message) => Reply(500, Text(message)))
  {
    match DelegatedAuthenticate(header, remote).gate
    case Deny(status, error) => Handled(None, Reply(status, ErrorJson(error)))
    case Pass(user, _) =>
      match ParseInt(idParam, true)
      case None => Handled(None, Reply(400, Text("Invalid comment ID")))
      case Some(commentId) =>
        var args := Removal(commentId, user.id);
        match service
        case Success(deleted) =>
          if !deleted then Handled(Some(args), Reply(404, Text("Comment not found or unauthorized")))
          else Handled(Some(args), Reply(200, Message("Comment deleted successfully")))
        case Failure(message) => Handled(Some(args), Reply(500, Text(message)))
  }

  /** The delete route run against the comments table: a user who did not
      write the comment gets a 404, and the comment stays. */
  method DeleteRoute(store: CommentStore, header: Option<string>, remote: string -> VerifyCall, idParam: string)
    returns (reply: Reply<Body>)
    requires store.Valid()
    modifies store
    ensures store.Valid()
    ensures reply.status == 200 <==>
              var gate := DelegatedAuthenticate(header, remote).gate;
              gate.Pass? && ParseInt(idParam, true).Some? &&
              exists i :: 0 <= i < |old(store.rows)| && old(store.rows)[i].id == ParseInt(idParam, true).value
                          && old(store.rows)[i].userId == gate.user.id
    ensures reply.status != 200 ==> store.rows == old(store.rows)
  {
    var pending := Delete(header, remote, idParam, Success(false));
    if pending.call.None? {
      return pending.reply;
    }
    var args := pending.call.value;
    var deleted := store.DeleteComment(args.commentId, args.userId);
    reply := Delete(header, remote, idParam, Success(deleted)).reply;
  }
}
