/** The likes service's routes for adding and removing a like. Neither is
    authenticated: the user id comes from the request body. */
module LikesController {
  import opened Js
  import opened LikesService

  datatype Body = Text(text: string) | LikeJson(like: Like) | Removed(success: bool)

  datatype LikeArgs = LikeArgs(postId: int, userId: int)

  const MissingFields := "Missing required fields: postId, userId"

  /** `!postId || !userId` for the body's numeric fields. */
  predicate HasFields(postId: Option<int>, userId: Option<int>)
  {
    TruthyNumber(postId) && TruthyNumber(userId)
  }

  /** `POST /`: `service` is what `addLike` did. */
  function Add(postId: Option<int>, userId: Option<int>, service: Result<Like, JsError>): (h: Handled<LikeArgs, Body>)
    ensures !HasFields(postId, userId) ==> h == Handled(None, Reply(400, Text(MissingFields)))
    ensures h.call.Some? <==> HasFields(postId, userId)
    ensures h.call.Some? ==> h.call.value == LikeArgs(postId.value, userId.value)
    ensures h.call.Some? ==>
              h.reply == (match service
                          case Success(like) => Reply(201, LikeJson(like))
                          case Failure(e) =>
                            if e.name == "SequelizeUniqueConstraintError" then Reply(409, Text("User has already liked this post"))
                            else Reply(500, Text(e.message)))
  {
    if !HasFields(postId, userId) then Handled(None, Reply(400, Text(MissingFields)))
    else
      var args := LikeArgs(postId.value, userId.value);
      match service
      case Success(like) => Handled(Some(args), Reply(201, LikeJson(like)))
      case Failure(e) =>
        if e.name == "SequelizeUniqueConstraintError" then Handled(Some(args), Reply(409, Text("User has already liked this post")))
        else Handled(Some(args), Reply(500, Text(e.message)))
  }

  /** `DELETE /`: `service` is what `removeLike` did. */
  function Remove(postId: Option<int>, userId: Option<int>, service: Result<bool, JsError>): (h: Handled<LikeArgs, Body>)
    ensures !HasFields(postId, userId) ==> h == Handled(None, Reply(400, Text(MissingFields)))
    ensures h.call.Some? <==> HasFields(postId, userId)
    ensures h.call.Some? ==> h.call.value == LikeArgs(postId.value, userId.value)
    ensures h.call.Some? ==>
              h.reply == (match service
                          case Success(true) => Reply(200, Removed(true))
                          case Success(false) => Reply(404, Text("Like not found"))
                          case Failure(e) => Reply(500, Text(e.message)))
  {
    if !HasFields(postId, userId) then Handled(None, Reply(400, Text(MissingFields)))
    else
      var args := LikeArgs(postId.value, userId.value);
      match service
      case Success(removed) =>
        if removed then Handled(Some(args), Reply(200, Removed(true)))
        else Handled(Some(args), Reply(404, Text("Like not found")))
      case Failure(e) => Handled(Some(args), Reply(500, Text(e.message)))
  }

  /** The add route run against the likes table: a second like of the
      same post by the same user is answered 409 and the count stays. */
  method AddRoute(store: LikeStore, postId: Option<int>, userId: Option<int>, now: int)
    returns (reply: Reply<Body>)
    requires store.Valid()
    modifies store
    ensures store.Valid()
    ensures HasFields(postId, userId) && old(store.HasUserLiked(postId.value, userId.value)) ==>
              reply == Reply(409, Text("User has already liked this post")) && store.rows == old(store.rows)
    ensures HasFields(postId, userId) && !old(store.HasUserLiked(postId.value, userId.value)) ==>
              reply.status == 201 && store.LikeCount(postId.value) == old(store.LikeCount(postId.value)) + 1
    ensures !HasFields(postId, userId) ==> reply.status == 400 && store.rows == old(store.rows)
  {
    if !HasFields(postId, userId) {
      return Add(postId, userId, Failure(UniqueViolation)).reply;
    }
    var added := store.AddLike(postId.value, userId.value, now);
    reply := Add(postId, userId, added).reply;
  }
}
