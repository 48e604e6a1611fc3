# A verified model of the decision logic of a small social-content platform

The platform is a set of Express/Sequelize HTTP services: users (registration,
login, JWT issue and verification), posts, comments, likes, moderation (a
content-safety check against a third-party API) and profile. This project
models the part of them that decides things:

- **the moderation service**: its retry loop (at most three calls of the
  SDK's `moderations.create`, whose own internal retries are not counted,
  waiting 1000 ms and then 2000 ms after a rate-limited call), the mapping of
  the provider's category map to the eleven-field verdict record, and the
  `/moderation/check` handler;
- **the moderation gate of the posts service**: fail-open when the moderation
  service is unreachable and fail-closed on a negative verdict or any other
  error;
- **the bearer-token gates**: the users service's local one and the delegated
  one of the comments and profile services;
- **request validation and the status each outcome is answered with**, in
  every controller;
- **the tables behind the ORM**: posts, comments, users and likes. They are
  classes over a sequence of rows with an auto-increment counter.
  - Deleting a post or a comment checks its owner.
  - E-mail addresses and usernames are unique among users.
  - (postId, userId) pairs are unique among likes.

Everything the services do not decide for themselves is a parameter:
- what the moderation provider answers on each attempt;
- what the users service answers for a username;
- what `/users/verify` answers;
- bcrypt, JWT signing and verification;
- the current time.

A handler is a function of the request and of what its service answered. It
returns what it asked of the service (`call`, None when the service was not
reached) and the reply it sent.

Modules:
- **Js**: the JavaScript behaviour the code relies on: truthiness,
  `String.prototype.trim`, UTF-16 `length`, `String(n)` and `parseInt`.
- **Tables**: the ORM queries: find, count, filter, delete and ORDER BY.
- **Enrichment**: the username fallback.
- **Auth**: Bearer extraction and the delegated gate.
- One module per core source file.

The model follows what the code does, including where a reader might expect
otherwise:
- comments are stored without any moderation step;
- a flagged post is refused with a plain error that carries a fixed message,
  not the flagged categories;
- batch moderation has no limit of 100 items and does not refuse empty items;
- the comments and likes route handlers answer errors with plain text, not `{ error }`; the comments
  service's bearer gate answers its 401s with `{ error }`.

## Model

| member | source | states |
|---|---|---|
| ModerationService.ModerateContent | moderation/src/moderationService.ts:35-115 | The provider is called 1 to 3 times, and every call but the last was rate-limited. The delays slept are exactly 1000 then 2000 ms, one before each repeated call. A rate-limited last call happens only on the third attempt. Any failure of the last call is surfaced as "Moderation failed: <message>". An answer without results fails with the TypeError message. Otherwise the verdict is the one built from the first result, and it is consistent. The trailing rethrow is unreachable. |
| ModerationService.ModerateBatch | moderation/src/moderationService.ts:120-202 | An empty batch gives [] with no call and no sleep. The retry policy of the single call applies to the whole batch, with the prefix "Batch moderation failed: ". A successful answer gives one verdict per provider result, in order, each built by the same mapping and consistent. |
| ModerationService.CollectFlagged | moderation/src/moderationService.ts:61-67 | The push loop over the record's entries yields exactly FlaggedKeys of the record. |
| ModerationService.TrueIndices | moderation/src/moderationService.ts:62-67 | Gives exactly the positions of the true values, in strictly increasing order. |
| ModerationService.FlaggedKeysExact | moderation/src/moderationService.ts:47-67 | A category name is listed if and only if that category's value is true. |
| ModerationService.FlaggedKeysOrdered | moderation/src/moderationService.ts:62-67 | The listed names keep the record's declaration order, and none is listed twice. |
| ModerationService.MapCategoriesByPosition | moderation/src/moderationService.ts:47-59 | Each of the eleven service categories takes the provider's value of the provider key at the same position (for example selfHarm takes 'self-harm'). A missing key reads as false. |
| ModerationService.ResponseOfConsistent | moderation/src/moderationService.ts:69-96 | approved == !flagged. The details repeat approved, flagged and flaggedCategories. The flagged list is the one of the details' record, which is the mapped provider record. The details' id is the answer's id, or 'unknown' when that is empty. The model is the answer's model, or 'text-moderation-latest' when that is empty. |
| ModerationService.BuildResponse | moderation/src/moderationService.ts:44-96 | The verdict built with the collecting loop equals the specification ResponseOf. |
| ModerationController.Check | moderation/src/moderationController.ts:18-40 | Content that is missing, falsy or not a string gets 400 "Content is required and must be a string", without calling the service. Whitespace-only content gets 400 "Content cannot be empty", without a call. Otherwise the service gets the content with contentType defaulting to 'text'. Success gives 200 with the verdict unchanged. An error gives 500 with its message, or 'Moderation check failed'. |
| Js.TrimEmptyIffBlank | moderation/src/moderationController.ts:26 | `trim().length === 0` holds exactly for strings made only of ECMAScript whitespace. |
| Js.Utf16Length | users/src/usersController.ts:50 | `password.length` counts UTF-16 code units: between the number of code points and twice that. |
| Js.ParseIntOfIntToString | users/src/usersController.ts:112 | `parseInt(String(n))` gives n back, with or without radix 10. |
| Enrichment.UserName | posts/src/postsService.ts:8-16 | The display name is never empty. It never fails. It is the fetched username whenever that is truthy, and otherwise `String(userId)`. |
| Enrichment.FallbackNameIsId | comments/src/commentsService.ts:8-16 | When no username comes back, the name read back with parseInt is the user id. |
| PostsService.ModerateContent | posts/src/postsService.ts:18-43 | Unconfigured: nothing is sent and the write proceeds. Configured: exactly {content, contentType 'post', timeout 5000} is sent. A negative verdict throws the fixed message with no code, which is never absorbed. A thrown error the catch block absorbs lets the write on. Every other error is rethrown unchanged. The absorbed errors are a parameter: ECONNREFUSED or ETIMEDOUT as written (Unavailable), plus axios's ECONNABORTED timeout as intended (Unreachable). |
| PostsService.GateBlocksIff | posts/src/postsService.ts:30-41 | The gate blocks if and only if it is configured and either the verdict is negative or the call failed with an error it does not absorb. |
| PostsService.TimeoutBlocksAsWritten | posts/src/postsService.ts:24-41 | As written, axios's own timeout error (code ECONNABORTED, "timeout of 5000ms exceeded") is rethrown, so a moderation service that does not answer in time blocks the post. |
| PostsService.TimeoutFailsOpen | posts/src/postsService.ts:24-41 | With the intended absorption, that timeout lets the post on. A negative verdict and every error that is not a refused connection or a timeout still block. |
| PostsService.Enrich | posts/src/postsService.ts:53-62 | The returned post copies the row. Its author name is the display name of its author, and it is non-empty. Its topics are the stored ones, or `[]` when the column is null. |
| PostsService.NewestFirst | posts/src/postsService.ts:48-50 | ORDER BY createdAt DESC gives a permutation of the table, newest first. |
| PostsService.PostStore.GetPosts | posts/src/postsService.ts:47-67 | One enriched post per stored post, in createdAt-descending order. |
| PostsService.GetPostsCoversTable | posts/src/postsService.ts:47-66 | Every stored post is listed, and every listed post is stored. |
| PostsService.PostStore.CountByAuthor | posts/src/postsService.ts:92-94 | The number of posts whose author is the given id. |
| PostsService.PostStore.CreatePost | posts/src/postsService.ts:69-90 | `title + "\n" + text` is moderated once, before the insert, by the gate with the given catch block (Unavailable as written, Unreachable as intended). If the gate refuses, its error is returned and the table is unchanged. Otherwise exactly one row is appended, with the next id and topics `[]` when absent. The enriched post is returned, and the author's count rises by one. |
| PostsService.CreateRaisesCount | posts/src/postsService.ts:69-94 | A new post raises its author's count by one and nobody else's. |
| PostsService.PostStore.DeletePost | posts/src/postsService.ts:96-109 | Returns true if and only if the post exists and belongs to the caller. Otherwise the table is unchanged. When true, exactly that row is removed, and the author's count drops by one. |
| CommentsService.Enrich | comments/src/commentsService.ts:8-33 | The returned comment copies the row. Its author name is the display name of its author (UserName): the fetched username when that is truthy, otherwise `String(userId)`, on a missing username and on a failed lookup alike. It is never empty. |
| CommentsService.OfPostOldestFirst | comments/src/commentsService.ts:19-22 | A permutation of the post's comments (the same multiset as the rows `where: { postId }` selects), as many as their count, oldest first. |
| CommentsService.CommentStore.GetCommentsByPost | comments/src/commentsService.ts:18-37 | One enriched comment per stored comment of the post, oldest first. |
| CommentsService.CommentStore.CreateComment | comments/src/commentsService.ts:39-51 | {postId, userId, text} is stored as given, with no moderation step. Exactly one row is appended, and the comment is returned with its author name. |
| CommentsService.NewCommentListed | comments/src/commentsService.ts:18-51 | A new comment appears in its post's listing, and it leaves every other post's listing as it was. |
| CommentsService.CommentStore.DeleteComment | comments/src/commentsService.ts:53-65 | A missing comment, or the comment of another user, gives false and removes nothing. Otherwise it gives true and removes exactly that comment. |
| Auth.BearerToken | comments/src/commentsController.ts:26-32 | A token is found if and only if the header is present and starts with "Bearer ". The header is then "Bearer " followed by the token (`substring(7)`). |
| Auth.BearerTokenOfHeader | profile/src/profileController.ts:20-26 | The token comes back from the header "Bearer " + token. |
| Auth.DelegatedAuthenticate | comments/src/commentsController.ts:20-46 | A bad header gets 401 "Missing or invalid Authorization header", with no verify call. Otherwise exactly the header's token is posted. The request passes if and only if the reply has a truthy `valid` and a user, and then it carries that user and the token. A 2xx reply without them gets 401 "Token verification failed". Every refusal is a 401 with a non-empty error. |
| Auth.DelegatedErrorMessage | comments/src/commentsController.ts:42-45 | A thrown verify call is reported with the reply's `error`, else the error's `message`, else "Authentication failed". |
| CommentsController.GetByPost | comments/src/commentsController.ts:49-67 | A NaN post id (parseInt with no radix) gets 400 "Invalid post ID", with no service call. Otherwise 200 with the comments, or 500 with the message. |
| CommentsController.Create | comments/src/commentsController.ts:71-92 | A failed gate gets its 401, with no service call. A falsy postId or text gets 400 "Missing required fields: postId, text". The service is called exactly otherwise, with the author taken from the authenticated user, never from the body. Then 201 or 500. |
| CommentsController.Delete | comments/src/commentsController.ts:95-122 | A failed gate gets its 401. A NaN id gets 400 "Invalid comment ID". Otherwise the service is called with the id and the authenticated user. false gives 404 "Comment not found or unauthorized", true gives 200 {message}, and an error gives 500. |
| CommentsController.DeleteRoute | comments/src/commentsController.ts:95-122 | Run against the table: the reply is 200 exactly when the gate passes, the id parses, and the comment exists and belongs to the authenticated user. Any other reply leaves the table unchanged. |
| UsersService.View | users/src/usersService.ts:47-54 | A returned user copies the row's fields but the password. |
| UsersService.VerifyToken | users/src/usersService.ts:105-112 | Success exactly when jwt.verify accepts the token, with its payload. Every failure is "Invalid or expired token". |
| UsersService.NewestFirst | users/src/usersService.ts:137-139 | ORDER BY createdAt DESC gives a permutation of the table, newest first. |
| UsersService.UserStore.CreateUser | users/src/usersService.ts:14-55 | An existing e-mail gives "User with this email already exists". Otherwise an existing username gives "Username is already taken". A rejection leaves the table unchanged. Success happens exactly when both are new. Then exactly one row is appended, holding the hash of the password, and the user is returned without the password. The table stays valid: ids and e-mail addresses and usernames unique. |
| UsersService.UserStore.Login | users/src/usersService.ts:60-100 | An unknown e-mail and a wrong password both fail with "Invalid email or password". Success happens exactly when the matched user's hash accepts the password. Then the user is {id, username, email} of the matched row, and the token is signed over it. |
| UsersService.LoginTokenVerifies | users/src/usersService.ts:80-112 | With a verify that inverts sign, the token of a successful login verifies to the user it was issued for. |
| UsersService.UserStore.GetUserById | users/src/usersService.ts:117-131 | None (null) if and only if no row has the id. Otherwise that row, without the password. |
| UsersService.UserStore.GetAllUsers | users/src/usersService.ts:136-148 | Every user, without passwords, newest first. |
| UsersService.Apply | users/src/usersService.ts:160-187 | Every present key is written and every absent one kept. An absent password keeps the stored hash. A non-empty password is stored hashed. An empty password is stored as "", unhashed. updatedAt moves to now only when some value changed. |
| UsersService.UpdateAsWritten | users/src/usersService.ts:153-196 | updateUser as written. A missing id gives "User not found". A truthy e-mail that differs from the user's own and that some user already has gives "Email is already taken". Otherwise the same for the username gives "Username is already taken". It succeeds exactly when none of these holds, and then the user's row is replaced by the one with every present key written. |
| UsersService.UpdateAsWrittenBreaksUniqueness | users/src/usersService.ts:165-187 | Counterexample: with users A (e-mail "a@x") and B (e-mail ""), setting A's e-mail to "" passes every check and leaves two users with the same e-mail. |
| UsersService.UpdateChecked | users/src/usersService.ts:153-196 | updateUser with every present value checked, "" included. "User not found" exactly when the id is missing. A changed e-mail that some user already has gives "Email is already taken". Otherwise a changed, taken username gives "Username is already taken". An unchanged value is never checked. It succeeds exactly when none of these holds, and then the user's row is replaced by the one with every present key written. |
| UsersService.UpdateCheckedPreservesUnique | users/src/usersService.ts:165-187 | The checked update keeps e-mail addresses and usernames unique and changes no other row. |
| UsersService.UserStore.UpdateUser | users/src/usersService.ts:153-196 | The table becomes UpdateChecked of the old table: the taken e-mail and username refusals, and on success the user's row rewritten. A rejection leaves it unchanged and returns UpdateChecked's error. Success returns the updated row without the password. The table stays valid. |
| UsersService.UserStore.DeleteUser | users/src/usersService.ts:201-209 | "User not found" if and only if no row has the id, and then nothing changes. Otherwise exactly that row is removed. |
| UsersController.LocalAuthenticate | users/src/usersController.ts:10-32 | A bad header gets 401 "Authorization header missing or invalid". A refused token gets 401 "Invalid or expired token". The request passes if and only if the header has a token that verifies, and then with that token's user. |
| UsersController.Register | users/src/usersController.ts:35-61 | Any falsy field gets 400 "Missing required fields: username, email, password". A password shorter than 6 UTF-16 units gets 400 "Password must be at least 6 characters long". In neither case is createUser called. Then 201, or 400 with the message or "Registration failed". |
| UsersController.Login | users/src/usersController.ts:64-84 | A falsy e-mail or password gets 400 "Missing required fields: email, password", without a call. Then 200, or 401 with the message or "Login failed". |
| UsersController.UserReply | users/src/usersController.ts:119-129 | null gives 404 "User not found". A user gives 200 with that user. A thrown error gives 500 with its message. |
| UsersController.Me | users/src/usersController.ts:87-105 | A failed local gate gets its 401. Otherwise the lookup is by the token's user id. |
| UsersController.ById | users/src/usersController.ts:108-131 | A NaN id (parseInt radix 10) gets 400 "Invalid user ID", with no lookup. Otherwise the parsed id is looked up. |
| UsersController.ByIdOfIntToString | users/src/usersController.ts:112-117 | An id written by `String(id)` into the path is looked up as that same id. |
| UsersController.Verify | users/src/usersController.ts:134-151 | A falsy token gets 400 "Token is required". A valid token gets 200 {valid: true, user}. Any other token gets 401 {valid: false, error: "Invalid or expired token"}. |
| UsersController.AsSeenByAxios | comments/src/commentsController.ts:33-45 | A reply resolves if and only if its status is 2xx. It then carries `valid` and the user exactly when the body is {valid: true, user}. Any other status throws. The error carries the body's `error` field ("" when the body has none) and the message "Request failed with status code <status>". |
| UsersController.DelegatedAgreesWithLocal | comments/src/commentsController.ts:20-46 | The delegated gate in front of the users service's `/verify`, and the users service's own gate, let the same users through with the same token. Every refusal is a 401. For a header with a non-empty token they give the same refusal. |
| LikesService.ToLike | likes/src/likesService.ts:22-27 | The returned like copies the row. |
| LikesService.FilterValid | likes/src/db/like.db.ts:43-50 | Deleting likes keeps ids and (postId, userId) pairs unique. |
| LikesService.LikeStore.LikeCount | likes/src/likesService.ts:5-9 | The number of likes of the post. |
| LikesService.LikeStore.CountByUser | likes/src/likesService.ts:38-40 | The number of likes by the user. |
| LikesService.LikeStore.HasUserLiked | likes/src/likesService.ts:11-14 | True if and only if a like with exactly that pair exists. |
| LikesService.LikeStore.AddLike | likes/src/likesService.ts:16-28 | An existing pair fails with SequelizeUniqueConstraintError, and the table is unchanged. Otherwise exactly one like is appended, the post's count and the user's count rise by one, and the pair stays unique. |
| LikesService.LikeStore.RemoveLike | likes/src/likesService.ts:30-36 | Returns true if and only if the pair existed. Afterwards none exists, every other like remains, and the post's count drops by one exactly when one was removed. |
| LikesService.RemoveLowersCount | likes/src/likesService.ts:30-36 | Under the unique pair, deleting a pair lowers its post's count by one if the like existed, and by zero otherwise. |
| Tables.FilterDistinct | likes/src/db/like.db.ts:43-50 | Deleting rows keeps a unique index unique. |
| Tables.SortBy | posts/src/postsService.ts:48-50 | ORDER BY gives a sorted permutation of the rows. |
| Tables.Count | likes/src/likesService.ts:5-9 | `count({ where })` is at most the table size, and 0 exactly when no row matches. |
| Tables.Filter | comments/src/commentsService.ts:19-22 | `findAll({ where })` gives exactly the matching rows, as many as Count. |
| Tables.FindFirst | posts/src/postsService.ts:97 | `findByPk` finds a matching row exactly when there is one. |
| LikesController.Add | likes/src/likesController.ts:27-52 | A falsy postId or userId gets 400, with no call. Otherwise addLike is called with the body's ids, where the user id comes from the body with no authentication. Then 201, 409 "User has already liked this post" on a unique-constraint error, or 500 with the message. |
| LikesController.Remove | likes/src/likesController.ts:55-79 | A falsy field gets 400, with no call. Removed gives 200 {success: true}, not removed gives 404 "Like not found", and an error gives 500. |
| LikesController.AddRoute | likes/src/likesController.ts:27-52 | Run against the table: a second like of the same post by the same user gets 409 and leaves the table as it was. A first like gets 201, and the post's count rises by one. |
| ProfileController.Me | profile/src/profileController.ts:43-55 | A failed delegated gate gets its 401, and getProfile is not called. Otherwise getProfile gets exactly the verified token. Then 200 with the profile, or 500 with the message or "Failed to load profile". |
| ProfileController.MeForwardsHeaderToken | profile/src/profileController.ts:26-49 | The token stashed on the request and passed to getProfile is the header's text after "Bearer ". |

## Left out

- Server wiring, metrics, health probes and the database connection are left out. They have no logic of their own.
- The category scores are floating-point values that are copied through, so they are left out.
- Sleeping is not modelled: the delays are recorded instead. The 5000 ms axios timeout is recorded in the request. Its expiry is the error axios rejects with by default, code ECONNABORTED (see Findings). ETIMEDOUT is what a connect timeout of the socket gives, or axios with `transitional.clarifyTimeoutError` set.
- ModerationService.ModerateContent and ModerateBatch: what is sent to the provider (`input: request.content`, or the whole batch) is not modelled. The provider's answer on each attempt is a parameter, so the content does not enter the model. The OpenAI SDK's own internal retries are inside one call attempt and are not modelled.
- LikesService.LikeStore.AddLike: on a unique violation the counter `nextId` is kept. SQLite behaves this way, but a PostgreSQL sequence advances even when the insert fails. The model then differs only in which id later likes get, not in ids being unique.
- The network and the ORMs are modelled only through the parameters described above.
- The moderation provider is a sequence with at least one answer per possible attempt (ModerationService.ModerateContent and ModerateBatch require three).
- A missing `message` on a provider error is not modelled. It would read "undefined".
- Promise.all over the enrichment lookups is modelled as a sequential map. Each lookup catches its own failure, so the order of completion does not matter.
- The profile aggregation (profileService) is left out. It is four HTTP GETs joined by Promise.all.
- The posts controller is left out. It only passes getPosts through.
- The likes count route (`GET /post/:postId/count`) is left out. It passes an unchecked `parseInt` result, possibly NaN, to the ORM, and what the ORM then does is outside the code.
- The comments route `/user/count` is left out. It calls `countByUser`, which the comments service does not define, so it fails at run time.
- The ORM's own failures are not modelled, such as the database being down. The store methods never throw except for the unique-index violation on likes. The controllers' 500 paths are still modelled through the service result parameter.
- Body fields of the wrong JSON type are not modelled, for example a numeric `text` or a string `postId`. A string field is a `string`, with "" for absent or empty, and a numeric field is an `Option<int>`. The moderation handler is the exception: it also models non-string content.
- BIGINT columns are integers in the model. A driver that returns them as strings would change the strict comparisons of the owner checks, and that is not modelled.
- Numbers beyond 2^53, where a JavaScript number loses precision, are not modelled.
- users/src/db/user.db.ts is not part of this model. No database-level unique constraint on users is assumed: uniqueness rests on the service's own checks. Two concurrent registrations are not modelled.
- bcrypt's random salt is folded into the `hash` parameter, so hashing is deterministic in the model.
- Token expiry and signature checking live in jsonwebtoken and are not modelled.
- UsersService.UserStore.UpdateUser: keys that `Partial<CreateUserRequest>` does not declare, but a caller could still pass at run time, are not modelled. Nor is the in-place overwrite of the caller's `updates.password`.
- UsersService.UserStore.UpdateUser: this member models the corrected check (see Findings), not the code as written. The code as written is UpdateAsWritten.
- SQL leaves ORDER BY ties unspecified. The model breaks ties by table order and proves only sortedness and permutation.

## Findings

| source | as written | input that shows it | evidently intended | confidence | as-written member | corrected member |
|---|---|---|---|---|---|---|
| users/src/usersService.ts:166-187 | The e-mail and username checks run only when the new value is truthy (`updates.email && ...`), yet `user.update(updates)` writes every present key, including an empty string | Users 1 (e-mail "a@x") and 2 (e-mail ""). `updateUser(1, { email: "" })` passes every check and stores a second user with e-mail "" | Every present value that differs from the current one is checked before anything is written, so e-mail addresses and usernames stay unique | medium; not executed. No route calls updateUser, and users/src/db/user.db.ts, which may add its own constraints, is not part of this model | UsersService.UpdateAsWritten, UsersService.UpdateAsWrittenBreaksUniqueness | UsersService.UpdateChecked, UsersService.UpdateCheckedPreservesUnique |
| posts/src/postsService.ts:35 | The catch block absorbs the codes ECONNREFUSED and ETIMEDOUT only. axios rejects an expired `timeout: 5000` with code ECONNABORTED by default, so it is rethrown | The moderation service accepts the connection but does not answer within 5000 ms. axios rejects with code ECONNABORTED and message "timeout of 5000ms exceeded", and createPost fails | A moderation service that does not answer in time is treated as unavailable, and the post is written (fail-open, as the comment on the catch block says) | medium; not executed. It holds for axios's default settings in its Node adapter, and the axios version and its configuration are not part of this model | PostsService.Unavailable, PostsService.TimeoutBlocksAsWritten | PostsService.Unreachable, PostsService.TimeoutFailsOpen |
