/** The likes service: the likes table, where the unique index
    `post_user_unique` over (postId, userId) allows one like per user and
    post, and the counts and lookups over it. */
module LikesService {
  import opened Js
  import Tables

  datatype LikeRow = LikeRow(id: int, postId: int, userId: int, createdAt: int)

  /** A like as the service returns it. */
  datatype Like = Like(id: int, postId: int, userId: int, createdAt: int)

  /** What Sequelize throws when an insert violates a unique index. */
  const UniqueViolation := JsError("SequelizeUniqueConstraintError", "", "Validation error")

  function Pair(r: LikeRow): (int, int)
  {
    (r.postId, r.userId)
  }

  function Id(r: LikeRow): int
  {
    r.id
  }

  function ToLike(r: LikeRow): (l: Like)
    ensures l.id == r.id && l.postId == r.postId && l.userId == r.userId && l.createdAt == r.createdAt
  {
    Like(r.id, r.postId, r.userId, r.createdAt)
  }

  /** The rows `destroy({ where: { postId, userId } })` leaves. */
  function Other(postId: int, userId: int): LikeRow -> bool
  {
    (r: LikeRow) => Pair(r) != (postId, userId)
  }

  function OfPost(postId: int): LikeRow -> bool
  {
    (r: LikeRow) => r.postId == postId
  }

  predicate HasPair(rows: seq<LikeRow>, postId: int, userId: int)
  {
    exists i :: 0 <= i < |rows| && rows[i].postId == postId && rows[i].userId == userId
  }

  /** Ids are below the next one to assign and unique, and so are the
      (postId, userId) pairs. */
  ghost predicate ValidRows(rows: seq<LikeRow>, nextId: int)
  {
    && Tables.AutoIds(rows, Id, nextId)
    && Tables.Distinct(rows, Pair)
  }

  /** Deleting rows keeps the table valid. */
  lemma FilterValid(rows: seq<LikeRow>, nextId: int, keep: LikeRow -> bool)
    requires ValidRows(rows, nextId)
    ensures ValidRows(Tables.Filter(rows, keep), nextId)
  {
    Tables.FilterAutoIds(rows, keep, Id, nextId);
    Tables.FilterDistinct(rows, keep, Pair);
  }

  /** The likes table. Ids come from `nextId` (auto-increment). */
  class LikeStore {
    var rows: seq<LikeRow>
    var nextId: int

    ghost predicate Valid()
      reads this
    {
      ValidRows(rows, nextId)
    }

    constructor ()
      ensures Valid() && rows == [] && nextId == 1
    {
      rows, nextId := [], 1;
    }

    /** `getLikeCount`. */
    function LikeCount(postId: int): (n: nat)
      reads this
      ensures n <= |rows|
      ensures n == Tables.Count(rows, OfPost(postId))
    {
      Tables.Count(rows, OfPost(postId))
    }

    /** `countByUser`. */
    function CountByUser(userId: int): (n: nat)
      reads this
      ensures n <= |rows|
      ensures n == Tables.Count(rows, (r: LikeRow) => r.userId == userId)
    {
      Tables.Count(rows, (r: LikeRow) => r.userId == userId)
    }

    /** `hasUserLiked`: a like with exactly that pair exists. */
    function HasUserLiked(postId: int, userId: int): (b: bool)
      reads this
      ensures b <==> HasPair(rows, postId, userId)
    {
      Tables.FindFirst(rows, (r: LikeRow) => r.postId == postId && r.userId == userId) >= 0
    }

    /** `addLike`: a new pair adds exactly one like; an existing pair is
        refused by the unique index and nothing changes. */
    method AddLike(postId: int, userId: int, now: int) returns (r: Result<Like, JsError>)
      requires Valid()
      modifies this
      ensures Valid()
      ensures r.Failure? <==> old(HasUserLiked(postId, userId))
      ensures r.Failure? ==> r.error == UniqueViolation && rows == old(rows) && nextId == old(nextId)
      ensures r.Success? ==>
                var row := LikeRow(old(nextId), postId, userId, now);
                && rows == old(rows) + [row]
                && nextId == old(nextId) + 1
                && r.value == ToLike(row)
                && LikeCount(postId) == old(LikeCount(postId)) + 1
                && CountByUser(userId) == old(CountByUser(userId)) + 1
    {
      if HasUserLiked(postId, userId) {
        return Failure(UniqueViolation);
      }
      var row := LikeRow(nextId, postId, userId, now);
      Tables.CountAppend(rows, row, OfPost(postId));
      Tables.CountAppend(rows, row, (r: LikeRow) => r.userId == userId);
      Tables.AppendAutoIds(rows, row, Id, nextId);
      rows := rows + [row];
      nextId := nextId + 1;
      r := Success(ToLike(row));
    }

    /** `removeLike`: deletes the likes with that pair and says whether
        there was one; every other like stays. */
    method RemoveLike(postId: int, userId: int) returns (removed: bool)
      requires Valid()
      modifies this
      ensures Valid() && nextId == old(nextId)
      ensures removed <==> old(HasUserLiked(postId, userId))
      ensures rows == Tables.Filter(old(rows), Other(postId, userId))
      ensures !HasUserLiked(postId, userId)
      ensures LikeCount(postId) == old(LikeCount(postId)) - (if removed then 1 else 0)
      ensures forall i :: 0 <= i < |old(rows)| && Pair(old(rows)[i]) != (postId, userId) ==> old(rows)[i] in rows
    {
      removed := HasUserLiked(postId, userId);
      RemoveFacts(rows, nextId, postId, userId);
      rows := Tables.Filter(rows, Other(postId, userId));
      assert ValidRows(rows, nextId);
    }
  }

  /** What deleting the likes with one pair leaves: a valid table without
      that pair, the post's count one lower when the like existed, and
      every other like. */
  lemma RemoveFacts(rows: seq<LikeRow>, nextId: int, postId: int, userId: int)
    requires ValidRows(rows, nextId)
    ensures var f := Tables.Filter(rows, Other(postId, userId));
            && ValidRows(f, nextId)
            && !HasPair(f, postId, userId)
            && Tables.Count(f, OfPost(postId)) == Tables.Count(rows, OfPost(postId)) - (if HasPair(rows, postId, userId) then 1 else 0)
            && (forall i :: 0 <= i < |rows| && Pair(rows[i]) != (postId, userId) ==> rows[i] in f)
  {
    var keep := Other(postId, userId);
    var f := Tables.Filter(rows, keep);
    FilterValid(rows, nextId, keep);
    RemoveLowersCount(rows, postId, userId);
    forall i | 0 <= i < |f| ensures Pair(f[i]) != (postId, userId) {
      assert keep(f[i]);
    }
    forall i | 0 <= i < |rows| && Pair(rows[i]) != (postId, userId) ensures rows[i] in f {
      assert keep(rows[i]);
    }
  }

  /** Removing a like lowers the post's count by one when the like
      existed, and leaves it alone otherwise. */
  lemma {:induction false} RemoveLowersCount(rows: seq<LikeRow>, postId: int, userId: int)
    requires Tables.Distinct(rows, Pair)
    ensures Tables.Count(Tables.Filter(rows, Other(postId, userId)), OfPost(postId))
              == Tables.Count(rows, OfPost(postId)) - (if HasPair(rows, postId, userId) then 1 else 0)
  {
    var keep, count := Other(postId, userId), OfPost(postId);
    if rows != [] {
      var init := rows[..|rows| - 1];
      var last := rows[|rows| - 1];
      assert Tables.Distinct(init, Pair);
      RemoveLowersCount(init, postId, userId);
      var f := Tables.Filter(init, keep);
      assert Tables.Filter(rows, keep) == f + (if keep(last) then [last] else []);
      if keep(last) {
        Tables.CountAppend(f, last, count);
        HasPairOfInit(rows, postId, userId);
      } else {
        assert Tables.Filter(rows, keep) == f;
        assert !HasPair(init, postId, userId);
        assert HasPair(rows, postId, userId);
      }
    } else {
      assert !HasPair(rows, postId, userId);
    }
  }

  lemma HasPairOfInit(rows: seq<LikeRow>, postId: int, userId: int)
    requires rows != [] && Pair(rows[|rows| - 1]) != (postId, userId)
    ensures HasPair(rows, postId, userId) == HasPair(rows[..|rows| - 1], postId, userId)
  {
    var init := rows[..|rows| - 1];
    if HasPair(rows, postId, userId) {
      var i :| 0 <= i < |rows| && rows[i].postId == postId && rows[i].userId == userId;
      assert init[i] == rows[i];
    }
  }
}
