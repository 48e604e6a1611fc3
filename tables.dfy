/** The queries the services ask of the relational store, over a table
    held as a sequence of rows: find the first row that matches, count and
    select the matching rows, delete a row, and `ORDER BY <key>`. */
module Tables {

  /** The index of the first row satisfying p (`findOne` / `findByPk`). */
  function FindFirst<T>(s: seq<T>, p: T -> bool): (k: int)
    ensures -1 <= k < |s|
    ensures k >= 0 ==> p(s[k]) && forall i :: 0 <= i < k ==> !p(s[i])
    ensures k < 0 ==> forall i :: 0 <= i < |s| ==> !p(s[i])
  {
    if s == [] then -1
    else if p(s[0]) then 0
    else
      var k := FindFirst(s[1..], p);
      if k < 0 then -1 else k + 1
  }

  predicate Exists<T>(s: seq<T>, p: T -> bool)
  {
    exists i :: 0 <= i < |s| && p(s[i])
  }

  /** The number of rows satisfying p (`count({ where })`). */
  function Count<T>(s: seq<T>, p: T -> bool): (n: nat)
    ensures n <= |s|
    ensures n == 0 <==> !Exists(s, p)
  {
    if s == [] then 0
    else Count(s[..|s| - 1], p) + (if p(s[|s| - 1]) then 1 else 0)
  }

  /** The rows satisfying p, in table order (`findAll({ where })`). */
  function Filter<T>(s: seq<T>, p: T -> bool): (r: seq<T>)
    ensures |r| == Count(s, p)
    ensures forall i :: 0 <= i < |r| ==> p(r[i]) && r[i] in s
    ensures forall i :: 0 <= i < |s| && p(s[i]) ==> s[i] in r
  {
    if s == [] then []
    else Filter(s[..|s| - 1], p) + (if p(s[|s| - 1]) then [s[|s| - 1]] else [])
  }

  /** The table without its row at index k (`destroy` of that row). */
  function RemoveAt<T>(s: seq<T>, k: nat): (r: seq<T>)
    requires k < |s|
    ensures |r| == |s| - 1
    ensures forall i :: 0 <= i < k ==> r[i] == s[i]
    ensures forall i :: k <= i < |r| ==> r[i] == s[i + 1]
  {
    s[..k] + s[k + 1..]
  }

  lemma CountAppend<T>(s: seq<T>, x: T, p: T -> bool)
    ensures Count(s + [x], p) == Count(s, p) + (if p(x) then 1 else 0)
  {
    assert (s + [x])[..|s|] == s;
  }

  lemma {:induction false} CountRemoveAt<T>(s: seq<T>, k: nat, p: T -> bool)
    requires k < |s|
    ensures Count(RemoveAt(s, k), p) == Count(s, p) - (if p(s[k]) then 1 else 0)
  {
    var last := |s| - 1;
    if k == last {
      assert RemoveAt(s, k) == s[..last];
    } else {
      CountRemoveAt(s[..last], k, p);
      assert RemoveAt(s, k) == RemoveAt(s[..last], k) + [s[last]];
      CountAppend(RemoveAt(s[..last], k), s[last], p);
    }
  }

  /** No two rows share a key (a primary key or a unique index). */
  predicate Distinct<T, K(==)>(s: seq<T>, key: T -> K)
  {
    forall i, j :: 0 <= i < j < |s| ==> key(s[i]) != key(s[j])
  }

  /** Deleting the rows that match keeps a unique key unique. */
  lemma {:induction false} FilterDistinct<T, K>(s: seq<T>, p: T -> bool, key: T -> K)
    requires Distinct(s, key)
    ensures Distinct(Filter(s, p), key)
  {
    if s != [] {
      var init := s[..|s| - 1];
      assert Distinct(init, key);
      FilterDistinct(init, p, key);
      var f := Filter(init, p);
      forall i | 0 <= i < |f| ensures key(f[i]) != key(s[|s| - 1]) {
        var j :| 0 <= j < |init| && init[j] == f[i];
      }
    }
  }

  /** Ids handed out by an auto-increment counter: each is at least 1 and
      below the next one to assign, and no two rows share one. */
  predicate AutoIds<T>(s: seq<T>, id: T -> int, next: int)
  {
    && next >= 1
    && (forall i :: 0 <= i < |s| ==> 1 <= id(s[i]) < next)
    && Distinct(s, id)
  }

  /** Inserting a row under the next id, and moving the counter on. */
  lemma AppendAutoIds<T>(s: seq<T>, x: T, id: T -> int, next: int)
    requires AutoIds(s, id, next) && id(x) == next
    ensures AutoIds(s + [x], id, next + 1)
  {
    var r := s + [x];
    forall i | 0 <= i < |r| ensures 1 <= id(r[i]) < next + 1 {
      if i < |s| {
        assert r[i] == s[i];
      }
    }
    forall i, j | 0 <= i < j < |r| ensures id(r[i]) != id(r[j]) {
      assert r[i] == s[i];
      if j < |s| {
        assert r[j] == s[j];
      }
    }
  }

  /** Deleting one row keeps the ids valid, and its id is gone. */
  lemma RemoveAtAutoIds<T>(s: seq<T>, k: nat, id: T -> int, next: int)
    requires k < |s| && AutoIds(s, id, next)
    ensures AutoIds(RemoveAt(s, k), id, next)
    ensures forall i :: 0 <= i < |RemoveAt(s, k)| ==> id(RemoveAt(s, k)[i]) != id(s[k])
  {
    var r := RemoveAt(s, k);
    forall i | 0 <= i < |r| ensures 1 <= id(r[i]) < next && id(r[i]) != id(s[k]) {
      if i < k {
        assert r[i] == s[i];
      } else {
        assert r[i] == s[i + 1];
      }
    }
    forall i, j | 0 <= i < j < |r| ensures id(r[i]) != id(r[j]) {
      var i' := if i < k then i else i + 1;
      var j' := if j < k then j else j + 1;
      assert r[i] == s[i'] && r[j] == s[j'];
    }
  }

  /** Rewriting one row under its own id keeps the ids valid. */
  lemma UpdateAutoIds<T>(s: seq<T>, k: nat, x: T, id: T -> int, next: int)
    requires k < |s| && AutoIds(s, id, next) && id(x) == id(s[k])
    ensures AutoIds(s[k := x], id, next)
  {
    var r := s[k := x];
    forall i, j | 0 <= i < j < |r| ensures id(r[i]) != id(r[j]) {
      assert id(r[i]) == id(s[i]) && id(r[j]) == id(s[j]);
    }
  }

  /** Deleting the rows that match keeps the ids valid. */
  lemma FilterAutoIds<T>(s: seq<T>, p: T -> bool, id: T -> int, next: int)
    requires AutoIds(s, id, next)
    ensures AutoIds(Filter(s, p), id, next)
  {
    FilterDistinct(s, p, id);
    var f := Filter(s, p);
    forall i | 0 <= i < |f| ensures 1 <= id(f[i]) < next {
      assert f[i] in s;
    }
  }

  predicate SortedBy<T>(s: seq<T>, key: T -> int)
  {
    forall i, j :: 0 <= i < j < |s| ==> key(s[i]) <= key(s[j])
  }

  /** Inserts x before the first element whose key is larger than x's. */
  function Insert<T>(x: T, s: seq<T>, key: T -> int): (r: seq<T>)
    ensures |r| == |s| + 1
    ensures multiset(r) == multiset(s) + multiset{x}
  {
    if s == [] then [x]
    else if key(x) < key(s[0]) then [x] + s
    else
      var rest := Insert(x, s[1..], key);
      assert s == [s[0]] + s[1..];
      [s[0]] + rest
  }

  /** Inserting into a sorted sequence keeps it sorted. */
  lemma {:induction false} InsertSorted<T>(x: T, s: seq<T>, key: T -> int)
    requires SortedBy(s, key)
    ensures SortedBy(Insert(x, s, key), key)
  {
    if s != [] && key(x) >= key(s[0]) {
      var rest := Insert(x, s[1..], key);
      InsertSorted(x, s[1..], key);
      forall k | 0 <= k < |rest|
        ensures key(s[0]) <= key(rest[k])
      {
        assert rest[k] in multiset(rest);
        if rest[k] != x {
          assert rest[k] in multiset(s[1..]);
        }
      }
      SortedCons(s[0], rest, key);
    }
  }

  lemma SortedCons<T>(h: T, rest: seq<T>, key: T -> int)
    requires SortedBy(rest, key)
    requires forall k :: 0 <= k < |rest| ==> key(h) <= key(rest[k])
    ensures SortedBy([h] + rest, key)
  {
    var r := [h] + rest;
    forall i, j | 0 <= i < j < |r|
      ensures key(r[i]) <= key(r[j])
    {
      if i > 0 {
        assert r[i] == rest[i - 1];
      }
      assert r[j] == rest[j - 1];
    }
  }

  /** The rows of s in ascending order of key: a sorted permutation of s. */
  function SortBy<T>(s: seq<T>, key: T -> int): (r: seq<T>)
    ensures multiset(r) == multiset(s)
    ensures |r| == |s|
    ensures SortedBy(r, key)
  {
    if s == [] then []
    else
      var sorted := SortBy(s[..|s| - 1], key);
      InsertLast(s, sorted, key);
      Insert(s[|s| - 1], sorted, key)
  }

  /** Sorting neither adds nor drops a row. */
  lemma SortByMembers<T>(s: seq<T>, key: T -> int)
    ensures forall x :: x in SortBy(s, key) <==> x in s
  {
    var r := SortBy(s, key);
    forall x
      ensures x in r <==> x in s
    {
      assert x in r <==> x in multiset(r);
      assert x in s <==> x in multiset(s);
    }
  }

  /** Inserting the last row into the sorted other rows sorts them all. */
  lemma InsertLast<T>(s: seq<T>, sorted: seq<T>, key: T -> int)
    requires s != [] && |sorted| == |s| - 1
    requires multiset(sorted) == multiset(s[..|s| - 1]) && SortedBy(sorted, key)
    ensures var r := Insert(s[|s| - 1], sorted, key);
            multiset(r) == multiset(s) && |r| == |s| && SortedBy(r, key)
  {
    var init, last := s[..|s| - 1], s[|s| - 1];
    InsertSorted(last, sorted, key);
    assert s == init + [last];
  }
}
