/** The display order of the roster: the comparator of `displayCadets` (batch,
    then rank, then name) and the stable sort that `Array.prototype.sort`
    performs with it, modelled as an insertion sort. */
module Order {
  import opened Strings
  import opened Sequences
  import opened Batches
  import opened Ingest

  /** `RANK_ORDER`, senior first. */
  const RankOrder: seq<string> := ["SUO", "JUO", "CSM", "SGT", "CPL", "LCPL", "CDT"]

  /** `RANK_ORDER.indexOf(rank)`: the rank's place, or -1 for a rank outside
      the list (RankIndexIsIndexOf ties it to the general search). */
  function RankIndex(rank: string): (i: int)
    ensures -1 <= i < |RankOrder|
    ensures i == -1 <==> rank !in RankOrder
    ensures i >= 0 ==> RankOrder[i] == rank
  {
    if rank == "SUO" then 0
    else if rank == "JUO" then 1
    else if rank == "CSM" then 2
    else if rank == "SGT" then 3
    else if rank == "CPL" then 4
    else if rank == "LCPL" then 5
    else if rank == "CDT" then 6
    else -1
  }

  lemma RankIndexIsIndexOf(rank: string)
    ensures RankIndex(rank) == IndexOf(RankOrder, rank)
  {
    if rank in RankOrder {
      IndexOfDistinct(RankOrder, RankIndex(rank));
    }
  }

  /** The ranks of RANK_ORDER are distinct, so a rank sits exactly at its index. */
  lemma RankIndexExact(rank: string, k: int)
    requires 0 <= k < |RankOrder|
    ensures RankIndex(rank) == k <==> rank == RankOrder[k]
  {
    assert Distinct(RankOrder);
    if rank == RankOrder[k] {
      IndexOfDistinct(RankOrder, k);
    }
  }

  /** The sort comparator: the difference of the batch indices, else the
      difference of the rank indices, else the name comparison. */
  function Compare(a: Cadet, b: Cadet): int {
    var batchCmp := BatchIndex(a.batch) - BatchIndex(b.batch);
    if batchCmp != 0 then batchCmp
    else
      var rankCmp := RankIndex(a.rank) - RankIndex(b.rank);
      if rankCmp != 0 then rankCmp
      else LexCompare(a.name, b.name)
  }

  /** `a` may stay before `b`. */
  predicate Le(a: Cadet, b: Cadet) {
    Compare(a, b) <= 0
  }

  /** What the comparator looks at. */
  datatype Key = Key(batch: int, rank: int, name: string)

  function KeyOf(c: Cadet): Key {
    Key(BatchIndex(c.batch), RankIndex(c.rank), c.name)
  }

  /** The comparator is a total preorder whose ties are exactly the records
      with equal keys. */
  lemma CompareTotal(a: Cadet, b: Cadet)
    ensures Le(a, b) || Le(b, a)
    ensures Le(a, b) && Le(b, a) <==> KeyOf(a) == KeyOf(b)
    ensures Compare(a, b) == 0 <==> KeyOf(a) == KeyOf(b)
  {
    LexCompareAntisymmetric(a.name, b.name);
  }

  lemma CompareTransitive(a: Cadet, b: Cadet, c: Cadet)
    requires Le(a, b) && Le(b, c)
    ensures Le(a, c)
  {
    if KeyOf(a).batch == KeyOf(b).batch == KeyOf(c).batch && KeyOf(a).rank == KeyOf(b).rank == KeyOf(c).rank {
      LexCompareTransitive(a.name, b.name, c.name);
    }
  }

  /** indexOf gives -1 for an unknown rank, so within a batch such a record
      sorts before every recognised rank, SUO included. */
  lemma UnknownRankFirst(a: Cadet, b: Cadet)
    requires a.batch == b.batch && a.rank !in RankOrder && b.rank in RankOrder
    ensures Compare(a, b) < 0
  {
  }

  /** Non-decreasing under the comparator. */
  ghost predicate Sorted(s: seq<Cadet>) {
    forall i, j :: 0 <= i < j < |s| ==> Le(s[i], s[j])
  }

  /** Insert `x` after the last element of `s` that may stay before it. */
  function Insert(x: Cadet, s: seq<Cadet>): (r: seq<Cadet>)
    ensures multiset(r) == multiset(s) + multiset{x}
  {
    if s == [] then [x]
    else if Le(s[|s| - 1], x) then s + [x]
    else
      assert s == s[..|s| - 1] + [s[|s| - 1]];
      Insert(x, s[..|s| - 1]) + [s[|s| - 1]]
  }

  /** The sort of `[...allCadets].sort(cmp)`: each element in turn is inserted
      after the equal ones already placed, which makes it stable. */
  function SortCadets(s: seq<Cadet>): (r: seq<Cadet>)
    ensures multiset(r) == multiset(s)
  {
    if s == [] then []
    else
      assert s == s[..|s| - 1] + [s[|s| - 1]];
      Insert(s[|s| - 1], SortCadets(s[..|s| - 1]))
  }

  lemma {:induction false} InsertSorted(x: Cadet, s: seq<Cadet>)
    requires Sorted(s)
    ensures Sorted(Insert(x, s))
  {
    if s == [] {
    } else if Le(s[|s| - 1], x) {
      forall i | 0 <= i < |s| ensures Le(s[i], x) {
        if i < |s| - 1 {
          CompareTransitive(s[i], s[|s| - 1], x);
        }
      }
    } else {
      var init, last := s[..|s| - 1], s[|s| - 1];
      InsertSorted(x, init);
      var t := Insert(x, init);
      CompareTotal(last, x);
      forall y | y in t ensures Le(y, last) {
        assert y in multiset(t);
        if y != x {
          assert y in init;
        }
      }
      assert forall i :: 0 <= i < |t| ==> t[i] in t;
    }
  }

  /** The sorted list is non-decreasing in (batch index, rank index, name). */
  lemma {:induction false} SortSorted(s: seq<Cadet>)
    ensures Sorted(SortCadets(s))
  {
    if s != [] {
      SortSorted(s[..|s| - 1]);
      InsertSorted(s[|s| - 1], SortCadets(s[..|s| - 1]));
    }
  }

  /** The elements of `s` with key `k`, in their order in `s`. */
  function WithKey(s: seq<Cadet>, k: Key): seq<Cadet> {
    if s == [] then []
    else
      assert s == s[..|s| - 1] + [s[|s| - 1]];
      WithKey(s[..|s| - 1], k) + Single(s[|s| - 1], k)
  }

  /** WithKey keeps exactly the elements of key `k`. */
  lemma {:induction false} WithKeyMember(s: seq<Cadet>, k: Key, x: Cadet)
    ensures x in WithKey(s, k) <==> x in s && KeyOf(x) == k
  {
    if s != [] {
      WithKeyMember(s[..|s| - 1], k, x);
      assert s == s[..|s| - 1] + [s[|s| - 1]];
    }
  }

  lemma {:induction false} WithKeyAppend(a: seq<Cadet>, b: seq<Cadet>, k: Key)
    ensures WithKey(a + b, k) == WithKey(a, k) + WithKey(b, k)
    decreases |b|
  {
    if b == [] {
      assert a + b == a;
    } else {
      WithKeyAppend(a, b[..|b| - 1], k);
      assert (a + b)[..|a + b| - 1] == a + b[..|b| - 1];
    }
  }

  /** The part of a one-element list with key `k`. */
  function Single(x: Cadet, k: Key): seq<Cadet> {
    if KeyOf(x) == k then [x] else []
  }

  lemma WithKeySnoc(s: seq<Cadet>, x: Cadet, k: Key)
    ensures WithKey(s + [x], k) == WithKey(s, k) + Single(x, k)
  {
    assert (s + [x])[..|s|] == s;
  }

  /** Inserting `x` adds it after the elements of its own key, and leaves the
      other keys' elements alone. */
  lemma {:induction false} InsertWithKey(x: Cadet, s: seq<Cadet>, k: Key)
    ensures WithKey(Insert(x, s), k) == WithKey(s, k) + Single(x, k)
  {
    if s == [] {
      WithKeySnoc([], x, k);
    } else if Le(s[|s| - 1], x) {
      WithKeySnoc(s, x, k);
    } else {
      var init, last := s[..|s| - 1], s[|s| - 1];
      var t := Insert(x, init);
      calc {
        WithKey(Insert(x, s), k);
        WithKey(t + [last], k);
        { WithKeySnoc(t, last, k); }
        WithKey(t, k) + Single(last, k);
        { InsertWithKey(x, init, k); }
        WithKey(init, k) + Single(x, k) + Single(last, k);
        { CompareTotal(last, x); }
        WithKey(init, k) + Single(last, k) + Single(x, k);
        { WithKeySnoc(init, last, k); assert init + [last] == s; }
        WithKey(s, k) + Single(x, k);
      }
    }
  }

  /** The sort is stable: records with equal keys keep their input order. */
  lemma {:induction false} SortStable(s: seq<Cadet>, k: Key)
    ensures WithKey(SortCadets(s), k) == WithKey(s, k)
  {
    if s != [] {
      SortStable(s[..|s| - 1], k);
      InsertWithKey(s[|s| - 1], SortCadets(s[..|s| - 1]), k);
    }
  }

  lemma WithKeyCons(x: Cadet, s: seq<Cadet>, k: Key)
    ensures WithKey([x] + s, k) == Single(x, k) + WithKey(s, k)
  {
    WithKeyAppend([x], s, k);
    WithKeySnoc([], x, k);
  }

  /** The first element of a sorted sequence is minimal in it. */
  lemma SortedHead(a: seq<Cadet>, y: Cadet)
    requires Sorted(a) && a != [] && y in a
    ensures Le(a[0], y)
  {
    CompareTotal(a[0], a[0]);
  }

  /** Two sorted sequences that agree on every key start alike. */
  lemma SortedSameHead(a: seq<Cadet>, b: seq<Cadet>)
    requires Sorted(a) && Sorted(b) && a != [] && b != []
    requires forall k :: WithKey(a, k) == WithKey(b, k)
    ensures a[0] == b[0]
  {
    assert b[0] in a by {
      WithKeyMember(b, KeyOf(b[0]), b[0]);
      WithKeyMember(a, KeyOf(b[0]), b[0]);
    }
    assert a[0] in b by {
      WithKeyMember(a, KeyOf(a[0]), a[0]);
      WithKeyMember(b, KeyOf(a[0]), a[0]);
    }
    assert KeyOf(a[0]) == KeyOf(b[0]) by {
      SortedHead(a, b[0]);
      SortedHead(b, a[0]);
      CompareTotal(a[0], b[0]);
    }
    var k0 := KeyOf(a[0]);
    assert WithKey(a, k0) == [a[0]] + WithKey(a[1..], k0) by {
      assert a == [a[0]] + a[1..];
      WithKeyCons(a[0], a[1..], k0);
    }
    assert WithKey(b, k0) == [b[0]] + WithKey(b[1..], k0) by {
      assert b == [b[0]] + b[1..];
      WithKeyCons(b[0], b[1..], k0);
    }
    assert WithKey(a, k0)[0] == WithKey(b, k0)[0];
  }

  /** A sorted sequence is determined by its elements of each key in order:
      two sorted sequences that agree on every key are equal. */
  lemma {:induction false} SortedUnique(a: seq<Cadet>, b: seq<Cadet>)
    requires Sorted(a) && Sorted(b)
    requires forall k :: WithKey(a, k) == WithKey(b, k)
    ensures a == b
    decreases |a|
  {
    if a == [] || b == [] {
      if a != [] {
        WithKeyMember(a, KeyOf(a[0]), a[0]);
        WithKeyMember(b, KeyOf(a[0]), a[0]);
      } else if b != [] {
        WithKeyMember(b, KeyOf(b[0]), b[0]);
        WithKeyMember(a, KeyOf(b[0]), b[0]);
      }
    } else {
      SortedSameHead(a, b);
      forall k
        ensures WithKey(a[1..], k) == WithKey(b[1..], k)
      {
        var p := Single(a[0], k);
        assert WithKey(a, k) == p + WithKey(a[1..], k) by {
          assert a == [a[0]] + a[1..];
          WithKeyCons(a[0], a[1..], k);
        }
        assert WithKey(b, k) == p + WithKey(b[1..], k) by {
          assert b == [b[0]] + b[1..];
          WithKeyCons(b[0], b[1..], k);
        }
        assert (p + WithKey(a[1..], k))[|p|..] == WithKey(a[1..], k);
        assert (p + WithKey(b[1..], k))[|p|..] == WithKey(b[1..], k);
      }
      SortedUnique(a[1..], b[1..]);
    }
  }

  /** Any stable sort under the comparator gives the same list, so the choice
      of insertion sort loses nothing. */
  lemma SortUnique(s: seq<Cadet>, t: seq<Cadet>)
    requires Sorted(t) && forall k :: WithKey(t, k) == WithKey(s, k)
    ensures t == SortCadets(s)
  {
    SortSorted(s);
    forall k ensures WithKey(t, k) == WithKey(SortCadets(s), k) {
      SortStable(s, k);
    }
    SortedUnique(t, SortCadets(s));
  }

  /** Sorting an already sorted list changes nothing. */
  lemma SortIdempotent(s: seq<Cadet>)
    requires Sorted(s)
    ensures SortCadets(s) == s
  {
    SortUnique(s, s);
  }

  lemma {:induction false} InsertDistinct(x: Cadet, s: seq<Cadet>)
    requires Distinct(s) && x !in s
    ensures Distinct(Insert(x, s))
  {
    if s != [] && !Le(s[|s| - 1], x) {
      var init, last := s[..|s| - 1], s[|s| - 1];
      assert s == init + [last];
      InsertDistinct(x, init);
      var t := Insert(x, init);
      assert last !in multiset(t);
    }
  }

  /** Sorting keeps records distinct, so `indexOf` finds each record at its own place. */
  lemma {:induction false} SortDistinct(s: seq<Cadet>)
    requires Distinct(s)
    ensures Distinct(SortCadets(s))
  {
    if s != [] {
      var init, last := s[..|s| - 1], s[|s| - 1];
      SortDistinct(init);
      assert last !in multiset(SortCadets(init));
      InsertDistinct(last, SortCadets(init));
    }
  }
}
