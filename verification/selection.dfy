/** The per-item flags of the roster page and what they select: the search
    filter, select-all and deselect-all over the visible items, the selected
    count, and the records gathered from the checked boxes in document order. */
module Selection {
  import opened Strings
  import opened Sequences
  import opened Ingest
  import opened Order
  import opened Grouping

  /** The number of set flags: `querySelectorAll('.cadet-item input:checked').length`. */
  function Count(flags: seq<bool>): (n: nat)
    ensures n <= |flags|
  {
    if flags == [] then 0
    else Count(flags[..|flags| - 1]) + (if flags[|flags| - 1] then 1 else 0)
  }

  /** `handleSearch` hides an item when its lower-cased name does not include
      the lower-cased term. */
  predicate Hides(name: string, term: string) {
    !Contains(Lower(name), Lower(term))
  }

  /** The checked flags after `selectAll` (v = true) or `deselectAll` (v = false):
      visible items take v, hidden ones keep their flag. */
  function SetVisible(checked: seq<bool>, hidden: seq<bool>, v: bool): (r: seq<bool>)
    requires |hidden| == |checked|
    ensures |r| == |checked|
    ensures forall p :: 0 <= p < |checked| ==> r[p] == (if hidden[p] then checked[p] else v)
  {
    seq(|checked|, p requires 0 <= p < |checked| => if hidden[p] then checked[p] else v)
  }

  /** The flags of a freshly built list: none set. */
  function Unset(n: nat): (r: seq<bool>)
    ensures |r| == n
  {
    seq(n, _ => false)
  }

  /** Every item's `data-idx` points into the sorted list. */
  predicate InRange(items: seq<int>, n: int) {
    forall p :: 0 <= p < |items| ==> 0 <= items[p] < n
  }

  ghost predicate Increasing(items: seq<int>) {
    forall i, j :: 0 <= i < j < |items| ==> items[i] < items[j]
  }

  /** `displayedCadets[parseInt(cb.dataset.idx)]` for each checked box, in
      document order: the records `generateNominal` exports. */
  function Picked(d: seq<Cadet>, items: seq<int>, checked: seq<bool>): (r: seq<Cadet>)
    requires |checked| == |items| && InRange(items, |d|)
  {
    if items == [] then []
    else
      var n := |items| - 1;
      Picked(d, items[..n], checked[..n]) + (if checked[n] then [d[items[n]]] else [])
  }

  // ---- Counting ----

  lemma {:induction false} CountSnoc(flags: seq<bool>, b: bool)
    ensures Count(flags + [b]) == Count(flags) + (if b then 1 else 0)
  {
    assert (flags + [b])[..|flags|] == flags;
  }

  /** The count shown is the number of records the nominal receives. */
  lemma {:induction false} PickedCount(d: seq<Cadet>, items: seq<int>, checked: seq<bool>)
    requires |checked| == |items| && InRange(items, |d|)
    ensures |Picked(d, items, checked)| == Count(checked)
  {
    if items != [] {
      var n := |items| - 1;
      PickedCount(d, items[..n], checked[..n]);
      assert checked == checked[..n] + [checked[n]];
      CountSnoc(checked[..n], checked[n]);
    }
  }

  /** A record is picked exactly when it is the record of some checked item. */
  lemma {:induction false} PickedMember(d: seq<Cadet>, items: seq<int>, checked: seq<bool>, c: Cadet)
    requires |checked| == |items| && InRange(items, |d|)
    ensures c in Picked(d, items, checked) <==> exists p :: 0 <= p < |items| && checked[p] && d[items[p]] == c
  {
    if items != [] {
      var n := |items| - 1;
      PickedMember(d, items[..n], checked[..n], c);
      if exists p :: 0 <= p < |items| && checked[p] && d[items[p]] == c {
        var p :| 0 <= p < |items| && checked[p] && d[items[p]] == c;
        if p < n {
          assert checked[..n][p] && d[items[..n][p]] == c;
        }
      }
      if exists p :: 0 <= p < n && checked[..n][p] && d[items[..n][p]] == c {
        var p :| 0 <= p < n && checked[..n][p] && d[items[..n][p]] == c;
        assert checked[p] && d[items[p]] == c;
      }
    }
  }

  /** Every picked record is a record of the list. */
  lemma PickedIn(d: seq<Cadet>, items: seq<int>, checked: seq<bool>)
    requires |checked| == |items| && InRange(items, |d|)
    ensures forall c :: c in Picked(d, items, checked) ==> c in d
  {
    forall c | c in Picked(d, items, checked) ensures c in d {
      PickedMember(d, items, checked, c);
    }
  }

  lemma {:induction false} RankItemsWithin(rs: seq<RankGroup>, n: int)
    requires forall rg, p :: rg in rs && p in rg.items ==> 0 <= p < n
    ensures forall p :: p in RankItems(rs) ==> 0 <= p < n
  {
    if rs != [] {
      assert forall rg :: rg in rs[1..] ==> rg in rs;
      RankItemsWithin(rs[1..], n);
      assert rs[0] in rs;
    }
  }

  lemma {:induction false} ItemsWithin(gs: seq<BatchGroup>, n: int)
    requires forall g, rg, p :: g in gs && rg in g.ranks && p in rg.items ==> 0 <= p < n
    ensures forall p :: p in Items(gs) ==> 0 <= p < n
  {
    if gs != [] {
      assert forall g :: g in gs[1..] ==> g in gs;
      ItemsWithin(gs[1..], n);
      assert gs[0] in gs;
      RankItemsWithin(gs[0].ranks, n);
    }
  }

  /** Every item's `data-idx` is a position in the list the page was built
      from: it is the `indexOf` of a record of that list. */
  lemma GroupInRange(d: seq<Cadet>)
    ensures InRange(Items(Group(d)), |d|)
  {
    forall g, rg, p | g in Group(d) && rg in g.ranks && p in rg.items ensures 0 <= p < |d| {
      GroupRanks(d, g, rg);
    }
    ItemsWithin(Group(d), |d|);
    forall i | 0 <= i < |Items(Group(d))| ensures 0 <= Items(Group(d))[i] < |d| {
      assert Items(Group(d))[i] in Items(Group(d));
    }
  }

  /** Checked boxes visited in document order, when the items point into the
      sorted list in increasing order, give records in roster order. */
  lemma {:induction false} PickedSorted(d: seq<Cadet>, items: seq<int>, checked: seq<bool>)
    requires |checked| == |items| && InRange(items, |d|)
    requires Sorted(d) && Increasing(items)
    ensures Sorted(Picked(d, items, checked))
  {
    if items != [] {
      var n := |items| - 1;
      var prev := Picked(d, items[..n], checked[..n]);
      PickedSorted(d, items[..n], checked[..n]);
      if checked[n] {
        var x := d[items[n]];
        forall i | 0 <= i < |prev| ensures Le(prev[i], x) {
          PickedMember(d, items[..n], checked[..n], prev[i]);
          var p :| 0 <= p < n && checked[..n][p] && d[items[..n][p]] == prev[i];
          assert items[p] < items[n];
        }
        SortedSnoc(prev, x);
      }
    }
  }

  lemma SortedSnoc(s: seq<Cadet>, x: Cadet)
    requires Sorted(s) && forall i :: 0 <= i < |s| ==> Le(s[i], x)
    ensures Sorted(s + [x])
  {
  }

  // ---- Everything selected ----

  /** The records of `d` whose rank is in RANK_ORDER, in order: the ones the page shows. */
  function Shown(d: seq<Cadet>): seq<Cadet> {
    if d == [] then []
    else Shown(d[..|d| - 1]) + (if d[|d| - 1].rank in RankOrder then [d[|d| - 1]] else [])
  }

  /** The positions below n of records the page shows, in increasing order. */
  function ShownPositions(d: seq<Cadet>, n: nat): seq<int>
    requires n <= |d|
  {
    if n == 0 then []
    else ShownPositions(d, n - 1) + (if d[n - 1].rank in RankOrder then [n - 1] else [])
  }

  lemma {:induction false} ShownPositionsSpec(d: seq<Cadet>, n: nat)
    requires n <= |d|
    ensures forall p :: p in ShownPositions(d, n) <==> 0 <= p < n && d[p].rank in RankOrder
    ensures Increasing(ShownPositions(d, n))
  {
    if n > 0 {
      var ps := ShownPositions(d, n - 1);
      ShownPositionsSpec(d, n - 1);
      forall i | 0 <= i < |ps| ensures ps[i] < n - 1 {
        assert ps[i] in ps;
      }
    }
  }

  /** Two increasing sequences with the same members are equal. */
  lemma {:induction false} IncreasingUnique(a: seq<int>, b: seq<int>)
    requires Increasing(a) && Increasing(b)
    requires forall x :: x in a <==> x in b
    ensures a == b
    decreases |a|
  {
    if a != [] {
      assert a[0] in a;
      assert a[0] in b;
    }
    if b != [] {
      assert b[0] in b;
      assert b[0] in a;
    }
    if a != [] && b != [] {
      var x, y := a[|a| - 1], b[|b| - 1];
      assert x in b;
      assert y in a;
      assert x == y;
      var a', b' := a[..|a| - 1], b[..|b| - 1];
      forall z ensures z in a' <==> z in b' {
        if z in a' {
          assert z in a && z < x;
        }
        if z in b' {
          assert z in b && z < y;
        }
      }
      IncreasingUnique(a', b');
      assert a == a' + [x] && b == b' + [y];
    }
  }

  lemma PickedSnoc(d: seq<Cadet>, items: seq<int>, checked: seq<bool>, x: int, b: bool)
    requires |checked| == |items| && InRange(items, |d|) && 0 <= x < |d|
    ensures InRange(items + [x], |d|)
    ensures Picked(d, items + [x], checked + [b]) == Picked(d, items, checked) + (if b then [d[x]] else [])
  {
    assert (items + [x])[..|items|] == items;
    assert (checked + [b])[..|checked|] == checked;
  }

  lemma {:induction false} PickedShownPositions(d: seq<Cadet>, n: nat)
    requires n <= |d|
    ensures InRange(ShownPositions(d, n), |d|)
    ensures Picked(d, ShownPositions(d, n), seq(|ShownPositions(d, n)|, _ => true)) == Shown(d[..n])
  {
    ShownPositionsSpec(d, n);
    if n > 0 {
      PickedShownPositions(d, n - 1);
      ShownStep(d, n);
    }
  }

  lemma ShownStep(d: seq<Cadet>, n: nat)
    requires 0 < n <= |d|
    requires InRange(ShownPositions(d, n - 1), |d|)
    requires Picked(d, ShownPositions(d, n - 1), seq(|ShownPositions(d, n - 1)|, _ => true)) == Shown(d[..n - 1])
    ensures InRange(ShownPositions(d, n), |d|)
    ensures Picked(d, ShownPositions(d, n), seq(|ShownPositions(d, n)|, _ => true)) == Shown(d[..n])
  {
    var ps := ShownPositions(d, n - 1);
    var ts := seq(|ps|, _ => true);
    assert d[..n][..n - 1] == d[..n - 1];
    assert Shown(d[..n]) == Shown(d[..n - 1]) + (if d[n - 1].rank in RankOrder then [d[n - 1]] else []);
    if d[n - 1].rank in RankOrder {
      assert ShownPositions(d, n) == ps + [n - 1];
      PickedSnoc(d, ps, ts, n - 1, true);
      assert ts + [true] == seq(|ps| + 1, _ => true);
    } else {
      assert ShownPositions(d, n) == ps;
    }
  }

  /** With every item checked, the records picked are exactly the records the
      page shows, in roster order; records of ranks outside RANK_ORDER are
      never picked. */
  lemma PickEverything(d: seq<Cadet>)
    requires Sorted(d) && Distinct(d)
    ensures InRange(Items(Group(d)), |d|)
    ensures Picked(d, Items(Group(d)), seq(|Items(Group(d))|, _ => true)) == Shown(d)
  {
    GroupItems(d);
    ShownPositionsSpec(d, |d|);
    IncreasingUnique(Items(Group(d)), ShownPositions(d, |d|));
    PickedShownPositions(d, |d|);
    assert d[..|d|] == d;
  }

  // ---- Search ----

  lemma LowerContains(s: string, t: string)
    requires Contains(s, t)
    ensures Contains(Lower(s), Lower(t))
  {
    var i :| 0 <= i <= |s| - |t| && OccursAt(s, t, i);
    assert Lower(s)[i..i + |t|] == Lower(t) by {
      forall k | 0 <= k < |t| ensures Lower(s)[i + k] == Lower(t)[k] {
        assert s[i + k] == t[k];
      }
    }
    assert OccursAt(Lower(s), Lower(t), i);
  }

  /** The empty term hides nothing, and a name that includes the term as
      typed is never hidden. */
  lemma SearchShows(name: string, term: string)
    ensures !Hides(name, "")
    ensures Contains(name, term) ==> !Hides(name, term)
  {
    assert OccursAt(Lower(name), Lower(""), 0);
    if Contains(name, term) {
      LowerContains(name, term);
    }
  }

  lemma LowerUpper(s: string)
    ensures Lower(Upper(s)) == Lower(s)
  {
  }

  /** The search ignores case, in the name and in the term. */
  lemma SearchIgnoresCase(name: string, term: string)
    ensures Hides(name, Upper(term)) == Hides(name, term)
    ensures Hides(Upper(name), term) == Hides(name, term)
  {
    LowerUpper(term);
    LowerUpper(name);
  }

  // ---- Select all / deselect all ----

  lemma {:induction false} CountAllTrue(n: nat)
    ensures Count(seq(n, _ => true)) == n
  {
    if n > 0 {
      CountAllTrue(n - 1);
      assert seq(n, _ => true)[..n - 1] == seq(n - 1, _ => true);
    }
  }

  /** With nothing hidden, select-all checks every item. */
  lemma SelectAllVisible(checked: seq<bool>, hidden: seq<bool>)
    requires |hidden| == |checked| && forall p :: 0 <= p < |hidden| ==> !hidden[p]
    ensures SetVisible(checked, hidden, true) == seq(|checked|, _ => true)
    ensures Count(SetVisible(checked, hidden, true)) == |checked|
  {
    CountAllTrue(|checked|);
  }

  /** Select-all never lowers the count and deselect-all never raises it. */
  lemma {:induction false} CountSetVisible(checked: seq<bool>, hidden: seq<bool>)
    requires |hidden| == |checked|
    ensures Count(SetVisible(checked, hidden, false)) <= Count(checked) <= Count(SetVisible(checked, hidden, true))
  {
    if checked != [] {
      var n := |checked| - 1;
      CountSetVisible(checked[..n], hidden[..n]);
      assert SetVisible(checked, hidden, true) == SetVisible(checked[..n], hidden[..n], true) + [SetVisible(checked, hidden, true)[n]];
      assert SetVisible(checked, hidden, false) == SetVisible(checked[..n], hidden[..n], false) + [SetVisible(checked, hidden, false)[n]];
      assert checked == checked[..n] + [checked[n]];
      CountSnoc(checked[..n], checked[n]);
      CountSnoc(SetVisible(checked[..n], hidden[..n], true), SetVisible(checked, hidden, true)[n]);
      CountSnoc(SetVisible(checked[..n], hidden[..n], false), SetVisible(checked, hidden, false)[n]);
    }
  }

  /** The last of select-all and deselect-all wins on the visible items. */
  lemma SelectThenDeselect(checked: seq<bool>, hidden: seq<bool>, v: bool, w: bool)
    requires |hidden| == |checked|
    ensures SetVisible(SetVisible(checked, hidden, v), hidden, w) == SetVisible(checked, hidden, w)
  {
  }
}
