/** The list the roster page shows: one group per batch (C, B2, B1) that has
    records, inside it one group per RANK_ORDER rank that has records, inside
    that the records' positions in the sorted list (`displayedCadets.indexOf`),
    which become the checkboxes' `data-idx`. */
module Grouping {
  import opened Sequences
  import opened Batches
  import opened Ingest
  import opened Order

  datatype RankGroup = RankGroup(rank: string, items: seq<int>)

  datatype BatchGroup = BatchGroup(batch: Batch, ranks: seq<RankGroup>)

  /** `filter(c => c.batch === batch)`. */
  function OfBatch(s: seq<Cadet>, b: Batch): seq<Cadet> {
    if s == [] then []
    else OfBatch(s[..|s| - 1], b) + (if s[|s| - 1].batch == b then [s[|s| - 1]] else [])
  }

  /** `filter(c => c.rank === rank)`. */
  function OfRank(s: seq<Cadet>, rank: string): seq<Cadet> {
    if s == [] then []
    else OfRank(s[..|s| - 1], rank) + (if s[|s| - 1].rank == rank then [s[|s| - 1]] else [])
  }

  /** `displayedCadets.indexOf(cadet)` for each record of `s`, in order. */
  function IndicesIn(d: seq<Cadet>, s: seq<Cadet>): (r: seq<int>)
    ensures |r| == |s|
  {
    if s == [] then []
    else IndicesIn(d, s[..|s| - 1]) + [IndexOf(d, s[|s| - 1])]
  }

  /** The rank groups of one batch, for the ranks RankOrder[k..]; a rank
      without records gets no group. */
  function RankGroups(d: seq<Cadet>, batchCadets: seq<Cadet>, k: nat): seq<RankGroup>
    decreases |RankOrder| - k
  {
    if k >= |RankOrder| then []
    else
      var rankCadets := OfRank(batchCadets, RankOrder[k]);
      (if rankCadets == [] then [] else [RankGroup(RankOrder[k], IndicesIn(d, rankCadets))])
      + RankGroups(d, batchCadets, k + 1)
  }

  /** The batch groups for the batches `bs`, in order; a batch without
      records gets no group. */
  function BatchGroups(d: seq<Cadet>, bs: seq<Batch>): seq<BatchGroup> {
    if bs == [] then []
    else
      var batchCadets := OfBatch(d, bs[0]);
      (if batchCadets == [] then [] else [BatchGroup(bs[0], RankGroups(d, batchCadets, 0))])
      + BatchGroups(d, bs[1..])
  }

  /** The grouped page built by `displayCadets` from the sorted list `d`. */
  function Group(d: seq<Cadet>): seq<BatchGroup> {
    BatchGroups(d, BatchOrder)
  }

  function RankItems(rs: seq<RankGroup>): seq<int> {
    if rs == [] then [] else rs[0].items + RankItems(rs[1..])
  }

  /** The `data-idx` of every `.cadet-item` on the page, in document order. */
  function Items(gs: seq<BatchGroup>): seq<int> {
    if gs == [] then [] else RankItems(gs[0].ranks) + Items(gs[1..])
  }

  // ---- Cells: where a record falls in the nested traversal ----

  /** 8 * batch index + rank index + 1: 0, 8 or 16 for a rank outside
      RANK_ORDER, otherwise the rank group's slot within its batch. */
  function Cell(c: Cadet): int {
    8 * BatchIndex(c.batch) + RankIndex(c.rank) + 1
  }

  /** The cell of rank RankOrder[k] in batch b; Slot(b, |RankOrder|) is where
      the next batch begins. */
  function Slot(b: Batch, k: int): int {
    8 * BatchIndex(b) + k + 1
  }

  /** The cells of the records of `d`, position by position. */
  function Cells(d: seq<Cadet>): (cs: seq<int>)
    ensures |cs| == |d|
  {
    if d == [] then [] else Cells(d[..|d| - 1]) + [Cell(d[|d| - 1])]
  }

  lemma {:induction false} CellsAt(d: seq<Cadet>, p: int)
    requires 0 <= p < |d|
    ensures Cells(d)[p] == Cell(d[p])
  {
    if p < |d| - 1 {
      CellsAt(d[..|d| - 1], p);
    }
  }

  ghost predicate NonDecreasing(cs: seq<int>) {
    forall i, j :: 0 <= i < j < |cs| ==> cs[i] <= cs[j]
  }

  /** Along a sorted list the cells never decrease. */
  lemma SortedCells(d: seq<Cadet>)
    requires Sorted(d)
    ensures NonDecreasing(Cells(d))
  {
    forall i, j | 0 <= i < j < |d| ensures Cells(d)[i] <= Cells(d)[j] {
      assert Le(d[i], d[j]);
      CellsAt(d, i);
      CellsAt(d, j);
    }
  }

  /** The positions below `n` whose cell lies in [lo, hi), in increasing order. */
  function PosIn(cs: seq<int>, lo: int, hi: int, n: nat): seq<int>
    requires n <= |cs|
  {
    if n == 0 then []
    else PosIn(cs, lo, hi, n - 1) + (if lo <= cs[n - 1] < hi then [n - 1] else [])
  }

  /** PosIn lists, in strictly increasing order, exactly the positions it promises. */
  lemma PosInSpec(cs: seq<int>, lo: int, hi: int, n: nat)
    requires n <= |cs|
    ensures forall p :: p in PosIn(cs, lo, hi, n) <==> 0 <= p < n && lo <= cs[p] < hi
    ensures forall i, j :: 0 <= i < j < |PosIn(cs, lo, hi, n)| ==> PosIn(cs, lo, hi, n)[i] < PosIn(cs, lo, hi, n)[j]
  {
    PosInMembers(cs, lo, hi, n);
    PosInIncreasing(cs, lo, hi, n);
  }

  lemma {:induction false} PosInMembers(cs: seq<int>, lo: int, hi: int, n: nat)
    requires n <= |cs|
    ensures forall p :: p in PosIn(cs, lo, hi, n) <==> 0 <= p < n && lo <= cs[p] < hi
  {
    if n > 0 {
      PosInMembers(cs, lo, hi, n - 1);
    }
  }

  lemma {:induction false} PosInIncreasing(cs: seq<int>, lo: int, hi: int, n: nat)
    requires n <= |cs|
    ensures forall p :: p in PosIn(cs, lo, hi, n) ==> p < n
    ensures forall i, j :: 0 <= i < j < |PosIn(cs, lo, hi, n)| ==> PosIn(cs, lo, hi, n)[i] < PosIn(cs, lo, hi, n)[j]
  {
    if n > 0 {
      PosInIncreasing(cs, lo, hi, n - 1);
      var prev := PosIn(cs, lo, hi, n - 1);
      if lo <= cs[n - 1] < hi {
        var r := prev + [n - 1];
        assert PosIn(cs, lo, hi, n) == r;
        forall i, j | 0 <= i < j < |r| ensures r[i] < r[j] {
          if j == |prev| {
            assert prev[i] in prev;
          }
        }
      } else {
        assert PosIn(cs, lo, hi, n) == prev + [];
        assert prev + [] == prev;
      }
    }
  }

  lemma {:induction false} PosEmpty(cs: seq<int>, lo: int, hi: int, n: nat)
    requires n <= |cs|
    requires forall p :: 0 <= p < n ==> !(lo <= cs[p] < hi)
    ensures PosIn(cs, lo, hi, n) == []
  {
    if n > 0 {
      PosEmpty(cs, lo, hi, n - 1);
    }
  }

  /** With non-decreasing cells, the positions of adjacent cell ranges follow one another. */
  lemma {:induction false} PosSplit(cs: seq<int>, lo: int, mid: int, hi: int, n: nat)
    requires NonDecreasing(cs) && lo <= mid <= hi && n <= |cs|
    ensures PosIn(cs, lo, hi, n) == PosIn(cs, lo, mid, n) + PosIn(cs, mid, hi, n)
  {
    if n > 0 {
      var m := n - 1;
      PosSplit(cs, lo, mid, hi, m);
      if lo <= cs[m] < mid {
        assert forall p :: 0 <= p < m ==> cs[p] <= cs[m];
        PosEmpty(cs, mid, hi, m);
      }
    }
  }

  /** A record has cell 8 * i + k + 1 exactly when it is of batch
      BatchOrder[i] and rank RankOrder[k]. */
  lemma CellExact(c: Cadet, b: Batch, k: int)
    requires 0 <= k < |RankOrder|
    ensures Cell(c) == 8 * BatchIndex(b) + k + 1 <==> c.batch == b && c.rank == RankOrder[k]
  {
    RankIndexExact(c.rank, k);
  }

  /** The cell x is one of batch b's rank-group slots. */
  predicate InSlots(x: int, b: Batch) {
    Slot(b, 0) <= x < Slot(b, |RankOrder|)
  }

  /** The cell x is a rank-group slot of some batch. */
  predicate ShownCell(x: int) {
    InSlots(x, C) || InSlots(x, B2) || InSlots(x, B1)
  }

  /** A record's cell belongs to some rank group exactly when its rank is in RANK_ORDER. */
  lemma CellShown(c: Cadet)
    ensures c.rank in RankOrder <==> ShownCell(Cell(c))
  {
  }

  lemma OfBatchSnoc(s: seq<Cadet>, x: Cadet, b: Batch)
    ensures OfBatch(s + [x], b) == OfBatch(s, b) + (if x.batch == b then [x] else [])
  {
    assert (s + [x])[..|s|] == s;
  }

  lemma OfRankSnoc(s: seq<Cadet>, x: Cadet, rank: string)
    ensures OfRank(s + [x], rank) == OfRank(s, rank) + (if x.rank == rank then [x] else [])
  {
    assert (s + [x])[..|s|] == s;
  }

  lemma IndicesSnoc(d: seq<Cadet>, s: seq<Cadet>, x: Cadet)
    ensures IndicesIn(d, s + [x]) == IndicesIn(d, s) + [IndexOf(d, x)]
  {
    assert (s + [x])[..|s|] == s;
  }

  /** The records of batch `b` and rank `rank`. */
  function OfCell(s: seq<Cadet>, b: Batch, rank: string): seq<Cadet> {
    if s == [] then []
    else OfCell(s[..|s| - 1], b, rank) + (if s[|s| - 1].batch == b && s[|s| - 1].rank == rank then [s[|s| - 1]] else [])
  }

  /** Filtering by batch and then by rank is filtering by both. */
  lemma {:induction false} OfRankOfBatch(s: seq<Cadet>, b: Batch, rank: string)
    ensures OfRank(OfBatch(s, b), rank) == OfCell(s, b, rank)
  {
    if s != [] {
      var init, x := s[..|s| - 1], s[|s| - 1];
      OfRankOfBatch(init, b, rank);
      assert s == init + [x];
      if x.batch == b {
        assert OfBatch(s, b) == OfBatch(init, b) + [x];
        OfRankSnoc(OfBatch(init, b), x, rank);
      } else {
        assert OfBatch(s, b) == OfBatch(init, b) + [];
        assert OfBatch(init, b) + [] == OfBatch(init, b);
        assert OfCell(s, b, rank) == OfCell(init, b, rank) + [];
      }
    }
  }

  /** The positions below `n` of the records of batch `b` and rank `rank`. */
  function PosWhere(d: seq<Cadet>, b: Batch, rank: string, n: nat): seq<int>
    requires n <= |d|
  {
    if n == 0 then []
    else PosWhere(d, b, rank, n - 1) + (if d[n - 1].batch == b && d[n - 1].rank == rank then [n - 1] else [])
  }

  /** On a list without repeats, `indexOf` of the filtered records gives their positions. */
  lemma {:induction false} IndicesOfCell(d: seq<Cadet>, b: Batch, rank: string, n: nat)
    requires Distinct(d) && n <= |d|
    ensures IndicesIn(d, OfCell(d[..n], b, rank)) == PosWhere(d, b, rank, n)
  {
    if n == 0 {
      assert d[..0] == [];
    } else {
      var m := n - 1;
      IndicesOfCell(d, b, rank, m);
      assert d[..n][..m] == d[..m];
      var prev := OfCell(d[..m], b, rank);
      if d[m].batch == b && d[m].rank == rank {
        assert OfCell(d[..n], b, rank) == prev + [d[m]];
        IndicesSnoc(d, prev, d[m]);
        IndexOfDistinct(d, m);
      } else {
        assert OfCell(d[..n], b, rank) == prev + [];
        assert prev + [] == prev;
        assert PosWhere(d, b, rank, n) == PosWhere(d, b, rank, m) + [];
      }
    }
  }

  lemma {:induction false} PosWhereCell(d: seq<Cadet>, b: Batch, k: int, n: nat)
    requires 0 <= k < |RankOrder| && n <= |d|
    ensures PosWhere(d, b, RankOrder[k], n) == PosIn(Cells(d), Slot(b, k), Slot(b, k + 1), n)
  {
    if n > 0 {
      var m := n - 1;
      PosWhereCell(d, b, k, m);
      CellExact(d[m], b, k);
      CellsAt(d, m);
      var last := if Slot(b, k) <= Cells(d)[m] < Slot(b, k + 1) then [m] else [];
      assert PosWhere(d, b, RankOrder[k], n) == PosWhere(d, b, RankOrder[k], m) + last;
      ConcatEqual(PosWhere(d, b, RankOrder[k], n), PosWhere(d, b, RankOrder[k], m), last,
                  PosIn(Cells(d), Slot(b, k), Slot(b, k + 1), m), last, PosIn(Cells(d), Slot(b, k), Slot(b, k + 1), n));
    }
  }

  /** The items of the rank group (b, RankOrder[k]) are the positions of the
      records of that batch and rank. */
  lemma RankGroupPositions(d: seq<Cadet>, b: Batch, k: int)
    requires Distinct(d) && 0 <= k < |RankOrder|
    ensures IndicesIn(d, OfRank(OfBatch(d, b), RankOrder[k])) == PosIn(Cells(d), Slot(b, k), Slot(b, k + 1), |d|)
  {
    OfRankOfBatch(d, b, RankOrder[k]);
    assert d[..|d|] == d;
    IndicesOfCell(d, b, RankOrder[k], |d|);
    PosWhereCell(d, b, k, |d|);
  }

  /** The items of the rank groups from rank k: those of rank k (none when
      the group is skipped), then those of the later ranks. */
  lemma RankGroupsUnfold(d: seq<Cadet>, batchCadets: seq<Cadet>, k: nat)
    requires k < |RankOrder|
    ensures RankItems(RankGroups(d, batchCadets, k))
         == IndicesIn(d, OfRank(batchCadets, RankOrder[k])) + RankItems(RankGroups(d, batchCadets, k + 1))
  {
    var rankCadets := OfRank(batchCadets, RankOrder[k]);
    var rest := RankGroups(d, batchCadets, k + 1);
    if rankCadets != [] {
      var g := RankGroup(RankOrder[k], IndicesIn(d, rankCadets));
      assert RankGroups(d, batchCadets, k) == [g] + rest;
      assert ([g] + rest)[1..] == rest;
    } else {
      assert RankGroups(d, batchCadets, k) == [] + rest;
      assert [] + rest == rest;
    }
  }

  /** Past the last rank there are no rank groups, and no cells of the batch
      are left either. */
  lemma RankGroupsEnd(d: seq<Cadet>, b: Batch)
    ensures RankItems(RankGroups(d, OfBatch(d, b), |RankOrder|))
         == PosIn(Cells(d), Slot(b, |RankOrder|), Slot(b, |RankOrder|), |d|)
  {
    assert RankGroups(d, OfBatch(d, b), |RankOrder|) == [];
    PosEmpty(Cells(d), Slot(b, |RankOrder|), Slot(b, |RankOrder|), |d|);
  }

  /** The items of batch b's rank groups from rank k: the positions of the
      cell of rank k, then the items of the later rank groups. */
  lemma RankGroupsHead(d: seq<Cadet>, b: Batch, k: nat)
    requires Distinct(d) && k < |RankOrder|
    ensures RankItems(RankGroups(d, OfBatch(d, b), k))
         == PosIn(Cells(d), Slot(b, k), Slot(b, k + 1), |d|) + RankItems(RankGroups(d, OfBatch(d, b), k + 1))
  {
    var later := RankItems(RankGroups(d, OfBatch(d, b), k + 1));
    var here := PosIn(Cells(d), Slot(b, k), Slot(b, k + 1), |d|);
    RankGroupsUnfold(d, OfBatch(d, b), k);
    RankGroupPositions(d, b, k);
    ConcatEqual(RankItems(RankGroups(d, OfBatch(d, b), k)), IndicesIn(d, OfRank(OfBatch(d, b), RankOrder[k])), later,
                here, later, here + later);
  }

  /** One rank further: the group of rank k, then the groups after it. */
  lemma RankGroupsStep(d: seq<Cadet>, b: Batch, k: nat)
    requires NonDecreasing(Cells(d)) && Distinct(d) && k < |RankOrder|
    requires RankItems(RankGroups(d, OfBatch(d, b), k + 1)) == PosIn(Cells(d), Slot(b, k + 1), Slot(b, |RankOrder|), |d|)
    ensures RankItems(RankGroups(d, OfBatch(d, b), k)) == PosIn(Cells(d), Slot(b, k), Slot(b, |RankOrder|), |d|)
  {
    RankGroupsHead(d, b, k);
    PosSplit(Cells(d), Slot(b, k), Slot(b, k + 1), Slot(b, |RankOrder|), |d|);
    var here := PosIn(Cells(d), Slot(b, k), Slot(b, k + 1), |d|);
    ConcatEqual(RankItems(RankGroups(d, OfBatch(d, b), k)), here, RankItems(RankGroups(d, OfBatch(d, b), k + 1)),
                here, PosIn(Cells(d), Slot(b, k + 1), Slot(b, |RankOrder|), |d|),
                PosIn(Cells(d), Slot(b, k), Slot(b, |RankOrder|), |d|));
  }

  /** The rank groups of batch b, from rank k on, hold the positions of the
      cells of that batch from slot k on. */
  lemma {:induction false} RankGroupsPositions(d: seq<Cadet>, b: Batch, k: nat)
    requires NonDecreasing(Cells(d)) && Distinct(d) && k <= |RankOrder|
    ensures RankItems(RankGroups(d, OfBatch(d, b), k)) == PosIn(Cells(d), Slot(b, k), Slot(b, |RankOrder|), |d|)
    decreases |RankOrder| - k
  {
    if k == |RankOrder| {
      RankGroupsEnd(d, b);
    } else {
      RankGroupsPositions(d, b, k + 1);
      RankGroupsStep(d, b, k);
    }
  }

  lemma {:induction false} EmptyRankGroups(d: seq<Cadet>, k: nat)
    ensures RankGroups(d, [], k) == []
    decreases |RankOrder| - k
  {
    if k < |RankOrder| {
      EmptyRankGroups(d, k + 1);
    }
  }

  /** The items of the batch groups of `bs`: those of bs[0] (none when the
      group is skipped), then those of the later batches. */
  lemma BatchGroupsUnfold(d: seq<Cadet>, bs: seq<Batch>)
    requires bs != []
    ensures Items(BatchGroups(d, bs)) == RankItems(RankGroups(d, OfBatch(d, bs[0]), 0)) + Items(BatchGroups(d, bs[1..]))
  {
    var bc := OfBatch(d, bs[0]);
    var rest := BatchGroups(d, bs[1..]);
    if bc != [] {
      var g := BatchGroup(bs[0], RankGroups(d, bc, 0));
      assert BatchGroups(d, bs) == [g] + rest;
      assert ([g] + rest)[1..] == rest;
    } else {
      EmptyRankGroups(d, 0);
      assert BatchGroups(d, bs) == [] + rest;
      assert [] + rest == rest;
    }
  }

  /** The positions of the shown cells of the batches `bs`, batch by batch. */
  function ShownOf(cs: seq<int>, bs: seq<Batch>): seq<int> {
    if bs == [] then []
    else PosIn(cs, Slot(bs[0], 0), Slot(bs[0], |RankOrder|), |cs|) + ShownOf(cs, bs[1..])
  }

  lemma {:induction false} BatchGroupsPositions(d: seq<Cadet>, bs: seq<Batch>)
    requires NonDecreasing(Cells(d)) && Distinct(d)
    ensures Items(BatchGroups(d, bs)) == ShownOf(Cells(d), bs)
  {
    if bs != [] {
      BatchGroupsUnfold(d, bs);
      RankGroupsPositions(d, bs[0], 0);
      BatchGroupsPositions(d, bs[1..]);
    }
  }

  /** Two increasing sequences, every element of the first below every element
      of the second, concatenate to an increasing one. */
  lemma SortedAppend(a: seq<int>, b: seq<int>)
    requires forall i, i' :: 0 <= i < i' < |a| ==> a[i] < a[i']
    requires forall i, i' :: 0 <= i < i' < |b| ==> b[i] < b[i']
    requires forall p, q :: p in a && q in b ==> p < q
    ensures forall i, i' :: 0 <= i < i' < |a + b| ==> (a + b)[i] < (a + b)[i']
  {
    forall i, i' | 0 <= i < i' < |a + b| ensures (a + b)[i] < (a + b)[i'] {
      if i < |a| && i' >= |a| {
        assert a[i] in a && b[i' - |a|] in b;
      }
    }
  }

  /** With non-decreasing cells, the positions of a lower cell range all come
      before those of a higher one. */
  lemma PosBefore(cs: seq<int>, lo: int, mid: int, hi: int)
    requires NonDecreasing(cs) && lo <= mid <= hi
    ensures forall p, q :: p in PosIn(cs, lo, mid, |cs|) && q in PosIn(cs, mid, hi, |cs|) ==> p < q
  {
    PosInSpec(cs, lo, mid, |cs|);
    PosInSpec(cs, mid, hi, |cs|);
  }

  /** The shown positions of C, B2 and B1, one batch after the other. */
  lemma ShownUnfold(cs: seq<int>)
    ensures ShownOf(cs, BatchOrder)
         == PosIn(cs, Slot(C, 0), Slot(C, |RankOrder|), |cs|)
          + (PosIn(cs, Slot(B2, 0), Slot(B2, |RankOrder|), |cs|)
          + PosIn(cs, Slot(B1, 0), Slot(B1, |RankOrder|), |cs|))
  {
    var s3 := PosIn(cs, Slot(B1, 0), Slot(B1, |RankOrder|), |cs|);
    assert ShownOf(cs, [B1]) == s3 by {
      assert [B1][1..] == [];
      assert s3 + [] == s3;
    }
    assert [B2, B1][1..] == [B1];
    assert BatchOrder[1..] == [B2, B1];
  }

  /** A position is shown exactly when its cell is a rank-group slot. */
  lemma ShownMembers(cs: seq<int>)
    ensures forall p :: p in ShownOf(cs, BatchOrder) <==> 0 <= p < |cs| && ShownCell(cs[p])
  {
    ShownUnfold(cs);
    PosInSpec(cs, Slot(C, 0), Slot(C, |RankOrder|), |cs|);
    PosInSpec(cs, Slot(B2, 0), Slot(B2, |RankOrder|), |cs|);
    PosInSpec(cs, Slot(B1, 0), Slot(B1, |RankOrder|), |cs|);
  }

  /** With non-decreasing cells, the shown positions increase. */
  lemma ShownIncreasing(cs: seq<int>)
    requires NonDecreasing(cs)
    ensures forall i, i' :: 0 <= i < i' < |ShownOf(cs, BatchOrder)| ==> ShownOf(cs, BatchOrder)[i] < ShownOf(cs, BatchOrder)[i']
  {
    var n := |cs|;
    var a0, a1 := Slot(C, 0), Slot(C, |RankOrder|);
    var b0, b1 := Slot(B2, 0), Slot(B2, |RankOrder|);
    var c0, c1 := Slot(B1, 0), Slot(B1, |RankOrder|);
    var s1, s2, s3 := PosIn(cs, a0, a1, n), PosIn(cs, b0, b1, n), PosIn(cs, c0, c1, n);
    ShownUnfold(cs);
    PosInIncreasing(cs, a0, a1, n);
    PosInIncreasing(cs, b0, b1, n);
    PosInIncreasing(cs, c0, c1, n);
    PosSplit(cs, b1, c0, c1, n);
    PosSplit(cs, b0, b1, c1, n);
    PosSplit(cs, a1, b0, c1, n);
    PosBefore(cs, b0, b1, c1);
    forall p, q | p in s2 && q in s3 ensures p < q {
      assert q in PosIn(cs, b1, c1, n);
    }
    SortedAppend(s2, s3);
    PosBefore(cs, a0, a1, c1);
    forall p, q | p in s1 && q in s2 + s3 ensures p < q {
      assert q in PosIn(cs, b0, c1, n);
      assert q in PosIn(cs, a1, c1, n);
    }
    SortedAppend(s1, s2 + s3);
  }

  /** The three batches' shown positions, in the order C, B2, B1, list every
      position of a shown cell once and in increasing order. */
  lemma ShownSpec(cs: seq<int>)
    requires NonDecreasing(cs)
    ensures forall p :: p in ShownOf(cs, BatchOrder) <==> 0 <= p < |cs| && ShownCell(cs[p])
    ensures forall i, i' :: 0 <= i < i' < |ShownOf(cs, BatchOrder)| ==> ShownOf(cs, BatchOrder)[i] < ShownOf(cs, BatchOrder)[i']
  {
    ShownMembers(cs);
    ShownIncreasing(cs);
  }

  /** On the sorted list, the page shows every record whose rank is in
      RANK_ORDER exactly once and in list order; records of any other rank
      are shown nowhere. */
  lemma GroupItems(d: seq<Cadet>)
    requires Sorted(d) && Distinct(d)
    ensures forall p :: p in Items(Group(d)) <==> 0 <= p < |d| && d[p].rank in RankOrder
    ensures forall i, j :: 0 <= i < j < |Items(Group(d))| ==> Items(Group(d))[i] < Items(Group(d))[j]
  {
    SortedCells(d);
    BatchGroupsPositions(d, BatchOrder);
    ShownSpec(Cells(d));
    forall p | 0 <= p < |d|
      ensures p in Items(Group(d)) <==> d[p].rank in RankOrder
    {
      CellsAt(d, p);
      CellShown(d[p]);
    }
  }

  // ---- The shape of the groups ----

  lemma {:induction false} OfBatchMember(s: seq<Cadet>, b: Batch, x: Cadet)
    ensures x in OfBatch(s, b) <==> x in s && x.batch == b
  {
    if s != [] {
      OfBatchMember(s[..|s| - 1], b, x);
      assert s == s[..|s| - 1] + [s[|s| - 1]];
    }
  }

  lemma {:induction false} OfRankMember(s: seq<Cadet>, rank: string, x: Cadet)
    ensures x in OfRank(s, rank) <==> x in s && x.rank == rank
  {
    if s != [] {
      OfRankMember(s[..|s| - 1], rank, x);
      assert s == s[..|s| - 1] + [s[|s| - 1]];
    }
  }

  /** `indexOf` of records taken from `d` points back at those records. */
  lemma {:induction false} IndicesInSpec(d: seq<Cadet>, s: seq<Cadet>)
    requires forall x :: x in s ==> x in d
    ensures forall p :: p in IndicesIn(d, s) ==> 0 <= p < |d| && d[p] in s
  {
    if s != [] {
      var init := s[..|s| - 1];
      assert forall x :: x in init ==> x in s;
      IndicesInSpec(d, init);
    }
  }

  /** Every rank group holds at least one record, all of them of its batch and rank. */
  lemma RankGroupItems(d: seq<Cadet>, b: Batch, rank: string)
    ensures |IndicesIn(d, OfRank(OfBatch(d, b), rank))| == |OfRank(OfBatch(d, b), rank)|
    ensures forall p :: p in IndicesIn(d, OfRank(OfBatch(d, b), rank)) ==>
      0 <= p < |d| && d[p].batch == b && d[p].rank == rank
  {
    var rc := OfRank(OfBatch(d, b), rank);
    forall x | x in rc ensures x in d && x.batch == b && x.rank == rank {
      OfRankMember(OfBatch(d, b), rank, x);
      OfBatchMember(d, b, x);
    }
    IndicesInSpec(d, rc);
  }

  /** The rank groups of a batch's records from rank k on: one per rank of
      RankOrder[k..] that has records, holding `indexOf` of those records. */
  lemma {:induction false} RankGroupsShape(d: seq<Cadet>, bc: seq<Cadet>, k: nat)
    ensures forall rg :: rg in RankGroups(d, bc, k) ==>
      rg.rank in RankOrder && OfRank(bc, rg.rank) != [] && rg.items == IndicesIn(d, OfRank(bc, rg.rank))
    ensures forall k' :: k <= k' < |RankOrder| && OfRank(bc, RankOrder[k']) != [] ==>
      RankGroup(RankOrder[k'], IndicesIn(d, OfRank(bc, RankOrder[k']))) in RankGroups(d, bc, k)
    decreases |RankOrder| - k
  {
    if k < |RankOrder| {
      RankGroupsShape(d, bc, k + 1);
      RankGroupsMember(d, bc, k);
      var rc := OfRank(bc, RankOrder[k]);
      forall rg | rg in RankGroups(d, bc, k)
        ensures rg.rank in RankOrder && OfRank(bc, rg.rank) != [] && rg.items == IndicesIn(d, OfRank(bc, rg.rank))
      {
        if rg !in RankGroups(d, bc, k + 1) {
          assert rg == RankGroup(RankOrder[k], IndicesIn(d, rc));
        }
      }
      forall k' | k <= k' < |RankOrder| && OfRank(bc, RankOrder[k']) != []
        ensures RankGroup(RankOrder[k'], IndicesIn(d, OfRank(bc, RankOrder[k']))) in RankGroups(d, bc, k)
      {
        var g := RankGroup(RankOrder[k'], IndicesIn(d, OfRank(bc, RankOrder[k'])));
        if k' > k {
          assert g in RankGroups(d, bc, k + 1);
        }
      }
    } else {
      assert RankGroups(d, bc, k) == [];
    }
  }

  /** A rank group from rank k on is the group of rank k, when that rank has
      records, or one of the later groups. */
  lemma RankGroupsMember(d: seq<Cadet>, bc: seq<Cadet>, k: nat)
    requires k < |RankOrder|
    ensures forall rg :: rg in RankGroups(d, bc, k) <==>
      (OfRank(bc, RankOrder[k]) != [] && rg == RankGroup(RankOrder[k], IndicesIn(d, OfRank(bc, RankOrder[k]))))
      || rg in RankGroups(d, bc, k + 1)
  {
  }

  lemma {:induction false} BatchGroupsShape(d: seq<Cadet>, bs: seq<Batch>)
    ensures forall g :: g in BatchGroups(d, bs) ==>
      g.batch in bs && OfBatch(d, g.batch) != [] && g.ranks == RankGroups(d, OfBatch(d, g.batch), 0)
    ensures forall b :: b in bs && OfBatch(d, b) != [] ==>
      BatchGroup(b, RankGroups(d, OfBatch(d, b), 0)) in BatchGroups(d, bs)
  {
    if bs != [] {
      BatchGroupsShape(d, bs[1..]);
      assert bs == [bs[0]] + bs[1..];
    }
  }

  /** `displayCadets` shows a batch group exactly for each batch that has records. */
  lemma GroupBatches(d: seq<Cadet>, b: Batch)
    ensures (exists c :: c in d && c.batch == b) <==> BatchGroup(b, RankGroups(d, OfBatch(d, b), 0)) in Group(d)
  {
    BatchGroupsShape(d, BatchOrder);
    assert b in BatchOrder by {
      match b
      case C => assert BatchOrder[0] == C;
      case B2 => assert BatchOrder[1] == B2;
      case B1 => assert BatchOrder[2] == B1;
    }
    if exists c :: c in d && c.batch == b {
      var c :| c in d && c.batch == b;
      OfBatchMember(d, b, c);
    } else if OfBatch(d, b) != [] {
      OfBatchMember(d, b, OfBatch(d, b)[0]);
    }
  }

  /** Each batch group shown holds the rank groups of its batch's records. */
  lemma GroupBatchForm(d: seq<Cadet>, g: BatchGroup)
    requires g in Group(d)
    ensures g.ranks == RankGroups(d, OfBatch(d, g.batch), 0)
  {
    BatchGroupsShape(d, BatchOrder);
  }

  /** Every rank group shown inside a batch group is of a RANK_ORDER rank,
      holds at least one item, and every item is the position of a record of
      that batch and rank. */
  lemma GroupRanks(d: seq<Cadet>, g: BatchGroup, rg: RankGroup)
    requires g in Group(d) && rg in g.ranks
    ensures rg.rank in RankOrder && rg.items != []
    ensures forall p :: p in rg.items ==> 0 <= p < |d| && d[p].batch == g.batch && d[p].rank == rg.rank
  {
    BatchGroupsShape(d, BatchOrder);
    RankGroupsShape(d, OfBatch(d, g.batch), 0);
    RankGroupItems(d, g.batch, rg.rank);
  }

  /** A RANK_ORDER rank that has records of batch b gets its rank group in b's batch group. */
  lemma GroupRankPresent(d: seq<Cadet>, b: Batch, k: int)
    requires 0 <= k < |RankOrder|
    requires exists c :: c in d && c.batch == b && c.rank == RankOrder[k]
    ensures BatchGroup(b, RankGroups(d, OfBatch(d, b), 0)) in Group(d)
    ensures RankGroup(RankOrder[k], IndicesIn(d, OfRank(OfBatch(d, b), RankOrder[k]))) in RankGroups(d, OfBatch(d, b), 0)
  {
    GroupBatches(d, b);
    var c :| c in d && c.batch == b && c.rank == RankOrder[k];
    OfBatchMember(d, b, c);
    OfRankMember(OfBatch(d, b), RankOrder[k], c);
    RankGroupsShape(d, OfBatch(d, b), 0);
  }

  /** A batch whose records all carry ranks outside RANK_ORDER still gets its
      batch group (its header), with no rank groups inside. */
  lemma UnknownRanksOnly(d: seq<Cadet>, b: Batch)
    requires exists c :: c in d && c.batch == b
    requires forall c :: c in d && c.batch == b ==> c.rank !in RankOrder
    ensures BatchGroup(b, []) in Group(d)
  {
    GroupBatches(d, b);
    forall k | 0 <= k < |RankOrder| ensures OfRank(OfBatch(d, b), RankOrder[k]) == [] {
      if OfRank(OfBatch(d, b), RankOrder[k]) != [] {
        var x := OfRank(OfBatch(d, b), RankOrder[k])[0];
        OfRankMember(OfBatch(d, b), RankOrder[k], x);
        OfBatchMember(d, b, x);
      }
    }
    NoRankGroups(d, OfBatch(d, b), 0);
  }

  lemma {:induction false} NoRankGroups(d: seq<Cadet>, bc: seq<Cadet>, k: nat)
    requires forall k' :: 0 <= k' < |RankOrder| ==> OfRank(bc, RankOrder[k']) == []
    ensures RankGroups(d, bc, k) == []
    decreases |RankOrder| - k
  {
    if k < |RankOrder| {
      NoRankGroups(d, bc, k + 1);
    }
  }

  /** The rank groups of a batch from rank k on follow RANK_ORDER: every
      group's rank sits at index k or later, and later groups have later ranks. */
  lemma {:induction false} RankGroupsOrdered(d: seq<Cadet>, bc: seq<Cadet>, k: nat)
    ensures forall i :: 0 <= i < |RankGroups(d, bc, k)| ==> k <= RankIndex(RankGroups(d, bc, k)[i].rank)
    ensures forall i, j :: 0 <= i < j < |RankGroups(d, bc, k)| ==>
      RankIndex(RankGroups(d, bc, k)[i].rank) < RankIndex(RankGroups(d, bc, k)[j].rank)
    decreases |RankOrder| - k
  {
    if k < |RankOrder| {
      var tail := RankGroups(d, bc, k + 1);
      RankGroupsOrdered(d, bc, k + 1);
      if OfRank(bc, RankOrder[k]) != [] {
        var g := RankGroup(RankOrder[k], IndicesIn(d, OfRank(bc, RankOrder[k])));
        RankIndexExact(RankOrder[k], k);
        RankConsOrdered(RankGroups(d, bc, k), g, tail, k);
      } else {
        assert RankGroups(d, bc, k) == [] + tail;
      }
    }
  }

  /** A group of rank index k in front of groups of later, increasing ranks. */
  lemma RankConsOrdered(rs: seq<RankGroup>, g: RankGroup, tail: seq<RankGroup>, k: int)
    requires rs == [g] + tail && RankIndex(g.rank) == k
    requires forall i :: 0 <= i < |tail| ==> k + 1 <= RankIndex(tail[i].rank)
    requires forall i, j :: 0 <= i < j < |tail| ==> RankIndex(tail[i].rank) < RankIndex(tail[j].rank)
    ensures forall i :: 0 <= i < |rs| ==> k <= RankIndex(rs[i].rank)
    ensures forall i, j :: 0 <= i < j < |rs| ==> RankIndex(rs[i].rank) < RankIndex(rs[j].rank)
  {
    forall i | 0 < i < |rs| ensures rs[i] == tail[i - 1] { }
  }

  /** Over batches listed in BATCH_ORDER order, the batch groups come in that
      order too, each at or after the first batch listed. */
  lemma {:induction false} BatchGroupsOrdered(d: seq<Cadet>, bs: seq<Batch>)
    requires forall i, j :: 0 <= i < j < |bs| ==> BatchIndex(bs[i]) < BatchIndex(bs[j])
    ensures forall i :: 0 <= i < |BatchGroups(d, bs)| ==> BatchIndex(bs[0]) <= BatchIndex(BatchGroups(d, bs)[i].batch)
    ensures forall i, j :: 0 <= i < j < |BatchGroups(d, bs)| ==>
      BatchIndex(BatchGroups(d, bs)[i].batch) < BatchIndex(BatchGroups(d, bs)[j].batch)
  {
    if |bs| == 1 {
      assert BatchGroups(d, bs[1..]) == [];
    } else if |bs| > 1 {
      var rest := bs[1..];
      forall i, j | 0 <= i < j < |rest| ensures BatchIndex(rest[i]) < BatchIndex(rest[j]) {
        assert rest[i] == bs[i + 1] && rest[j] == bs[j + 1];
      }
      assert BatchIndex(bs[0]) < BatchIndex(rest[0]) by {
        assert rest[0] == bs[1];
      }
      var tail := BatchGroups(d, rest);
      BatchGroupsOrdered(d, rest);
      var bc := OfBatch(d, bs[0]);
      if bc != [] {
        var g := BatchGroup(bs[0], RankGroups(d, bc, 0));
        BatchConsOrdered(BatchGroups(d, bs), g, tail);
      } else {
        assert BatchGroups(d, bs) == [] + tail;
      }
    }
  }

  /** A batch group in front of groups of later, increasing batches. */
  lemma BatchConsOrdered(gs: seq<BatchGroup>, g: BatchGroup, tail: seq<BatchGroup>)
    requires gs == [g] + tail
    requires forall i :: 0 <= i < |tail| ==> BatchIndex(g.batch) < BatchIndex(tail[i].batch)
    requires forall i, j :: 0 <= i < j < |tail| ==> BatchIndex(tail[i].batch) < BatchIndex(tail[j].batch)
    ensures forall i :: 0 <= i < |gs| ==> BatchIndex(g.batch) <= BatchIndex(gs[i].batch)
    ensures forall i, j :: 0 <= i < j < |gs| ==> BatchIndex(gs[i].batch) < BatchIndex(gs[j].batch)
  {
    forall i | 0 < i < |gs| ensures gs[i] == tail[i - 1] { }
  }

  /** Batch groups appear in the order C, B2, B1, and inside each batch group
      the rank groups appear in RANK_ORDER order. */
  lemma GroupOrder(d: seq<Cadet>)
    ensures forall i, j :: 0 <= i < j < |Group(d)| ==> BatchIndex(Group(d)[i].batch) < BatchIndex(Group(d)[j].batch)
    ensures forall g, i, j :: g in Group(d) && 0 <= i < j < |g.ranks| ==>
      RankIndex(g.ranks[i].rank) < RankIndex(g.ranks[j].rank)
  {
    BatchGroupsOrdered(d, BatchOrder);
    forall g, i, j | g in Group(d) && 0 <= i < j < |g.ranks|
      ensures RankIndex(g.ranks[i].rank) < RankIndex(g.ranks[j].rank)
    {
      GroupBatchForm(d, g);
      RankGroupsOrdered(d, OfBatch(d, g.batch), 0);
    }
  }
}
