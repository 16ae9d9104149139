/** The state of the roster page and its event handlers: the upload that
    refills `allCadets` file by file, `displayCadets`, the search box, the
    select-all and deselect-all buttons, a click on an item, the selected
    count, and `generateNominal`. */
module Session {
  import opened Wrappers
  import opened Strings
  import opened Sequences
  import opened Batches
  import opened Ingest
  import opened Order
  import opened Grouping
  import opened Selection
  import opened Export

  /** How `handleFileUpload` ends: no file chosen, every file loaded, or a file failed. */
  datatype Upload = NoFiles | Loaded(cadets: nat, files: nat) | Failed

  /** The position of the first file that failed to decode, or the number of files. */
  function FirstFailure(files: seq<Option<seq<Row>>>): (j: nat)
    ensures j <= |files| && Decoded(files, j)
    ensures j < |files| ==> files[j].None?
  {
    if files == [] then 0
    else if files[0].None? then 0
    else
      var j := 1 + FirstFailure(files[1..]);
      assert forall k :: 1 <= k < j ==> files[k] == files[1..][k - 1];
      j
  }

  lemma FirstFailureAt(files: seq<Option<seq<Row>>>, j: nat)
    requires Decoded(files, j) && j <= |files|
    requires j < |files| ==> files[j].None?
    ensures FirstFailure(files) == j
  {
  }

  /** Every record keeps a header row with at least one column (its name column). */
  predicate NamedHeaders(s: seq<Cadet>) {
    forall c :: c in s ==> c.headers != []
  }

  class Page {
    /** `allCadets`: the records of the latest upload. */
    var allCadets: seq<Cadet>
    /** `displayedCadets`: the sorted list the page was last built from. */
    var displayed: seq<Cadet>
    /** The `data-idx` of each `.cadet-item`, in document order. */
    var items: seq<int>
    /** Each item's checkbox. */
    var checked: seq<bool>
    /** Each item's `hidden` class. */
    var hidden: seq<bool>

    ghost predicate Valid()
      reads this
    {
      && |checked| == |items| && |hidden| == |items| && InRange(items, |displayed|)
      && NamedHeaders(allCadets) && NamedHeaders(displayed)
    }

    /** The page as loaded: no records, no items. */
    constructor()
      ensures Valid()
      ensures allCadets == [] && displayed == [] && items == [] && checked == [] && hidden == []
    {
      allCadets := [];
      displayed := [];
      items := [];
      checked := [];
      hidden := [];
    }

    /** `reader.onload` for one file, read as sheet `sheet`: a file that fails
        to decode rejects; a sheet of fewer than two rows adds nothing;
        otherwise every row with data and a non-blank name is appended, in
        row order. Returns whether the file decoded and `loadedCount`. */
    method LoadExcelFile(file: Option<seq<Row>>, sheet: nat) returns (ok: bool, loadedCount: nat)
      requires Valid()
      modifies this
      ensures Valid()
      ensures ok == file.Some?
      ensures allCadets == old(allCadets) + (if ok then IngestSheet(file.value, sheet) else [])
      ensures loadedCount == |allCadets| - |old(allCadets)|
      ensures displayed == old(displayed) && items == old(items)
      ensures checked == old(checked) && hidden == old(hidden)
    {
      if file.None? {
        return false, 0;
      }
      var jsonData := file.value;
      RecordsHaveNameColumn(jsonData, sheet);
      if |jsonData| < 2 {
        assert allCadets + [] == allCadets;
        return true, 0;
      }
      var headers := jsonData[0];
      var roles := FindRoles(headers);
      loadedCount := 0;
      ghost var base := allCadets;
      assert IngestRows(jsonData, roles, sheet, 1) == [];
      assert allCadets == base + [];
      for i := 1 to |jsonData|
        invariant allCadets == base + IngestRows(jsonData, roles, sheet, i)
        invariant loadedCount == |IngestRows(jsonData, roles, sheet, i)|
        invariant displayed == old(displayed) && items == old(items)
        invariant checked == old(checked) && hidden == old(hidden)
      {
        var row := jsonData[i];
        var name := CellAt(row, roles.name);
        ghost var prev := IngestRows(jsonData, roles, sheet, i);
        assert IngestRows(jsonData, roles, sheet, i + 1)
          == prev + (if IsCadetRow(row, roles) then [MakeCadet(jsonData, roles, sheet, i)] else []);
        if HasData(row) && name.Some? && Trim(name.value) != "" {
          var rank := RankOf(row, roles);
          var batch := GetBatch(RegOf(row, roles));
          var cadet := Cadet(Trim(name.value), rank, batch, row, sheet, i, headers);
          assert cadet == MakeCadet(jsonData, roles, sheet, i);
          assert (base + prev) + [cadet] == base + (prev + [cadet]);
          allCadets := allCadets + [cadet];
          loadedCount := loadedCount + 1;
        } else {
          assert prev + [] == prev;
        }
      }
      return true, loadedCount;
    }

    /** `handleFileUpload`: no file leaves the page as it is; otherwise
        `allCadets` is reset and filled file by file, file j read as sheet j.
        A file that fails stops the upload with the records read so far and
        the page not rebuilt; when every file loads the page is rebuilt. */
    method HandleFileUpload(files: seq<Option<seq<Row>>>) returns (outcome: Upload)
      requires Valid()
      modifies this
      ensures Valid()
      ensures |files| == 0 ==> outcome == NoFiles && allCadets == old(allCadets)
      ensures |files| > 0 ==> allCadets == IngestFiles(files, FirstFailure(files))
      ensures |files| > 0 && FirstFailure(files) == |files| ==>
        && outcome == Loaded(|allCadets|, |files|)
        && displayed == SortCadets(allCadets) && items == Items(Group(displayed))
        && checked == Unset(|items|) && hidden == Unset(|items|)
      ensures (|files| == 0 || FirstFailure(files) < |files|) ==>
        && (|files| > 0 ==> outcome == Failed)
        && displayed == old(displayed) && items == old(items)
        && checked == old(checked) && hidden == old(hidden)
    {
      if |files| == 0 {
        return NoFiles;
      }
      var j := LoadFiles(files);
      if j < |files| {
        return Failed;
      }
      DisplayCadets();
      return Loaded(|allCadets|, |files|);
    }

    /** The loop of `handleFileUpload`: `allCadets` is reset, then each file
        is read in turn until one fails. Returns the position of the failed
        file, or the number of files when all of them load. */
    method LoadFiles(files: seq<Option<seq<Row>>>) returns (j: nat)
      requires Valid()
      modifies this
      ensures Valid()
      ensures j == FirstFailure(files) && allCadets == IngestFiles(files, j)
      ensures displayed == old(displayed) && items == old(items)
      ensures checked == old(checked) && hidden == old(hidden)
    {
      allCadets := [];
      j := 0;
      while j < |files|
        invariant 0 <= j <= |files| && Decoded(files, j)
        invariant Valid() && allCadets == IngestFiles(files, j)
        invariant displayed == old(displayed) && items == old(items)
        invariant checked == old(checked) && hidden == old(hidden)
      {
        var ok, _ := LoadExcelFile(files[j], j);
        if !ok {
          FirstFailureAt(files, j);
          return j;
        }
        j := j + 1;
      }
      FirstFailureAt(files, j);
    }

    /** `displayCadets`: sort `allCadets` into `displayedCadets` and rebuild
        the grouped list, every item unchecked and visible. */
    method DisplayCadets()
      requires Valid()
      modifies this
      ensures Valid()
      ensures allCadets == old(allCadets)
      ensures displayed == SortCadets(allCadets) && items == Items(Group(displayed))
      ensures checked == Unset(|items|) && hidden == Unset(|items|)
    {
      var sorted, page, flags := BuildPage(allCadets);
      displayed, items, checked, hidden := sorted, page, flags, flags;
      assert InRange(items, |displayed|);
      assert NamedHeaders(displayed);
    }

    /** `handleSearch`: each item is hidden exactly when its lower-cased name
        does not include the lower-cased term; checkboxes are untouched. */
    method HandleSearch(term: string)
      requires Valid()
      modifies this
      ensures Valid()
      ensures allCadets == old(allCadets) && displayed == old(displayed)
      ensures items == old(items) && checked == old(checked)
      ensures |hidden| == |items|
      ensures forall p :: 0 <= p < |items| ==> hidden[p] == Hides(displayed[items[p]].name, term)
    {
      var t := Lower(term);
      for p := 0 to |items|
        invariant Valid()
        invariant allCadets == old(allCadets) && displayed == old(displayed)
        invariant items == old(items) && checked == old(checked)
        invariant forall q :: 0 <= q < p ==> hidden[q] == Hides(displayed[items[q]].name, term)
      {
        var name := Lower(displayed[items[p]].name);
        hidden := hidden[p := !Contains(name, t)];
      }
    }

    /** The checkbox of every visible item becomes v; hidden items keep theirs. */
    method MarkVisible(v: bool)
      requires Valid()
      modifies this
      ensures Valid()
      ensures allCadets == old(allCadets) && displayed == old(displayed)
      ensures items == old(items) && hidden == old(hidden)
      ensures checked == SetVisible(old(checked), hidden, v)
    {
      for p := 0 to |items|
        invariant Valid()
        invariant allCadets == old(allCadets) && displayed == old(displayed)
        invariant items == old(items) && hidden == old(hidden)
        invariant forall q :: 0 <= q < |items| ==>
          checked[q] == if q < p && !hidden[q] then v else old(checked)[q]
      {
        if !hidden[p] {
          checked := checked[p := v];
        }
      }
    }

    /** `selectAll`: check every visible item, then `updateCount`. */
    method SelectAll() returns (count: nat)
      requires Valid()
      modifies this
      ensures Valid()
      ensures allCadets == old(allCadets) && displayed == old(displayed)
      ensures items == old(items) && hidden == old(hidden)
      ensures checked == SetVisible(old(checked), hidden, true)
      ensures count == Count(checked) >= Count(old(checked))
    {
      CountSetVisible(checked, hidden);
      MarkVisible(true);
      count := SelectedCount();
    }

    /** `deselectAll`: uncheck every visible item, then `updateCount`. */
    method DeselectAll() returns (count: nat)
      requires Valid()
      modifies this
      ensures Valid()
      ensures allCadets == old(allCadets) && displayed == old(displayed)
      ensures items == old(items) && hidden == old(hidden)
      ensures checked == SetVisible(old(checked), hidden, false)
      ensures count == Count(checked) <= Count(old(checked))
    {
      CountSetVisible(checked, hidden);
      MarkVisible(false);
      count := SelectedCount();
    }

    /** A click on item p, on its row or on its checkbox: the checkbox flips,
        then `updateCount`. */
    method ClickItem(p: int) returns (count: nat)
      requires Valid() && 0 <= p < |items|
      modifies this
      ensures Valid()
      ensures allCadets == old(allCadets) && displayed == old(displayed)
      ensures items == old(items) && hidden == old(hidden)
      ensures checked == old(checked)[p := !old(checked)[p]]
      ensures count == Count(checked)
    {
      checked := checked[p := !checked[p]];
      count := SelectedCount();
    }

    /** `updateCount`: the number of checked boxes. */
    method SelectedCount() returns (count: nat)
      ensures count == Count(checked)
    {
      count := 0;
      for p := 0 to |checked|
        invariant count == Count(checked[..p])
      {
        assert checked[..p + 1] == checked[..p] + [checked[p]];
        CountSnoc(checked[..p], checked[p]);
        if checked[p] {
          count := count + 1;
        }
      }
      assert checked[..|checked|] == checked;
    }

    /** The loop at the top of `generateNominal`: the record behind each
        checked box, in document order. */
    method SelectedCadets() returns (selected: seq<Cadet>)
      requires Valid()
      ensures selected == Picked(displayed, items, checked)
    {
      selected := [];
      for p := 0 to |items|
        invariant selected == Picked(displayed, items[..p], checked[..p])
      {
        assert items[..p + 1] == items[..p] + [items[p]];
        assert checked[..p + 1] == checked[..p] + [checked[p]];
        PickedSnoc(displayed, items[..p], checked[..p], items[p], checked[p]);
        if checked[p] {
          selected := selected + [displayed[items[p]]];
        }
      }
      assert items[..|items|] == items && checked[..|checked|] == checked;
    }

    /** `generateNominal` minus the file write: no nominal when no box is
        checked; otherwise the heading row when the trimmed heading is not
        empty, the header row and one row per checked record, and a heading
        merge that spans at least the first column. */
    method GenerateNominal(headingInput: string) returns (r: Option<Nominal>)
      requires Valid()
      ensures r == NominalOf(headingInput, Picked(displayed, items, checked))
      ensures r.None? <==> Count(checked) == 0
      ensures r.Some? ==> |r.value.rows| == (if Trim(headingInput) != "" then 2 else 1) + Count(checked)
      ensures r.Some? && Trim(headingInput) != "" ==> 0 <= r.value.merges[0].endCol
    {
      var selected := SelectedCadets();
      PickedCount(displayed, items, checked);
      r := BuildNominal(headingInput, selected);
      if selected != [] {
        NominalRows(headingInput, selected);
        PickedIn(displayed, items, checked);
        assert selected[0] in displayed;
        if Trim(headingInput) != "" {
          HeadingMergeSpans(headingInput, selected);
        }
      }
    }
  }

  /** The list `displayCadets` builds from the records: sorted, grouped by
      batch and rank, every item unchecked and visible; its records keep their
      header rows and every item names a position in the sorted list. */
  method BuildPage(all: seq<Cadet>) returns (sorted: seq<Cadet>, page: seq<int>, flags: seq<bool>)
    requires NamedHeaders(all)
    ensures sorted == SortCadets(all) && page == Items(Group(sorted)) && flags == Unset(|page|)
    ensures NamedHeaders(sorted) && InRange(page, |sorted|)
  {
    sorted := SortCadets(all);
    page := Items(Group(sorted));
    flags := Unset(|page|);
    DisplayedPage(all);
  }

  /** Sorting keeps every record, so it keeps their header rows. */
  lemma SortedNamed(s: seq<Cadet>)
    requires NamedHeaders(s)
    ensures NamedHeaders(SortCadets(s))
  {
    assert forall c :: c in SortCadets(s) ==> c in multiset(SortCadets(s));
  }

  /** The list an upload leaves behind, once sorted, keeps the header rows of
      its records and gives every item a position in it. */
  lemma DisplayedPage(all: seq<Cadet>)
    requires NamedHeaders(all)
    ensures NamedHeaders(SortCadets(all))
    ensures InRange(Items(Group(SortCadets(all))), |SortCadets(all)|)
  {
    SortedNamed(all);
    GroupInRange(SortCadets(all));
  }

  /** After an upload in which every file loads, the page lists the records
      of the upload sorted, with no record twice, and shows exactly those whose
      rank is in RANK_ORDER, once each and in sorted order. */
  lemma UploadedPage(files: seq<Option<seq<Row>>>)
    requires Decoded(files, |files|)
    ensures var d := SortCadets(IngestFiles(files, |files|));
      && multiset(d) == multiset(IngestFiles(files, |files|))
      && Sorted(d) && Distinct(d)
      && (forall p :: p in Items(Group(d)) <==> 0 <= p < |d| && d[p].rank in RankOrder)
      && Increasing(Items(Group(d)))
  {
    var all := IngestFiles(files, |files|);
    IngestFilesOrdered(files, |files|);
    OrderedDistinct(all);
    SortDistinct(all);
    SortSorted(all);
    GroupItems(SortCadets(all));
  }
}
