/** The batch (cohort) of a cadet, read off the registration number. */
module Batches {
  import opened Strings
  import opened Sequences

  /** C is the senior batch. */
  datatype Batch = C | B2 | B1

  /** `BATCH_ORDER`, the display and sort order of the batches. */
  const BatchOrder: seq<Batch> := [C, B2, B1]

  /** `BATCH_ORDER.indexOf(batch)`: every batch has a place in the order. */
  function BatchIndex(b: Batch): (i: int)
    ensures 0 <= i < |BatchOrder| && BatchOrder[i] == b
  {
    match b
    case C => 0
    case B2 => 1
    case B1 => 2
  }

  lemma BatchIndexIsIndexOf(b: Batch)
    ensures BatchIndex(b) == IndexOf(BatchOrder, b)
  {
    IndexOfDistinct(BatchOrder, BatchIndex(b));
  }

  /** `getBatch`: upper-case the registration number (no trim) and test the
      substrings in order; the first that matches decides, and C is the default. */
  function GetBatch(regNo: string): Batch {
    var reg := Upper(regNo);
    if Contains(reg, "2023") || Contains(reg, "AP21") then C
    else if Contains(reg, "2024") then B2
    else if Contains(reg, "2025") then B1
    else C
  }

  /** The year tests read the registration number itself: a 2023 number is in
      batch C whatever other years it mentions; otherwise, unless it contains
      AP21 in some case, 2024 gives B2, then 2025 gives B1, and anything else C. */
  lemma GetBatchByYear(regNo: string)
    ensures Contains(regNo, "2023") ==> GetBatch(regNo) == C
    ensures !Contains(regNo, "2023") && !Contains(Upper(regNo), "AP21") ==>
      GetBatch(regNo) == (if Contains(regNo, "2024") then B2
                          else if Contains(regNo, "2025") then B1
                          else C)
  {
    UpperKeepsDigits(regNo, "2023");
    UpperKeepsDigits(regNo, "2024");
    UpperKeepsDigits(regNo, "2025");
  }

  /** AP21 in any mix of cases puts the cadet in batch C. */
  lemma GetBatchAp21(regNo: string, i: int)
    requires 0 <= i <= |regNo| - 4 && Upper(regNo[i..i + 4]) == "AP21"
    ensures GetBatch(regNo) == C
  {
    assert Upper(regNo)[i..i + 4] == Upper(regNo[i..i + 4]);
    assert OccursAt(Upper(regNo), "AP21", i);
  }

  /** An empty or unrecognised registration number falls back to batch C. */
  lemma GetBatchEmpty()
    ensures GetBatch("") == C
  {
  }

  /** `getBatch` does not trim its input, and need not: none of the patterns
      contains whitespace, so surrounding whitespace never changes the batch. */
  lemma GetBatchIgnoresTrim(regNo: string)
    ensures GetBatch(Trim(regNo)) == GetBatch(regNo)
  {
    assert NoSpace("2023") && NoSpace("AP21") && NoSpace("2024") && NoSpace("2025");
    UpperTrimContains(regNo, "2023");
    UpperTrimContains(regNo, "AP21");
    UpperTrimContains(regNo, "2024");
    UpperTrimContains(regNo, "2025");
  }

  lemma UpperTrimContains(regNo: string, t: string)
    requires t != [] && NoSpace(t)
    ensures Contains(Upper(Trim(regNo)), t) <==> Contains(Upper(regNo), t)
  {
    var r := Trim(regNo);
    TrimSpec(regNo);
    var i :| SpaceFramed(regNo, r, i);
    UpperFramed(regNo, r, i);
    ContainsFramed(Upper(regNo), Upper(r), i, t);
  }
}
