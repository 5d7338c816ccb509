/**
 Cutting the selected pages of a document into byte-bounded windows.

 `PlanWindow` takes pages from a cursor on.  Pages whose raster size cannot be estimated, or exceeds the
 whole budget, are skipped; a page too large for a slot but not for the budget gets a window of its own.
 */
module RoutePlanner {
  import opened Wrappers

  const USIZE_MAX: nat := 0xFFFF_FFFF_FFFF_FFFF

  /** The size of the raster a page needs, or why there is none. */
  type Estimate = nat -> Result<nat, string>

  datatype PlanMode = Slot | FullCapFallback

  datatype PlannedWindow = PlannedWindow(indexes: seq<nat>, bytes: nat, mode: PlanMode, consumed: nat)

  datatype PlanError =
    | InvalidOptions
    | CursorOutsidePages
    | NotEstimated(message: string)
    | ImageBytes(limit: nat, actual: nat)

  datatype Warning = Skipped(index: nat, reason: PlanError)

  function SplitImageSlotCaps(fullCap: nat): (caps: (nat, nat))
    ensures caps.0 + caps.1 == fullCap
    ensures caps.0 <= caps.1 <= caps.0 + 1
  {
    (fullCap / 2, fullCap - fullCap / 2)
  }

  function SlotCap(fullCap: nat, slot: nat): nat {
    if slot == 0 then SplitImageSlotCaps(fullCap).0 else SplitImageSlotCaps(fullCap).1
  }

  predicate Overlaps(fullCap: nat) {
    SlotCap(fullCap, 0) != 0 && SlotCap(fullCap, 1) != 0
  }

  /** What a window planned for a slot may hold: the whole budget if it is too small to be split. */
  function WindowCap(fullCap: nat, slot: nat): nat {
    if Overlaps(fullCap) then SlotCap(fullCap, slot) else fullCap
  }

  /** The two slots halve the budget, the odd byte goes to the second, and there are two from two bytes on. */
  lemma SlotsHalve(fullCap: nat)
    ensures 2 * SlotCap(fullCap, 0) <= fullCap <= 2 * SlotCap(fullCap, 0) + 1
    ensures SlotCap(fullCap, 0) + SlotCap(fullCap, 1) == fullCap
    ensures Overlaps(fullCap) <==> fullCap >= 2
    ensures WindowCap(fullCap, 0) + WindowCap(fullCap, 1) == if fullCap >= 2 then fullCap else 2 * fullCap
  {
  }

  // ---------------------------------------------------------------- specification

  predicate Plannable(estimate: Estimate, fullCap: nat, index: nat) {
    estimate(index).Ok? && estimate(index).value <= fullCap
  }

  function SkipReason(estimate: Estimate, fullCap: nat, index: nat): PlanError
    requires !Plannable(estimate, fullCap, index)
  {
    if estimate(index).Err? then NotEstimated(estimate(index).error) else ImageBytes(fullCap, estimate(index).value)
  }

  /** The pages at positions `from` to `to` that are not skipped. */
  ghost function Kept(indexes: seq<nat>, estimate: Estimate, fullCap: nat, from: nat, to: nat): seq<nat>
    requires from <= to <= |indexes|
  {
    if from == to then []
    else Kept(indexes, estimate, fullCap, from, to - 1) +
         if Plannable(estimate, fullCap, indexes[to - 1]) then [indexes[to - 1]] else []
  }

  ghost function SkippedPages(indexes: seq<nat>, estimate: Estimate, fullCap: nat, from: nat, to: nat): seq<Warning>
    requires from <= to <= |indexes|
  {
    if from == to then []
    else SkippedPages(indexes, estimate, fullCap, from, to - 1) +
         if Plannable(estimate, fullCap, indexes[to - 1]) then []
         else [Skipped(indexes[to - 1], SkipReason(estimate, fullCap, indexes[to - 1]))]
  }

  ghost function TotalBytes(estimate: Estimate, pages: seq<nat>): nat {
    if pages == [] then 0
    else TotalBytes(estimate, pages[..|pages| - 1]) +
         (if estimate(pages[|pages| - 1]).Ok? then estimate(pages[|pages| - 1]).value else 0)
  }

  /** Kept pages of adjacent stretches join up: no page is lost or planned twice at a window boundary. */
  lemma {:induction false} KeptConcat(indexes: seq<nat>, estimate: Estimate, fullCap: nat, a: nat, b: nat, c: nat)
    requires a <= b <= c <= |indexes|
    ensures Kept(indexes, estimate, fullCap, a, c) ==
            Kept(indexes, estimate, fullCap, a, b) + Kept(indexes, estimate, fullCap, b, c)
  {
    if b < c {
      KeptConcat(indexes, estimate, fullCap, a, b, c - 1);
    }
  }

  ghost predicate Increasing(s: seq<nat>) {
    forall i, j :: 0 <= i < j < |s| ==> s[i] < s[j]
  }

  lemma IncreasingAppend(s: seq<nat>, x: nat)
    requires Increasing(s) && (s != [] ==> s[|s| - 1] < x)
    ensures Increasing(s + [x])
  {
    forall i | 0 <= i < |s| ensures s[i] < x {
      assert i < |s| - 1 ==> s[i] < s[|s| - 1];
    }
  }

  /** What is kept are positions of the stretch, in order, none of them skipped. */
  lemma {:induction false} KeptIncreasing(indexes: seq<nat>, estimate: Estimate, fullCap: nat, from: nat, to: nat)
    requires from <= to <= |indexes| && Increasing(indexes)
    ensures var kept := Kept(indexes, estimate, fullCap, from, to);
            Increasing(kept) &&
            (kept != [] ==> from < to && kept[|kept| - 1] <= indexes[to - 1]) &&
            (forall x :: x in kept ==> Plannable(estimate, fullCap, x))
  {
    hide Plannable, Increasing, Kept;
    if from == to {
      NoneKept(indexes, estimate, fullCap, from);
    } else {
      KeptIncreasing(indexes, estimate, fullCap, from, to - 1);
      KeptLast(indexes, estimate, fullCap, from, to);
      var rest, last := Kept(indexes, estimate, fullCap, from, to - 1), indexes[to - 1];
      if from < to - 1 {
        NextIncreases(indexes, to - 2);
      }
      if Plannable(estimate, fullCap, last) {
        IncreasingAppend(rest, last);
      }
    }
  }

  lemma NoneKept(indexes: seq<nat>, estimate: Estimate, fullCap: nat, from: nat)
    requires from <= |indexes|
    ensures Kept(indexes, estimate, fullCap, from, from) == [] && Increasing([])
  {
  }

  lemma KeptLast(indexes: seq<nat>, estimate: Estimate, fullCap: nat, from: nat, to: nat)
    requires from < to <= |indexes|
    ensures Kept(indexes, estimate, fullCap, from, to) ==
            var rest := Kept(indexes, estimate, fullCap, from, to - 1);
            if Plannable(estimate, fullCap, indexes[to - 1]) then rest + [indexes[to - 1]] else rest
  {
  }

  lemma NextIncreases(s: seq<nat>, i: nat)
    requires Increasing(s) && i + 1 < |s|
    ensures s[i] < s[i + 1]
  {
    var j := i + 1;
    assert s[i] < s[j];
  }

  lemma {:induction false} TotalBytesAppend(estimate: Estimate, pages: seq<nat>, index: nat)
    requires estimate(index).Ok?
    ensures TotalBytes(estimate, pages + [index]) == TotalBytes(estimate, pages) + estimate(index).value
  {
    assert (pages + [index])[..|pages|] == pages;
  }

  ghost predicate NothingPlannable(indexes: seq<nat>, cursor: nat, to: nat, estimate: Estimate, fullCap: nat)
    requires to <= |indexes|
  {
    forall i :: cursor <= i < to ==> !Plannable(estimate, fullCap, indexes[i])
  }

  /**
   `w` takes the pages from `cursor` on in order, stays within its cap, and stops only where the next
   page would not fit or, right behind the page that fills it, where the window is full.
   */
  ghost predicate IsPlan(w: PlannedWindow, indexes: seq<nat>, cursor: nat, size: nat, slotCap: nat, fullCap: nat,
                         estimate: Estimate) {
    && 1 <= w.consumed && cursor + w.consumed <= |indexes|
    && w.indexes == Kept(indexes, estimate, fullCap, cursor, cursor + w.consumed)
    && 1 <= |w.indexes| <= size
    && w.bytes == TotalBytes(estimate, w.indexes)
    && (w.mode.Slot? ==> w.bytes <= slotCap)
    && (w.mode.FullCapFallback? ==> |w.indexes| == 1 && slotCap < w.bytes <= fullCap)
    && (w.mode.Slot? && cursor + w.consumed < |indexes| && |w.indexes| < size ==>
         var next := indexes[cursor + w.consumed];
         Plannable(estimate, fullCap, next) && w.bytes + estimate(next).value > slotCap)
    && (|w.indexes| == size || w.mode.FullCapFallback? ==>
        Plannable(estimate, fullCap, indexes[cursor + w.consumed - 1]))
  }

  predicate ValidCaps(size: nat, slotCap: nat, fullCap: nat) {
    size > 0 && 0 < slotCap <= fullCap
  }

  type PlanResult = Result<(PlannedWindow, seq<Warning>), PlanError>

  /**
   What planning at a cursor returns.  Planning fails on invalid options, on a cursor behind the last page,
   or because no page from the cursor on can be planned; then the error tells why the first one was skipped.
   Only where byte counts may overflow can it fail otherwise.
   */
  ghost predicate IsPlanResult(r: PlanResult, indexes: seq<nat>, cursor: nat, size: nat, slotCap: nat, fullCap: nat,
                               estimate: Estimate) {
    && (r == Err(InvalidOptions) <==> !ValidCaps(size, slotCap, fullCap))
    && (ValidCaps(size, slotCap, fullCap) ==> (r == Err(CursorOutsidePages) <==> cursor >= |indexes|))
    && (r.Ok? ==> IsPlan(r.value.0, indexes, cursor, size, slotCap, fullCap, estimate) &&
                  r.value.1 == SkippedPages(indexes, estimate, fullCap, cursor, cursor + r.value.0.consumed))
    && (ValidCaps(size, slotCap, fullCap) && cursor < |indexes| && slotCap + fullCap <= USIZE_MAX ==>
         (r.Err? <==> NothingPlannable(indexes, cursor, |indexes|, estimate, fullCap)) &&
         (r.Err? ==> r.error == SkipReason(estimate, fullCap, indexes[cursor])))
  }

  /** What is planned and skipped once `consumed` pages behind the cursor have been looked at. */
  ghost predicate Planning(indexes: seq<nat>, cursor: nat, estimate: Estimate, fullCap: nat, consumed: nat,
                           planned: seq<nat>, total: nat, warnings: seq<Warning>, firstError: Option<PlanError>)
    requires cursor + consumed <= |indexes|
  {
    && planned == Kept(indexes, estimate, fullCap, cursor, cursor + consumed)
    && warnings == SkippedPages(indexes, estimate, fullCap, cursor, cursor + consumed)
    && total == TotalBytes(estimate, planned)
    && (planned == [] ==> NothingPlannable(indexes, cursor, cursor + consumed, estimate, fullCap))
    && (planned == [] && consumed > 0 ==> firstError == Some(SkipReason(estimate, fullCap, indexes[cursor])))
    && (planned == [] && consumed == 0 ==> firstError == None)
  }

  lemma SkipPage(indexes: seq<nat>, cursor: nat, estimate: Estimate, fullCap: nat, consumed: nat,
                 planned: seq<nat>, total: nat, warnings: seq<Warning>, firstError: Option<PlanError>,
                     reason: PlanError)
    requires cursor + consumed < |indexes|
    requires Planning(indexes, cursor, estimate, fullCap, consumed, planned, total, warnings, firstError)
    requires !Plannable(estimate, fullCap, indexes[cursor + consumed])
    requires reason == SkipReason(estimate, fullCap, indexes[cursor + consumed])
    ensures Planning(indexes, cursor, estimate, fullCap, consumed + 1, planned, total,
                     warnings + [Skipped(indexes[cursor + consumed], reason)],
                     if firstError.None? then Some(reason) else firstError)
  {
  }

  lemma TakePage(indexes: seq<nat>, cursor: nat, estimate: Estimate, fullCap: nat, consumed: nat,
                 planned: seq<nat>, total: nat, warnings: seq<Warning>, firstError: Option<PlanError>)
    requires cursor + consumed < |indexes|
    requires Planning(indexes, cursor, estimate, fullCap, consumed, planned, total, warnings, firstError)
    requires Plannable(estimate, fullCap, indexes[cursor + consumed])
    ensures Planning(indexes, cursor, estimate, fullCap, consumed + 1, planned + [indexes[cursor + consumed]],
                     total + estimate(indexes[cursor + consumed]).value, warnings, firstError)
  {
    TotalBytesAppend(estimate, planned, indexes[cursor + consumed]);
  }

  lemma KeptIsPlannable(indexes: seq<nat>, cursor: nat, estimate: Estimate, fullCap: nat, to: nat)
    requires cursor <= to <= |indexes| && Kept(indexes, estimate, fullCap, cursor, to) != []
    ensures !NothingPlannable(indexes, cursor, |indexes|, estimate, fullCap)
  {
    if !Plannable(estimate, fullCap, indexes[to - 1]) {
      KeptIsPlannable(indexes, cursor, estimate, fullCap, to - 1);
    }
  }

  lemma PlanningDone(indexes: seq<nat>, cursor: nat, estimate: Estimate, fullCap: nat, consumed: nat,
                     planned: seq<nat>, total: nat, warnings: seq<Warning>, firstError: Option<PlanError>)
    requires cursor + consumed <= |indexes| && planned != []
    requires Planning(indexes, cursor, estimate, fullCap, consumed, planned, total, warnings, firstError)
    ensures consumed > 0
    ensures planned == Kept(indexes, estimate, fullCap, cursor, cursor + consumed)
    ensures warnings == SkippedPages(indexes, estimate, fullCap, cursor, cursor + consumed)
    ensures total == TotalBytes(estimate, planned)
    ensures !NothingPlannable(indexes, cursor, |indexes|, estimate, fullCap)
  {
    KeptIsPlannable(indexes, cursor, estimate, fullCap, cursor + consumed);
  }


  lemma PlansFallback(indexes: seq<nat>, cursor: nat, size: nat, slotCap: nat, fullCap: nat, estimate: Estimate,
                      consumed: nat, total: nat, warnings: seq<Warning>, firstError: Option<PlanError>)
    requires ValidCaps(size, slotCap, fullCap) && cursor + consumed < |indexes|
    requires Planning(indexes, cursor, estimate, fullCap, consumed, [], total, warnings, firstError)
    requires Plannable(estimate, fullCap, indexes[cursor + consumed])
    requires estimate(indexes[cursor + consumed]).value > slotCap
    ensures var index := indexes[cursor + consumed];
            IsPlanResult(Ok((PlannedWindow([index], estimate(index).value, FullCapFallback, consumed + 1), warnings)),
                         indexes, cursor, size, slotCap, fullCap, estimate)
  {
    hide Kept, NothingPlannable, SkippedPages, Planning, TotalBytes;
    var index := indexes[cursor + consumed];
    TakePage(indexes, cursor, estimate, fullCap, consumed, [], total, warnings, firstError);
    assert [] + [index] == [index];
    PlanningDone(indexes, cursor, estimate, fullCap, consumed + 1, [index], total + estimate(index).value, warnings,
                 firstError);
    SingleTotal(estimate, index);
  }

  lemma SingleTotal(estimate: Estimate, index: nat)
    requires estimate(index).Ok?
    ensures TotalBytes(estimate, [index]) == estimate(index).value
  {
    assert [index][..0] == [];
    assert TotalBytes(estimate, [index][..0]) == 0;
  }

  lemma PlansSlot(indexes: seq<nat>, cursor: nat, size: nat, slotCap: nat, fullCap: nat, estimate: Estimate,
                  consumed: nat, planned: seq<nat>, total: nat, warnings: seq<Warning>, firstError: Option<PlanError>)
    requires ValidCaps(size, slotCap, fullCap) && cursor < |indexes| && cursor + consumed <= |indexes|
    requires Planning(indexes, cursor, estimate, fullCap, consumed, planned, total, warnings, firstError)
    requires planned != [] && |planned| <= size && total <= slotCap
    requires cursor + consumed < |indexes| && |planned| < size ==>
               Plannable(estimate, fullCap, indexes[cursor + consumed]) &&
               total + estimate(indexes[cursor + consumed]).value > slotCap
    requires FilledByLast(planned, size, indexes, cursor + consumed, estimate, fullCap)
    ensures IsPlanResult(Ok((PlannedWindow(planned, total, Slot, consumed), warnings)),
                         indexes, cursor, size, slotCap, fullCap, estimate)
  {
    hide Kept, NothingPlannable, SkippedPages, Planning, TotalBytes;
    PlanningDone(indexes, cursor, estimate, fullCap, consumed, planned, total, warnings, firstError);
  }

  /** A window that is full was filled by the last page looked at. */
  ghost predicate FilledByLast(planned: seq<nat>, size: nat, indexes: seq<nat>, at: nat, estimate: Estimate,
                               fullCap: nat) {
    |planned| == size ==> 0 < at <= |indexes| && Plannable(estimate, fullCap, indexes[at - 1])
  }

  lemma NotFull(planned: seq<nat>, size: nat, indexes: seq<nat>, at: nat, estimate: Estimate, fullCap: nat)
    requires |planned| < size
    ensures FilledByLast(planned, size, indexes, at, estimate, fullCap)
  {
  }

  lemma Filled(planned: seq<nat>, size: nat, indexes: seq<nat>, at: nat, estimate: Estimate, fullCap: nat)
    requires 0 < at <= |indexes| && Plannable(estimate, fullCap, indexes[at - 1])
    ensures FilledByLast(planned, size, indexes, at, estimate, fullCap)
  {
  }

  lemma PlansNothing(indexes: seq<nat>, cursor: nat, size: nat, slotCap: nat, fullCap: nat, estimate: Estimate,
                     total: nat, warnings: seq<Warning>, firstError: Option<PlanError>)
    requires ValidCaps(size, slotCap, fullCap) && cursor < |indexes|
    requires Planning(indexes, cursor, estimate, fullCap, |indexes| - cursor, [], total, warnings, firstError)
    ensures firstError.Some?
    ensures IsPlanResult(Err(firstError.value), indexes, cursor, size, slotCap, fullCap, estimate)
  {
  }

  lemma PlanOverflows(indexes: seq<nat>, cursor: nat, size: nat, slotCap: nat, fullCap: nat, estimate: Estimate)
    requires ValidCaps(size, slotCap, fullCap) && cursor < |indexes| && slotCap + fullCap > USIZE_MAX
    ensures IsPlanResult(Err(ImageBytes(fullCap, USIZE_MAX)), indexes, cursor, size, slotCap, fullCap, estimate)
  {
  }

  lemma PlanningStart(indexes: seq<nat>, cursor: nat, estimate: Estimate, fullCap: nat)
    requires cursor <= |indexes|
    ensures Planning(indexes, cursor, estimate, fullCap, 0, [], 0, [], None)
  {
  }

  // ---------------------------------------------------------------- the planner

  method PlanWindow(indexes: seq<nat>, cursor: nat, size: nat, slotCap: nat, fullCap: nat, estimate: Estimate)
    returns (r: PlanResult)
    ensures IsPlanResult(r, indexes, cursor, size, slotCap, fullCap, estimate)
  {
    if size == 0 || slotCap == 0 || fullCap == 0 || slotCap > fullCap {
      return Err(InvalidOptions);
    }
    if cursor >= |indexes| {
      return Err(CursorOutsidePages);
    }
    hide IsPlanResult, IsPlan, Planning, ValidCaps, Kept, SkippedPages, TotalBytes, NothingPlannable, FilledByLast;
    var planned: seq<nat> := [];
    var total: nat := 0;
    var warnings: seq<Warning> := [];
    var firstError: Option<PlanError> := None;
    var consumed: nat := 0;
    PlanningStart(indexes, cursor, estimate, fullCap);
    NotFull(planned, size, indexes, cursor, estimate, fullCap);
    while cursor + consumed < |indexes|
      invariant cursor + consumed <= |indexes|
      invariant Planning(indexes, cursor, estimate, fullCap, consumed, planned, total, warnings, firstError)
      invariant total <= slotCap && |planned| <= size
      invariant FilledByLast(planned, size, indexes, cursor + consumed, estimate, fullCap)
    {
      if |planned| >= size {
        break;
      }
      var index := indexes[cursor + consumed];
      var found := estimate(index);
      if found.Err? || found.value > fullCap {
        var reason := if found.Err? then NotEstimated(found.error) else ImageBytes(fullCap, found.value);
        SkipPage(indexes, cursor, estimate, fullCap, consumed, planned, total, warnings, firstError, reason);
        NotFull(planned, size, indexes, cursor + consumed + 1, estimate, fullCap);
        consumed := consumed + 1;
        warnings := warnings + [Skipped(index, reason)];
        firstError := if firstError.None? then Some(reason) else firstError;
        continue;
      }
      var bytes := found.value;
      if planned == [] && bytes > slotCap {
        PlansFallback(indexes, cursor, size, slotCap, fullCap, estimate, consumed, total, warnings, firstError);
        consumed := consumed + 1;
        return Ok((PlannedWindow([index], bytes, FullCapFallback, consumed), warnings));
      }
      if total + bytes > USIZE_MAX {
        PlanOverflows(indexes, cursor, size, slotCap, fullCap, estimate);
        return Err(ImageBytes(fullCap, USIZE_MAX));
      }
      if total + bytes > slotCap {
        break;
      }
      TakePage(indexes, cursor, estimate, fullCap, consumed, planned, total, warnings, firstError);
      Filled(planned + [index], size, indexes, cursor + consumed + 1, estimate, fullCap);
      consumed := consumed + 1;
      total := total + bytes;
      planned := planned + [index];
    }
    if planned == [] {
      PlansNothing(indexes, cursor, size, slotCap, fullCap, estimate, total, warnings, firstError);
      return Err(if firstError.Some? then firstError.value else ImageBytes(fullCap, USIZE_MAX));
    }
    PlansSlot(indexes, cursor, size, slotCap, fullCap, estimate, consumed, planned, total, warnings, firstError);
    r := Ok((PlannedWindow(planned, total, Slot, consumed), warnings));
  }

  // ---------------------------------------------------------------- the plan is determined

  lemma {:induction false} TotalPrefix(estimate: Estimate, pages: seq<nat>, n: nat)
    requires n <= |pages|
    ensures TotalBytes(estimate, pages[..n]) <= TotalBytes(estimate, pages)
    decreases |pages| - n
  {
    if n < |pages| {
      TotalPrefix(estimate, pages, n + 1);
      assert pages[..n + 1][..n] == pages[..n];
    } else {
      assert pages[..n] == pages;
    }
  }

  /**
   A window that goes on behind another has all its pages, and one more if a page that can be planned lies between.
   */
  lemma KeptGrows(indexes: seq<nat>, estimate: Estimate, fullCap: nat, cursor: nat, a: nat, b: nat, at: nat)
    requires cursor <= a <= at < b <= |indexes| && Plannable(estimate, fullCap, indexes[at])
    ensures Kept(indexes, estimate, fullCap, cursor, a) < Kept(indexes, estimate, fullCap, cursor, b)
    ensures at == a ==>
        Kept(indexes, estimate, fullCap, cursor, a) + [indexes[a]] <= Kept(indexes, estimate, fullCap, cursor, b)
  {
    hide Kept, Plannable;
    KeptConcat(indexes, estimate, fullCap, cursor, a, b);
    KeptConcat(indexes, estimate, fullCap, a, at, b);
    KeptFirst(indexes, estimate, fullCap, at, b);
    if at == a {
      NoneKept(indexes, estimate, fullCap, a);
    }
  }

  lemma KeptFirst(indexes: seq<nat>, estimate: Estimate, fullCap: nat, at: nat, b: nat)
    requires at < b <= |indexes| && Plannable(estimate, fullCap, indexes[at])
    ensures Kept(indexes, estimate, fullCap, at, b) == [indexes[at]] + Kept(indexes, estimate, fullCap, at + 1, b)
  {
    hide Plannable;
    KeptConcat(indexes, estimate, fullCap, at, at + 1, b);
    assert Kept(indexes, estimate, fullCap, at, at) == [];
  }

  lemma NoShorterPlan(v: PlannedWindow, w: PlannedWindow, indexes: seq<nat>, cursor: nat, size: nat, slotCap: nat,
                      fullCap: nat,
                      estimate: Estimate)
    requires ValidCaps(size, slotCap, fullCap)
    requires IsPlan(v, indexes, cursor, size, slotCap, fullCap, estimate)
    requires IsPlan(w, indexes, cursor, size, slotCap, fullCap, estimate)
    ensures v.consumed >= w.consumed
  {
    hide Kept, TotalBytes, Plannable;
    var a, b := cursor + v.consumed, cursor + w.consumed;
    if a < b {
      KeptConcat(indexes, estimate, fullCap, cursor, a, b);
      TotalPrefix(estimate, w.indexes, |v.indexes|);
      assert w.indexes[..|v.indexes|] == v.indexes;
      if v.mode.Slot? && |v.indexes| < size {
        var next := indexes[a];
        KeptGrows(indexes, estimate, fullCap, cursor, a, b, a);
        NextTotal(estimate, fullCap, v.indexes, next, w.indexes);
      } else if |w.indexes| == size || w.mode.FullCapFallback? {
        KeptGrows(indexes, estimate, fullCap, cursor, a, b, b - 1);
      }
    }
  }

  lemma NextTotal(estimate: Estimate, fullCap: nat, pages: seq<nat>, next: nat, more: seq<nat>)
    requires Plannable(estimate, fullCap, next) && pages + [next] <= more
    ensures TotalBytes(estimate, pages) + estimate(next).value <= TotalBytes(estimate, more)
  {
    TotalBytesAppend(estimate, pages, next);
    TotalPrefix(estimate, more, |pages| + 1);
    assert more[..|pages| + 1] == pages + [next];
  }

  /** At each cursor there is one plan only, whatever way it is found. */
  lemma PlanIsUnique(v: PlannedWindow, w: PlannedWindow, indexes: seq<nat>, cursor: nat, size: nat, slotCap: nat,
                     fullCap: nat,
                     estimate: Estimate)
    requires ValidCaps(size, slotCap, fullCap)
    requires IsPlan(v, indexes, cursor, size, slotCap, fullCap, estimate)
    requires IsPlan(w, indexes, cursor, size, slotCap, fullCap, estimate)
    ensures v == w
  {
    hide Kept, TotalBytes, Plannable;
    NoShorterPlan(v, w, indexes, cursor, size, slotCap, fullCap, estimate);
    NoShorterPlan(w, v, indexes, cursor, size, slotCap, fullCap, estimate);
  }

  // ---------------------------------------------------------------- planning a whole document

  /** The last window when pages are packed one by one: how full it is, its slot, and whether it is a fallback. */
  datatype Packing =
    | Unpacked
    | Packing(pages: nat, bytes: nat, slot: nat, alone: bool)
  {
    /** No further page is looked for. */
    predicate Closed(size: nat) {
      Packing? && (alone || pages == size)
    }

    predicate Takes(more: nat, size: nat, fullCap: nat) {
      Packing? && !Closed(size) && bytes + more <= WindowCap(fullCap, slot)
    }

    /** Slots alternate, from the first one on and again behind a fallback. */
    function NextSlot(): nat {
      if Packing? && !alone && slot == 0 then 1 else 0
    }

    function Add(more: nat, size: nat, fullCap: nat): Packing {
      if Takes(more, size, fullCap) then this.(pages := pages + 1, bytes := bytes + more)
      else Packing(1, more, NextSlot(), more > WindowCap(fullCap, NextSlot()))
    }
  }

  /** Packing the pages before position `to`, in order; a page without a usable size is passed over. */
  function PackedTo(indexes: seq<nat>, to: nat, size: nat, fullCap: nat, estimate: Estimate): Packing
    requires to <= |indexes|
  {
    if to == 0 then Unpacked
    else
      var before := PackedTo(indexes, to - 1, size, fullCap, estimate);
      if Plannable(estimate, fullCap, indexes[to - 1])
      then before.Add(estimate(indexes[to - 1]).value, size, fullCap) else before
  }

  /**
   Planning a document fails: its last page cannot be planned, and the last window packed does not look for
   another page, or there is none.
   */
  predicate Blocked(indexes: seq<nat>, size: nat, fullCap: nat, estimate: Estimate)
    requires indexes != []
  {
    var last := PackedTo(indexes, |indexes|, size, fullCap, estimate);
    !Plannable(estimate, fullCap, indexes[|indexes| - 1]) && (last.Unpacked? || last.Closed(size))
  }

  /** Between two windows: the page at the cursor does not go into the last one, nor did the last one stop early. */
  ghost predicate Boundary(indexes: seq<nat>, cursor: nat, size: nat, fullCap: nat, estimate: Estimate) {
    && cursor <= |indexes|
    && var last := PackedTo(indexes, cursor, size, fullCap, estimate);
    && (cursor > 0 ==> last.Packing?)
    && (cursor > 0 && last.Closed(size) ==> Plannable(estimate, fullCap, indexes[cursor - 1]))
    && (cursor < |indexes| && last.Packing? && !last.Closed(size) ==>
         Plannable(estimate, fullCap, indexes[cursor]) &&
         !last.Takes(estimate(indexes[cursor]).value, size, fullCap))
  }

  /** What packing has come to inside a window that was planned at `cursor`. */
  ghost predicate Inside(w: PlannedWindow, indexes: seq<nat>, cursor: nat, at: nat, size: nat, fullCap: nat,
                         estimate: Estimate)
    requires cursor <= at <= |indexes|
  {
    var before := PackedTo(indexes, cursor, size, fullCap, estimate);
    var kept := Kept(indexes, estimate, fullCap, cursor, at);
    PackedTo(indexes, at, size, fullCap, estimate) ==
    if kept == [] then before
    else Packing(|kept|, TotalBytes(estimate, kept), before.NextSlot(), w.mode.FullCapFallback?)
  }

  lemma {:induction false} KeptWithin(indexes: seq<nat>, cursor: nat, at: nat, to: nat, estimate: Estimate,
                                      fullCap: nat)
    requires cursor <= at <= to <= |indexes|
    ensures var kept, all := Kept(indexes, estimate, fullCap, cursor, at), Kept(indexes, estimate, fullCap, cursor, to);
            kept <= all && TotalBytes(estimate, kept) <= TotalBytes(estimate, all)
  {
    hide Kept, TotalBytes;
    KeptConcat(indexes, estimate, fullCap, cursor, at, to);
    var kept, all := Kept(indexes, estimate, fullCap, cursor, at), Kept(indexes, estimate, fullCap, cursor, to);
    TotalPrefix(estimate, all, |kept|);
  }

  lemma PackNext(indexes: seq<nat>, at: nat, size: nat, fullCap: nat, estimate: Estimate)
    requires at < |indexes|
    ensures var before := PackedTo(indexes, at, size, fullCap, estimate);
            PackedTo(indexes, at + 1, size, fullCap, estimate) ==
            if Plannable(estimate, fullCap, indexes[at]) then before.Add(estimate(indexes[at]).value, size, fullCap)
            else before
  {
  }

  lemma NoneBefore(indexes: seq<nat>, cursor: nat, at: nat, estimate: Estimate, fullCap: nat)
    requires cursor < at <= |indexes| && Kept(indexes, estimate, fullCap, cursor, at) == []
    ensures !Plannable(estimate, fullCap, indexes[cursor])
  {
    hide Kept, Plannable;
    if Plannable(estimate, fullCap, indexes[cursor]) {
      KeptFirst(indexes, estimate, fullCap, cursor, at);
    }
  }

  /** The first page of a window opens it. */
  lemma OpensWindow(w: PlannedWindow, indexes: seq<nat>, cursor: nat, at: nat, size: nat, fullCap: nat,
                    estimate: Estimate)
    requires Boundary(indexes, cursor, size, fullCap, estimate)
    requires var slot := PackedTo(indexes, cursor, size, fullCap, estimate).NextSlot();
             IsPlan(w, indexes, cursor, size, WindowCap(fullCap, slot), fullCap, estimate)
    requires cursor <= at < cursor + w.consumed && Kept(indexes, estimate, fullCap, cursor, at) == []
    requires Inside(w, indexes, cursor, at, size, fullCap, estimate)
    requires Plannable(estimate, fullCap, indexes[at])
    ensures Inside(w, indexes, cursor, at + 1, size, fullCap, estimate)
  {
    hide Kept, TotalBytes, Plannable, PackedTo, WindowCap;
    PlannableSized(estimate, fullCap, indexes[at]);
    var bytes := estimate(indexes[at]).value;
    var before := PackedTo(indexes, cursor, size, fullCap, estimate);
    KeptLast(indexes, estimate, fullCap, cursor, at + 1);
    assert [] + [indexes[at]] == [indexes[at]];
    SingleTotal(estimate, indexes[at]);
    PackNext(indexes, at, size, fullCap, estimate);
    KeptWithin(indexes, cursor, at + 1, cursor + w.consumed, estimate, fullCap);
    if cursor < at {
      NoneBefore(indexes, cursor, at, estimate, fullCap);
    }
    assert !before.Takes(bytes, size, fullCap);
    if w.mode.FullCapFallback? {
      assert w.indexes == [indexes[at]];
    }
  }

  lemma PlannableSized(estimate: Estimate, fullCap: nat, index: nat)
    requires Plannable(estimate, fullCap, index)
    ensures estimate(index).Ok? && estimate(index).value <= fullCap
  {
  }

  /** A later page of a window joins it. */
  lemma JoinsWindow(w: PlannedWindow, indexes: seq<nat>, cursor: nat, at: nat, size: nat, fullCap: nat,
                    estimate: Estimate)
    requires cursor <= |indexes|
    requires var slot := PackedTo(indexes, cursor, size, fullCap, estimate).NextSlot();
             IsPlan(w, indexes, cursor, size, WindowCap(fullCap, slot), fullCap, estimate)
    requires cursor <= at < cursor + w.consumed && Kept(indexes, estimate, fullCap, cursor, at) != []
    requires Inside(w, indexes, cursor, at, size, fullCap, estimate)
    requires Plannable(estimate, fullCap, indexes[at])
    ensures Inside(w, indexes, cursor, at + 1, size, fullCap, estimate)
  {
    hide Kept, TotalBytes, Plannable, PackedTo, WindowCap;
    var kept := Kept(indexes, estimate, fullCap, cursor, at);
    KeptLast(indexes, estimate, fullCap, cursor, at + 1);
    assert estimate(indexes[at]).Ok? by { PlannableSized(estimate, fullCap, indexes[at]); }
    TotalBytesAppend(estimate, kept, indexes[at]);
    PackNext(indexes, at, size, fullCap, estimate);
    KeptWithin(indexes, cursor, at + 1, cursor + w.consumed, estimate, fullCap);
  }

  lemma {:induction false} PackedInside(w: PlannedWindow, indexes: seq<nat>, cursor: nat, at: nat, size: nat,
                                        fullCap: nat, estimate: Estimate)
    requires Boundary(indexes, cursor, size, fullCap, estimate)
    requires var slot := PackedTo(indexes, cursor, size, fullCap, estimate).NextSlot();
             IsPlan(w, indexes, cursor, size, WindowCap(fullCap, slot), fullCap, estimate)
    requires cursor <= at <= cursor + w.consumed
    ensures Inside(w, indexes, cursor, at, size, fullCap, estimate)
    decreases at
  {
    hide Plannable, PackedTo, WindowCap, IsPlan, TotalBytes, Kept;
    if at == cursor {
      NoneKept(indexes, estimate, fullCap, cursor);
    } else {
      assert cursor + w.consumed <= |indexes| by { PlanEnds(w, indexes, cursor, size, fullCap, estimate); }
      PackedInside(w, indexes, cursor, at - 1, size, fullCap, estimate);
      if !Plannable(estimate, fullCap, indexes[at - 1]) {
        KeptLast(indexes, estimate, fullCap, cursor, at);
        PackNext(indexes, at - 1, size, fullCap, estimate);
      } else if Kept(indexes, estimate, fullCap, cursor, at - 1) == [] {
        OpensWindow(w, indexes, cursor, at - 1, size, fullCap, estimate);
      } else {
        JoinsWindow(w, indexes, cursor, at - 1, size, fullCap, estimate);
      }
    }
  }

  lemma PlanEnds(w: PlannedWindow, indexes: seq<nat>, cursor: nat, size: nat, fullCap: nat, estimate: Estimate)
    requires exists slotCap :: IsPlan(w, indexes, cursor, size, slotCap, fullCap, estimate)
    ensures cursor + w.consumed <= |indexes|
  {
  }

  /** A window planned where packing stands between two windows is the next window of the packing. */
  lemma WindowPacked(w: PlannedWindow, indexes: seq<nat>, cursor: nat, size: nat, fullCap: nat, estimate: Estimate)
    requires Boundary(indexes, cursor, size, fullCap, estimate)
    requires var slot := PackedTo(indexes, cursor, size, fullCap, estimate).NextSlot();
             IsPlan(w, indexes, cursor, size, WindowCap(fullCap, slot), fullCap, estimate)
    ensures Boundary(indexes, cursor + w.consumed, size, fullCap, estimate)
    ensures PackedTo(indexes, cursor + w.consumed, size, fullCap, estimate) ==
            Packing(|w.indexes|, w.bytes, PackedTo(indexes, cursor, size, fullCap, estimate).NextSlot(),
                    w.mode.FullCapFallback?)
  {
    hide Plannable, PackedTo, WindowCap, TotalBytes, Kept;
    PackedInside(w, indexes, cursor, cursor + w.consumed, size, fullCap, estimate);
  }

  /** Planning fails between two windows only if the document is blocked. */
  lemma StuckIsBlocked(indexes: seq<nat>, cursor: nat, size: nat, fullCap: nat, estimate: Estimate)
    requires Boundary(indexes, cursor, size, fullCap, estimate) && cursor < |indexes|
    requires NothingPlannable(indexes, cursor, |indexes|, estimate, fullCap)
    ensures Blocked(indexes, size, fullCap, estimate)
  {
    hide Plannable, PackedTo;
    assert !Plannable(estimate, fullCap, indexes[cursor]) && !Plannable(estimate, fullCap, indexes[|indexes| - 1]);
    PackedSame(indexes, cursor, |indexes|, size, fullCap, estimate);
    if cursor == 0 {
      PackedNone(indexes, size, fullCap, estimate);
    }
  }

  lemma {:induction false} PackedSame(indexes: seq<nat>, from: nat, to: nat, size: nat, fullCap: nat,
                                      estimate: Estimate)
    requires from <= to <= |indexes| && NothingPlannable(indexes, from, to, estimate, fullCap)
    ensures PackedTo(indexes, to, size, fullCap, estimate) == PackedTo(indexes, from, size, fullCap, estimate)
  {
    if from < to {
      PackedSame(indexes, from, to - 1, size, fullCap, estimate);
    }
  }

  lemma PackedNone(indexes: seq<nat>, size: nat, fullCap: nat, estimate: Estimate)
    ensures PackedTo(indexes, 0, size, fullCap, estimate) == Unpacked
  {
  }

  /** Once the windows reach the end, the document was not blocked. */
  lemma DoneIsNotBlocked(indexes: seq<nat>, size: nat, fullCap: nat, estimate: Estimate)
    requires indexes != [] && Boundary(indexes, |indexes|, size, fullCap, estimate)
    ensures !Blocked(indexes, size, fullCap, estimate)
  {
    hide Plannable, PackedTo;
  }

  /** Windows planned one behind the other from a cursor on up to an end, the first of them for `slot`. */
  ghost predicate Chain(windows: seq<PlannedWindow>, indexes: seq<nat>, cursor: nat, end: nat, slot: nat, size: nat,
                        fullCap: nat, estimate: Estimate) {
    if windows == [] then cursor == end else
    && IsPlan(windows[0], indexes, cursor, size, WindowCap(fullCap, slot), fullCap, estimate)
    && Chain(windows[1..], indexes, cursor + windows[0].consumed, end,
             if windows[0].mode.Slot? && slot == 0 then 1 else 0, size, fullCap, estimate)
  }

  lemma {:induction false} ChainPacked(windows: seq<PlannedWindow>, indexes: seq<nat>, cursor: nat, end: nat,
                                       size: nat, fullCap: nat, estimate: Estimate)
    requires Boundary(indexes, cursor, size, fullCap, estimate)
    requires var slot := PackedTo(indexes, cursor, size, fullCap, estimate).NextSlot();
             Chain(windows, indexes, cursor, end, slot, size, fullCap, estimate)
    ensures Boundary(indexes, end, size, fullCap, estimate)
    decreases |windows|
  {
    hide Boundary, PackedTo, IsPlan, WindowCap;
    if windows != [] {
      WindowPacked(windows[0], indexes, cursor, size, fullCap, estimate);
      ChainPacked(windows[1..], indexes, cursor + windows[0].consumed, end, size, fullCap, estimate);
    }
  }

  /**
   Windows planned from the first page on until none can be planned any more have taken in all pages, unless the
   document is blocked: then, and only then, pages are left and none of them can be planned.
   */
  lemma {:induction false} ChainStops(windows: seq<PlannedWindow>, indexes: seq<nat>, end: nat, size: nat,
                                      fullCap: nat, estimate: Estimate)
    requires indexes != [] && Chain(windows, indexes, 0, end, 0, size, fullCap, estimate)
    requires end <= |indexes| && NothingPlannable(indexes, end, |indexes|, estimate, fullCap)
    ensures end < |indexes| <==> Blocked(indexes, size, fullCap, estimate)
  {
    hide Plannable, IsPlan, WindowCap, Chain, NothingPlannable, Blocked;
    PackedNone(indexes, size, fullCap, estimate);
    ChainPacked(windows, indexes, 0, end, size, fullCap, estimate);
    if end < |indexes| {
      StuckIsBlocked(indexes, end, size, fullCap, estimate);
    } else {
      DoneIsNotBlocked(indexes, size, fullCap, estimate);
    }
  }

  // ---------------------------------------------------------------- which window sizes go through

  lemma {:induction false} OnePageEach(indexes: seq<nat>, to: nat, fullCap: nat, estimate: Estimate)
    requires to <= |indexes|
    ensures var last := PackedTo(indexes, to, 1, fullCap, estimate); last.Packing? ==> last.pages == 1
  {
    if to > 0 {
      OnePageEach(indexes, to - 1, fullCap, estimate);
    }
  }

  /** A document goes through with windows of any size exactly if its last page can be planned. */
  lemma EverySizeGoesThrough(indexes: seq<nat>, fullCap: nat, estimate: Estimate)
    requires indexes != []
    ensures (forall size | size > 0 :: !Blocked(indexes, size, fullCap, estimate)) <==>
            Plannable(estimate, fullCap, indexes[|indexes| - 1])
  {
    OnePageEach(indexes, |indexes|, fullCap, estimate);
    assert !Plannable(estimate, fullCap, indexes[|indexes| - 1]) ==> Blocked(indexes, 1, fullCap, estimate);
  }

  lemma ModNext(n: nat, size: nat)
    requires size > 0
    ensures (n + 1) % size == if n % size == size - 1 then 0 else n % size + 1
  {
    var q := n / size;
    assert n == q * size + n % size;
    if n % size == size - 1 {
      assert n + 1 == (q + 1) * size;
      ModUnique(n + 1, q + 1, 0, size);
    } else {
      ModUnique(n + 1, q, n % size + 1, size);
    }
  }

  lemma ModUnique(n: nat, q: nat, r: nat, size: nat)
    requires r < size && n == q * size + r
    ensures n % size == r
  {
    var quotient := n / size;
    assert quotient * size == n - n % size;
    if quotient > q {
      Multiples(q, quotient, size);
    } else if quotient < q {
      Multiples(quotient, q, size);
    }
  }

  /** Multiples are at least one size apart. */
  lemma Multiples(a: nat, b: nat, size: nat)
    requires a < b
    ensures a * size + size <= b * size
  {
    var more := b - a - 1;
    assert b * size == (a + 1 + more) * size == a * size + size + more * size;
    assert more * size >= 0;
  }

  /** Pages that fit the first slot together fill windows by their number alone. */
  lemma {:induction false} PackedByNumber(indexes: seq<nat>, to: nat, size: nat, fullCap: nat, estimate: Estimate)
    requires to <= |indexes| && size > 0
    requires TotalBytes(estimate, Kept(indexes, estimate, fullCap, 0, to)) <= WindowCap(fullCap, 0)
    ensures var kept, last := Kept(indexes, estimate, fullCap, 0, to), PackedTo(indexes, to, size, fullCap, estimate);
            if kept == [] then last == Unpacked
            else last.Packing? && !last.alone && last.bytes <= TotalBytes(estimate, kept) &&
                 last.pages == (|kept| - 1) % size + 1
  {
    hide Plannable, WindowCap, TotalBytes, Kept, PackedTo;
    if to == 0 {
      NoneKept(indexes, estimate, fullCap, 0);
      PackedNone(indexes, size, fullCap, estimate);
    } else {
      var kept := Kept(indexes, estimate, fullCap, 0, to - 1);
      KeptLast(indexes, estimate, fullCap, 0, to);
      KeptWithin(indexes, 0, to - 1, to, estimate, fullCap);
      PackedByNumber(indexes, to - 1, size, fullCap, estimate);
      PackNext(indexes, to - 1, size, fullCap, estimate);
      FirstSlotSmallest(fullCap);
      if Plannable(estimate, fullCap, indexes[to - 1]) {
        PlannableSized(estimate, fullCap, indexes[to - 1]);
        TotalBytesAppend(estimate, kept, indexes[to - 1]);
        if kept != [] {
          ModNext(|kept| - 1, size);
        } else {
          ModUnique(0, 0, 0, size);
        }
      }
    }
  }

  lemma FirstSlotSmallest(fullCap: nat)
    ensures forall slot :: WindowCap(fullCap, 0) <= WindowCap(fullCap, slot)
  {
  }

  /**
   How much the window size matters: of documents whose pages fit the first slot together and whose last page
   cannot be planned, exactly those go through whose pages do not fill the last window.
   */
  lemma WindowSizeDecides(indexes: seq<nat>, size: nat, fullCap: nat, estimate: Estimate)
    requires indexes != [] && size > 0 && !Plannable(estimate, fullCap, indexes[|indexes| - 1])
    requires TotalBytes(estimate, Kept(indexes, estimate, fullCap, 0, |indexes|)) <= WindowCap(fullCap, 0)
    ensures Blocked(indexes, size, fullCap, estimate) <==>
            |Kept(indexes, estimate, fullCap, 0, |indexes|)| % size == 0
  {
    hide Plannable, WindowCap, TotalBytes, Kept, PackedTo;
    var kept := Kept(indexes, estimate, fullCap, 0, |indexes|);
    PackedByNumber(indexes, |indexes|, size, fullCap, estimate);
    if kept != [] {
      ModNext(|kept| - 1, size);
    } else {
      ModUnique(0, 0, 0, size);
    }
  }
}
