/**
 The loop that drives a document through planning, rendering, the model and staging.

 Two half-budget slots alternate: while one window is with the model or being staged, the next one is
 rendered into the other slot.  A page too large for a slot takes the whole budget and runs alone.
 */
module RoutePipeline {
  import opened Wrappers
  import opened RoutePlanner
  import opened RenderWindow
  import opened OutputStage

  datatype WindowState = WindowState(plan: PlannedWindow, rendered: seq<RenderedPage>)

  datatype PrefetchState =
    | NoPrefetch
    | Rendered(window: WindowState)
    | PendingFallback(plan: PlannedWindow)

  datatype RouteError =
    | DeadlinePassed
    | PlanFailed(plan: PlanError)
    | RenderingFailed(render: RenderError)
    | ModelFailed
    | UnexpectedPageCount
    | InFlightLimit
    | InvalidPrefetchState
    | StageFailed(stage: StageError)

  /** The document and its limits, fixed for a run. */
  datatype Route = Route(indexes: seq<nat>, size: nat, fullCap: nat, estimate: Estimate, renderer: Renderer,
      workers: nat, world: World) {
    /** The page range is not empty and the options have been validated. */
    ghost predicate Valid() {
      Increasing(indexes) && indexes != [] && size > 0 && fullCap > 0
    }

    function SlotCap(slot: nat): nat {
      RoutePlanner.SlotCap(fullCap, slot)
    }

    predicate Overlaps() {
      RoutePlanner.Overlaps(fullCap)
    }

    /** Packing the pages before `to` into windows. */
    ghost function Packed(to: nat): Packing
      requires to <= |indexes|
    {
      PackedTo(indexes, to, size, fullCap, estimate)
    }

    ghost predicate AtBoundary(cursor: nat) {
      Boundary(indexes, cursor, size, fullCap, estimate)
    }

    /** Whether planning is bound to fail, as it can be told from the sizes of the pages. */
    predicate CannotBePlanned()
      requires indexes != []
    {
      Blocked(indexes, size, fullCap, estimate)
    }

    /** The pages a run outputs: those the planner does not skip. */
    ghost function Output(to: nat): seq<nat>
      requires to <= |indexes|
    {
      Kept(indexes, estimate, fullCap, 0, to)
    }

    /** A window the planner forms on its way through the pages. */
    ghost predicate IsPlanned(w: PlannedWindow) {
      exists cursor: nat :: AtBoundary(cursor) && PlannedAt(w, cursor)
    }

    ghost predicate PlannedAt(w: PlannedWindow, cursor: nat)
      requires cursor <= |indexes|
    {
      IsPlan(w, indexes, cursor, size, WindowCap(fullCap, Packed(cursor).NextSlot()), fullCap, estimate)
    }

    /** A window that ends the run: the task of one of its pages is lost, or none of its pages renders. */
    ghost predicate CannotRender(w: PlannedWindow) {
      || SomeTaskLost(w.indexes, estimate, renderer, fullCap)
      || forall x :: x in w.indexes ==> !RenderWindow.Renders(x, estimate, renderer, fullCap)
    }

    ghost predicate Renders(window: WindowState) {
      IsRendering(window.rendered, window.plan.indexes, estimate, renderer, fullCap)
    }
  }

  // ---------------------------------------------------------------- memory

  ghost function ResidentBytes(windows: seq<PlannedWindow>): nat {
    if windows == [] then 0 else windows[0].bytes + ResidentBytes(windows[1..])
  }

  /** The windows in memory fit the budget together, and a fallback window is alone. */
  ghost predicate Fits(windows: seq<PlannedWindow>, fullCap: nat) {
    ResidentBytes(windows) <= fullCap &&
    forall w :: w in windows && w.mode.FullCapFallback? ==> |windows| == 1
  }

  ghost predicate AllFit(history: seq<seq<PlannedWindow>>, fullCap: nat) {
    forall windows :: windows in history ==> Fits(windows, fullCap)
  }

  /** The pages admitted to memory, in the order of admission. */
  ghost function Admitted(history: seq<seq<PlannedWindow>>): seq<nat> {
    if history == [] then []
    else
      var last := history[|history| - 1];
      Admitted(history[..|history| - 1]) + if last == [] then [] else last[|last| - 1].indexes
  }

  lemma AdmittedAppend(history: seq<seq<PlannedWindow>>, before: seq<PlannedWindow>, plan: PlannedWindow)
    ensures Admitted(history + [before + [plan]]) == Admitted(history) + plan.indexes
  {
    assert (history + [before + [plan]])[..|history|] == history;
  }

  lemma OneFits(w: PlannedWindow, fullCap: nat)
    requires w.bytes <= fullCap
    ensures Fits([w], fullCap)
  {
    assert [w][1..] == [];
  }

  lemma TwoFit(a: PlannedWindow, b: PlannedWindow, fullCap: nat)
    requires a.mode.Slot? && b.mode.Slot? && a.bytes + b.bytes <= fullCap
    ensures Fits([a, b], fullCap)
  {
    assert [a, b][1..] == [b] && [b][1..] == [];
    assert ResidentBytes([b]) == b.bytes + ResidentBytes([]);
  }

  lemma AllFitAppend(history: seq<seq<PlannedWindow>>, windows: seq<PlannedWindow>, fullCap: nat)
    requires AllFit(history, fullCap) && Fits(windows, fullCap)
    ensures AllFit(history + [windows], fullCap)
  {
    hide Fits;
  }

  ghost predicate SomeWindowFails(route: Route, history: seq<seq<PlannedWindow>>) {
    exists windows, w :: windows in history && w in windows && route.IsPlanned(w) && route.CannotRender(w)
  }

  ghost predicate AllRender(route: Route, history: seq<seq<PlannedWindow>>) {
    forall windows, w :: windows in history && w in windows ==> !route.CannotRender(w)
  }

  lemma FailsInHistory(route: Route, history: seq<seq<PlannedWindow>>, before: seq<PlannedWindow>, w: PlannedWindow)
    requires route.IsPlanned(w) && route.CannotRender(w)
    ensures SomeWindowFails(route, history + [before + [w]])
  {
    assert before + [w] in history + [before + [w]];
  }

  lemma AllRenderAppend(route: Route, history: seq<seq<PlannedWindow>>, before: seq<PlannedWindow>, w: PlannedWindow)
    requires AllRender(route, history) && !route.CannotRender(w)
    requires forall v :: v in before ==> !route.CannotRender(v)
    ensures AllRender(route, history + [before + [w]])
  {
  }

  // ---------------------------------------------------------------- the invariant of the loop

  ghost function PrefetchPages(prefetch: PrefetchState): seq<nat> {
    match prefetch
    case NoPrefetch => []
    case Rendered(window) => window.plan.indexes
    case PendingFallback(plan) => plan.indexes
  }

  /**
   What `next_slot` stands for: a rendered prefetch fits the slot that is next, so the window planned
   beside it goes into the other one; a pending fallback resumes at the first slot.
   */
  ghost predicate SlotInvariant(route: Route, nextSlot: nat, prefetch: PrefetchState,
                                snapshots: Option<seq<Snapshot>>) {
    && nextSlot <= 1
    && match prefetch
       case NoPrefetch => true
       case Rendered(window) =>
         && route.Overlaps() && window.plan.mode.Slot? && window.plan.bytes <= route.SlotCap(nextSlot)
         && Increasing(window.plan.indexes) && route.Renders(window)
         && snapshots.Some? && SnapshotsOf(snapshots.value, window.rendered)
       case PendingFallback(plan) =>
         route.Overlaps() && nextSlot == 0 && plan.mode.FullCapFallback? && plan.bytes <= route.fullCap
             && Increasing(plan.indexes) && route.IsPlanned(plan)
  }

  /** Where planning stands at the cursor: the last window was a fallback, or was planned for `slot`. */
  ghost predicate PlannedTo(route: Route, cursor: nat, mode: PlanMode, slot: nat) {
    && route.AtBoundary(cursor)
    && var last := route.Packed(cursor);
    && last.Packing? && last.alone == mode.FullCapFallback?
    && (route.Overlaps() ==> if mode.Slot? then last.slot == slot else slot == 0)
  }

  ghost predicate PlanInvariant(route: Route, nextSlot: nat, prefetch: PrefetchState, cursor: nat) {
    match prefetch
    case NoPrefetch =>
      route.AtBoundary(cursor) &&
      (route.Overlaps() && cursor < |route.indexes| ==> nextSlot == route.Packed(cursor).NextSlot() == 0)
    case Rendered(_) => PlannedTo(route, cursor, Slot, nextSlot)
    case PendingFallback(_) => PlannedTo(route, cursor, FullCapFallback, nextSlot)
  }

  /** The windows in memory between two rounds, and the pages that have been there. */
  ghost predicate MemoryInvariant(route: Route, memory: WindowMemory, prefetch: PrefetchState, cursor: nat)
    requires cursor <= |route.indexes|
    reads memory
  {
    && memory.resident == Held(prefetch)
    && AllFit(memory.history, route.fullCap) && AllRender(route, memory.history)
    && (prefetch.Rendered? ==> !route.CannotRender(prefetch.window.plan))
    && Admitted(memory.history) + (if prefetch.PendingFallback? then prefetch.plan.indexes else [])
       == route.Output(cursor)
  }

  ghost function Held(prefetch: PrefetchState): seq<PlannedWindow> {
    if prefetch.Rendered? then [prefetch.window.plan] else []
  }

  /** Everything up to the cursor is staged or waits in the prefetch, in order; nothing else is. */
  ghost predicate StageInvariant(route: Route, stage: OfficialOutputStage, cursor: nat, waiting: seq<nat>,
                                 completed: nat)
    reads stage
  {
    && cursor <= |route.indexes|
    && stage.pages + waiting == route.Output(cursor)
    && stage.previewPages == stage.pages
    && StagedAs(stage.staged, stage.pages, route.estimate, route.renderer, route.fullCap)
    && completed == |stage.pages|
    && (cursor > 0 ==> route.Output(cursor) != [])
  }

  /** A planned window continues the output where the cursor stood. */
  lemma PlanContinues(route: Route, w: PlannedWindow, cursor: nat, slotCap: nat)
    requires route.Valid() && IsPlan(w, route.indexes, cursor, route.size, slotCap, route.fullCap, route.estimate)
    ensures cursor + w.consumed <= |route.indexes|
    ensures route.Output(cursor + w.consumed) == route.Output(cursor) + w.indexes
    ensures Increasing(w.indexes) && w.indexes != []
    ensures w.bytes <= Max(slotCap, route.fullCap)
  {
    hide Plannable, Kept, TotalBytes, Increasing;
    KeptConcat(route.indexes, route.estimate, route.fullCap, 0, cursor, cursor + w.consumed);
    KeptIncreasing(route.indexes, route.estimate, route.fullCap, cursor, cursor + w.consumed);
  }

  lemma OutputIncreasing(route: Route, to: nat)
    requires route.Valid() && to <= |route.indexes|
    ensures Increasing(route.Output(to))
  {
    KeptIncreasing(route.indexes, route.estimate, route.fullCap, 0, to);
  }

  // ---------------------------------------------------------------- the steps

  /** A window planned for the slot that is next moves planning on. */
  lemma PlanMoves(route: Route, w: PlannedWindow, cursor: nat, slot: nat)
    requires route.Valid() && route.AtBoundary(cursor)
    requires route.Overlaps() ==> slot == route.Packed(cursor).NextSlot() && (slot == 0 || w.mode.Slot?)
    requires var slotCap := if route.Overlaps() then route.SlotCap(slot) else route.fullCap;
             IsPlan(w, route.indexes, cursor, route.size, slotCap, route.fullCap, route.estimate)
    ensures PlannedTo(route, cursor + w.consumed, w.mode, slot)
  {
    hide IsPlan, Boundary, PackedTo;
    WindowPacked(w, route.indexes, cursor, route.size, route.fullCap, route.estimate);
  }

  /** Plans the window at the cursor for a slot, or for the whole budget when the slots do not overlap. */
  method PlanRouteWindow(route: Route, cursor: nat, slotCap: nat) returns (r: Result<PlannedWindow, RouteError>)
    requires route.Valid() && cursor < |route.indexes| && 0 < slotCap <= route.fullCap
    requires route.AtBoundary(cursor)
    ensures r.Ok? ==> IsPlan(r.value, route.indexes, cursor, route.size, slotCap, route.fullCap, route.estimate)
    ensures r.Err? ==> FailsToPlan(route, r.error)
  {
    var planned := PlanWindow(route.indexes, cursor, route.size, slotCap, route.fullCap, route.estimate);
    if planned.Ok? {
      return Ok(planned.value.0);
    }
    if 2 * route.fullCap <= USIZE_MAX {
      StuckIsBlocked(route.indexes, cursor, route.size, route.fullCap, route.estimate);
    }
    r := Err(PlanFailed(planned.error));
  }

  /** Planning fails only where it has to, as long as byte counts do not overflow. */
  ghost predicate FailsToPlan(route: Route, error: RouteError)
    requires route.indexes != []
  {
    error.PlanFailed? && (2 * route.fullCap <= USIZE_MAX ==> route.CannotBePlanned())
  }

  /**
   Why a run may fail: the document cannot be planned, a window could not be rendered, or the world was rough.  None
   of the loop's own checks is among the reasons.
   */
  ghost predicate Justified(route: Route, error: RouteError, history: seq<seq<PlannedWindow>>)
    requires route.indexes != []
  {
    match error
    case PlanFailed(_) => FailsToPlan(route, error)
    case RenderingFailed(_) => SomeWindowFails(route, history)
    case StageFailed(reason) => route.world.Rough? && reason in {Io, Timeout}
    case InFlightLimit => false
    case InvalidPrefetchState => false
    case DeadlinePassed => route.world.Rough?
    case ModelFailed => route.world.Rough?
    case UnexpectedPageCount => route.world.Rough?
  }

  /**
   Renders a planned window into memory; a timeout, a lost task, or a window none of whose pages renders, ends the run.
   */
  method RenderRouteWindow(route: Route, plan: PlannedWindow, ghost memory: WindowMemory)
    returns (r: Result<WindowState, RouteError>)
    requires Fits(memory.resident + [plan], route.fullCap) && plan.indexes != []
    modifies memory
    ensures memory.history == old(memory.history) + [old(memory.resident) + [plan]]
    ensures memory.resident == old(memory.resident) + [plan]
    ensures r.Ok? ==> r.value.plan == plan && route.Renders(r.value) && !route.CannotRender(plan)
    ensures r.Err? ==>
              (r.error.DeadlinePassed? && route.world.Rough?) || (r.error.RenderingFailed? && route.CannotRender(plan))
  {
    memory.Admit(plan);
    var late: bool := *;
    if route.world.Rough? && late {
      return Err(DeadlinePassed);
    }
    var rendering := RenderWindowCore(plan.indexes, route.estimate, route.renderer, route.fullCap, route.workers,
                                      true, true);
    r := if rendering.Ok? then Ok(WindowState(plan, rendering.value.0)) else Err(RenderingFailed(rendering.error));
  }

  /**
   Asks the model about pictures.  In a calm world it answers about each in turn; in a rough one it may fail or answer
   a wrong number of times.
   */
  method AskModel(images: seq<Image>, world: World) returns (r: Result<seq<Snapshot>, RouteError>)
    ensures r.Ok? ==> forall k :: 0 <= k < |images| && k < |r.value| ==> r.value[k].of == images[k]
    ensures r.Err? ==> world.Rough? && (r.error.ModelFailed? || r.error.DeadlinePassed?)
    ensures world.Calm? ==> |r.value| == |images|
  {
    var late: bool, fails: bool := *, *;
    if world.Rough? && late {
      return Err(DeadlinePassed);
    }
    if world.Rough? && fails {
      return Err(ModelFailed);
    }
    var count: nat :| world.Calm? ==> count == |images|;
    var answers: seq<Snapshot> := [];
    while |answers| < count
      invariant |answers| <= count && forall k :: 0 <= k < |images| && k < |answers| ==> answers[k].of == images[k]
      decreases count - |answers|
    {
      var content: int := *;
      var page: nat :| true;
      answers := answers + [Snapshot(if |answers| < |images| then images[|answers|] else Image(page), content)];
    }
    r := Ok(answers);
  }

  /** The snapshots of a window in memory, if the model answered once per rendered page. */
  method AskAbout(window: WindowState, world: World, ghost memory: WindowMemory)
    returns (r: Result<seq<Snapshot>, RouteError>)
    requires window.plan in memory.resident
    ensures r.Ok? ==> SnapshotsOf(r.value, window.rendered)
    ensures r.Err? ==>
              world.Rough? && (r.error.ModelFailed? || r.error.DeadlinePassed? || r.error.UnexpectedPageCount?)
  {
    var images := seq(|window.rendered|, k requires 0 <= k < |window.rendered| => window.rendered[k].image);
    var answers := AskModel(images, world);
    if answers.Err? {
      return Err(answers.error);
    }
    if |answers.value| != |window.rendered| {
      return Err(UnexpectedPageCount);
    }
    r := Ok(answers.value);
  }

  /** The window being worked on: rendered, within the budget, and in its slot if the slots overlap. */
  ghost predicate CurrentInvariant(route: Route, nextSlot: nat, current: WindowState,
                                   snapshots: Option<seq<Snapshot>>) {
    && route.Renders(current) && Increasing(current.plan.indexes)
    && current.plan.bytes <= route.fullCap
    && (route.Overlaps() && current.plan.mode.Slot? ==> current.plan.bytes <= route.SlotCap(nextSlot))
    && (snapshots.Some? ==> SnapshotsOf(snapshots.value, current.rendered))
  }

  /** Slots of one run share the budget: whatever is planned beside the current window fits with it. */
  lemma NextFitsBeside(route: Route, nextSlot: nat, current: WindowState, snapshots: Option<seq<Snapshot>>,
                       next: PlannedWindow, cursor: nat)
    requires CurrentInvariant(route, nextSlot, current, snapshots) && nextSlot <= 1
    requires route.Overlaps() && current.plan.mode.Slot? && next.mode.Slot?
    requires IsPlan(next, route.indexes, cursor, route.size, route.SlotCap(1 - nextSlot), route.fullCap, route.estimate)
    ensures current.plan.bytes + next.bytes <= route.fullCap
    ensures Fits([current.plan, next], route.fullCap)
  {
    TwoFit(current.plan, next, route.fullCap);
  }

  /** Takes the prefetched window, renders a pending fallback, or plans and renders at the cursor. */
  method TakeCurrent(route: Route, cursor: nat, nextSlot: nat, prefetch: PrefetchState,
                     snapshots: Option<seq<Snapshot>>, ghost memory: WindowMemory)
    returns (r: Result<(WindowState, Option<seq<Snapshot>>), RouteError>, moved: nat)
    requires route.Valid() && SlotInvariant(route, nextSlot, prefetch, snapshots)
    requires cursor <= |route.indexes| && (prefetch.NoPrefetch? ==> cursor < |route.indexes|)
    requires PlanInvariant(route, nextSlot, prefetch, cursor) && MemoryInvariant(route, memory, prefetch, cursor)
    modifies memory
    ensures nextSlot <= 1 && cursor <= moved <= |route.indexes|
    ensures if prefetch.NoPrefetch? then r.Ok? ==> cursor < moved else moved == cursor
    ensures r.Ok? ==> CurrentInvariant(route, nextSlot, r.value.0, r.value.1)
    ensures r.Ok? ==> PlannedTo(route, moved, r.value.0.plan.mode, nextSlot)
    ensures r.Ok? ==> memory.resident == [r.value.0.plan] && Admitted(memory.history) == route.Output(moved)
    ensures AllFit(memory.history, route.fullCap)
    ensures r.Ok? ==> if prefetch.NoPrefetch? then route.Output(moved) == route.Output(cursor) + r.value.0.plan.indexes
                      else r.value.0.plan.indexes == PrefetchPages(prefetch)
    ensures r.Ok? && prefetch.NoPrefetch? ==> r.value.0.plan.indexes != []
    ensures r.Ok? ==> AllRender(route, memory.history) && !route.CannotRender(r.value.0.plan)
    ensures r.Err? ==> Justified(route, r.error, memory.history)
  {
    hide Kept, IsRendering, Increasing, Boundary, PackedTo, Blocked, Fits, AllFit, Admitted, IsPlan, AllRender,
      SomeWindowFails, SomeTaskLost;
    moved := cursor;
    match prefetch
    case Rendered(window) =>
      r := Ok((window, snapshots));
    case PendingFallback(plan) =>
      PlannedNotEmpty(route, plan);
      r := RenderAlone(route, plan, memory);
    case NoPrefetch =>
      var slotCap := if route.Overlaps() then route.SlotCap(nextSlot) else route.fullCap;
      var plan := PlanRouteWindow(route, cursor, slotCap);
      if plan.Err? {
        return Err(plan.error), cursor;
      }
      PlanContinues(route, plan.value, cursor, slotCap);
      PlanMoves(route, plan.value, cursor, nextSlot);
      PlanInCap(route, plan.value, cursor, slotCap);
      PlannedHere(route, plan.value, cursor, nextSlot);
      moved := cursor + plan.value.consumed;
      r := RenderAlone(route, plan.value, memory);
  }

  /** A window planned for the slot that is next is one the planner forms on its way. */
  lemma PlannedHere(route: Route, w: PlannedWindow, cursor: nat, slot: nat)
    requires route.AtBoundary(cursor)
    requires route.Overlaps() ==> slot == route.Packed(cursor).NextSlot()
    requires var slotCap := if route.Overlaps() then route.SlotCap(slot) else route.fullCap;
             IsPlan(w, route.indexes, cursor, route.size, slotCap, route.fullCap, route.estimate)
    ensures route.IsPlanned(w)
  {
    hide IsPlan, PackedTo;
    assert route.PlannedAt(w, cursor);
  }

  lemma PlannedNotEmpty(route: Route, w: PlannedWindow)
    requires route.IsPlanned(w)
    ensures w.indexes != []
  {
  }

  lemma PlanInCap(route: Route, w: PlannedWindow, cursor: nat, slotCap: nat)
    requires IsPlan(w, route.indexes, cursor, route.size, slotCap, route.fullCap, route.estimate)
    ensures w.mode.Slot? ==> w.bytes <= slotCap
    ensures w.mode.FullCapFallback? ==> w.bytes <= route.fullCap
    ensures w.consumed > 0
  {
    hide Kept, TotalBytes;
  }

  /** Renders a window into the empty memory. */
  method RenderAlone(route: Route, plan: PlannedWindow, ghost memory: WindowMemory)
    returns (r: Result<(WindowState, Option<seq<Snapshot>>), RouteError>)
    requires plan.bytes <= route.fullCap && memory.resident == [] && AllFit(memory.history, route.fullCap)
    requires route.indexes != [] && plan.indexes != [] && route.IsPlanned(plan) && AllRender(route, memory.history)
    modifies memory
    ensures AllFit(memory.history, route.fullCap)
    ensures memory.resident == [plan] && Admitted(memory.history) == old(Admitted(memory.history)) + plan.indexes
    ensures r.Ok? ==> r.value.0.plan == plan && r.value.1 == None && route.Renders(r.value.0)
    ensures r.Ok? ==> AllRender(route, memory.history) && !route.CannotRender(plan)
    ensures r.Err? ==> Justified(route, r.error, memory.history)
  {
    hide Fits, AllFit, Admitted, IsRendering, AllRender, SomeWindowFails, SomeTaskLost, Boundary;
    OneFits(plan, route.fullCap);
    assert [] + [plan] == [plan];
    AllFitAppend(memory.history, [plan], route.fullCap);
    AdmittedAppend(memory.history, [], plan);
    if route.CannotRender(plan) {
      FailsInHistory(route, memory.history, [], plan);
    } else {
      AllRenderAppend(route, memory.history, [], plan);
    }
    var state := RenderRouteWindow(route, plan, memory);
    r := if state.Ok? then Ok((state.value, None)) else Err(state.error);
  }

  datatype NextPlan = NoNext | Beside(plan: PlannedWindow) | Afterwards(plan: PlannedWindow)

  /** What is planned as the next window, with the cursor behind it. */
  ghost predicate IsNext(next: NextPlan, route: Route, cursor: nat, moved: nat, nextSlot: nat, current: WindowState) {
    && nextSlot <= 1 && cursor <= moved <= |route.indexes|
    && match next
       case NoNext => moved == cursor && !(route.Overlaps() && current.plan.mode.Slot? && cursor < |route.indexes|)
       case Beside(plan) =>
         && route.Overlaps() && current.plan.mode.Slot? && plan.mode.Slot? && cursor < moved
         && IsPlan(plan, route.indexes, cursor, route.size, route.SlotCap(1 - nextSlot), route.fullCap,
                   route.estimate)
         && Increasing(plan.indexes) && route.Output(moved) == route.Output(cursor) + plan.indexes
         && PlannedTo(route, moved, Slot, 1 - nextSlot) && route.IsPlanned(plan)
       case Afterwards(plan) =>
         && route.Overlaps() && plan.mode.FullCapFallback? && plan.bytes <= route.fullCap && cursor < moved
         && Increasing(plan.indexes) && route.Output(moved) == route.Output(cursor) + plan.indexes
         && PlannedTo(route, moved, FullCapFallback, 0) && route.IsPlanned(plan)
  }

  /** Plans what comes next into the other slot; a fallback has to wait until the current window is done. */
  method PlanNext(route: Route, cursor: nat, nextSlot: nat, current: WindowState)
    returns (r: Result<NextPlan, RouteError>, moved: nat)
    requires route.Valid() && cursor <= |route.indexes| && nextSlot <= 1
    requires PlannedTo(route, cursor, current.plan.mode, nextSlot)
    ensures r.Ok? ==> IsNext(r.value, route, cursor, moved, nextSlot, current)
    ensures r.Err? ==> FailsToPlan(route, r.error)
  {
    hide Kept, Increasing, Boundary, PackedTo, Blocked, IsPlan;
    if !(route.Overlaps() && current.plan.mode == Slot && cursor < |route.indexes|) {
      return Ok(NoNext), cursor;
    }
    var plan := PlanRouteWindow(route, cursor, route.SlotCap(1 - nextSlot));
    if plan.Err? {
      return Err(plan.error), cursor;
    }
    PlanContinues(route, plan.value, cursor, route.SlotCap(1 - nextSlot));
    PlanInCap(route, plan.value, cursor, route.SlotCap(1 - nextSlot));
    NextMoves(route, plan.value, cursor, nextSlot);
    moved := cursor + plan.value.consumed;
    r := Ok(if plan.value.mode == Slot then Beside(plan.value) else Afterwards(plan.value));
  }

  /** The window planned beside one in a slot belongs to the other slot; behind a fallback slots start anew. */
  lemma NextMoves(route: Route, w: PlannedWindow, cursor: nat, nextSlot: nat)
    requires route.Valid() && route.Overlaps() && nextSlot <= 1 && PlannedTo(route, cursor, Slot, nextSlot)
    requires IsPlan(w, route.indexes, cursor, route.size, route.SlotCap(1 - nextSlot), route.fullCap, route.estimate)
    ensures PlannedTo(route, cursor + w.consumed, w.mode, if w.mode.Slot? then 1 - nextSlot else 0)
    ensures route.IsPlanned(w)
  {
    hide IsPlan, Boundary, PackedTo;
    PlannedHere(route, w, cursor, 1 - nextSlot);
    WindowPacked(w, route.indexes, cursor, route.size, route.fullCap, route.estimate);
  }

  // ---------------------------------------------------------------- the loop

  /** Renders the next window beside the current one. */
  method RenderBeside(route: Route, nextSlot: nat, current: WindowState, ghost pending: Option<seq<Snapshot>>,
                      next: PlannedWindow, ghost cursor: nat, ghost memory: WindowMemory)
    returns (r: Result<WindowState, RouteError>)
    requires CurrentInvariant(route, nextSlot, current, pending) && nextSlot <= 1
    requires route.Overlaps() && current.plan.mode.Slot? && next.mode.Slot?
    requires IsPlan(next, route.indexes, cursor, route.size, route.SlotCap(1 - nextSlot), route.fullCap, route.estimate)
    requires memory.resident == [current.plan] && AllFit(memory.history, route.fullCap)
    requires route.indexes != [] && route.IsPlanned(next)
    requires AllRender(route, memory.history) && !route.CannotRender(current.plan)
    modifies memory
    ensures AllFit(memory.history, route.fullCap)
    ensures memory.resident == [current.plan, next]
    ensures Admitted(memory.history) == old(Admitted(memory.history)) + next.indexes
    ensures r.Ok? ==> r.value.plan == next && route.Renders(r.value)
    ensures r.Ok? ==> AllRender(route, memory.history) && !route.CannotRender(next)
    ensures r.Err? ==> Justified(route, r.error, memory.history)
  {
    PlannedNotEmpty(route, next);
    hide Kept, IsRendering, IsPlan, Fits, AllFit, Admitted, SplitImageSlotCaps, AllRender, SomeWindowFails,
      SomeTaskLost, Boundary;
    NextFitsBeside(route, nextSlot, current, pending, next, cursor);
    if current.plan.bytes + next.bytes > route.fullCap {
      return Err(InFlightLimit);
    }
    assert [current.plan] + [next] == [current.plan, next];
    AllFitAppend(memory.history, [current.plan, next], route.fullCap);
    AdmittedAppend(memory.history, [current.plan], next);
    if route.CannotRender(next) {
      FailsInHistory(route, memory.history, [current.plan], next);
    } else {
      AllRenderAppend(route, memory.history, [current.plan], next);
    }
    r := RenderRouteWindow(route, next, memory);
  }

  /** Stages the oldest window in memory; then its pictures are gone. */
  method StageCurrent(route: Route, stage: OfficialOutputStage, current: WindowState, snapshots: seq<Snapshot>,
                      done: nat, ghost memory: WindowMemory)
    returns (r: Result<nat, RouteError>)
    requires Increasing(current.plan.indexes) && route.Renders(current)
    requires SnapshotsOf(snapshots, current.rendered)
    requires Increasing(stage.pages + current.plan.indexes) && stage.previewPages == stage.pages
    requires StagedAs(stage.staged, stage.pages, route.estimate, route.renderer, route.fullCap)
    requires memory.resident != [] && memory.resident[0] == current.plan && stage.world == route.world
    modifies stage, memory`resident
    ensures r.Ok? ==> memory.resident == old(memory.resident)[1..]
    ensures r.Ok? ==> stage.pages == stage.previewPages == old(stage.pages) + current.plan.indexes
    ensures r.Ok? ==> StagedAs(stage.staged, stage.pages, route.estimate, route.renderer, route.fullCap)
    ensures r.Ok? ==> r.value == done + |current.plan.indexes|
    ensures r.Err? ==> r.error.StageFailed? && route.world.Rough? && r.error.stage in {Io, Timeout}
  {
    hide IsRendering, Increasing, StagedAs, SnapshotsOf;
    var staged := StageWindow(stage, current.plan, current.rendered, snapshots,
                              route.estimate, route.renderer, route.fullCap, done, memory);
    if staged.Err? {
      return Err(StageFailed(staged.error));
    }
    memory.Release(current.plan);
    r := Ok(staged.value);
  }

  /** What is left of the model's work on the current window, beside rendering the next one. */
  method PhaseA(route: Route, nextSlot: nat, current: WindowState, pending: Option<seq<Snapshot>>, next: NextPlan,
                ghost cursor: nat, ghost moved: nat, ghost memory: WindowMemory)
    returns (r: Result<(PrefetchState, seq<Snapshot>), RouteError>)
    requires CurrentInvariant(route, nextSlot, current, pending)
    requires IsNext(next, route, cursor, moved, nextSlot, current)
    requires memory.resident == [current.plan] && AllFit(memory.history, route.fullCap)
    requires route.indexes != [] && AllRender(route, memory.history) && !route.CannotRender(current.plan)
    modifies memory
    ensures AllFit(memory.history, route.fullCap)
    ensures r.Ok? ==> AllRender(route, memory.history)
    ensures r.Ok? ==> SnapshotsOf(r.value.1, current.rendered) && Prefetched(route, r.value.0, next)
    ensures r.Ok? ==> memory.resident == [current.plan] + Held(r.value.0)
    ensures r.Ok? ==> Admitted(memory.history) == old(Admitted(memory.history)) + PrefetchPages(r.value.0)
    ensures r.Err? ==> Justified(route, r.error, memory.history)
  {
    hide Kept, IsRendering, Increasing, IsPlan, Fits, AllFit, Admitted, PlannedTo, SnapshotsOf, AllRender,
      SomeWindowFails, SomeTaskLost;
    var prefetch := NoPrefetch;
    if next.Beside? {
      var rendered := RenderBeside(route, nextSlot, current, pending, next.plan, cursor, memory);
      if rendered.Err? {
        return Err(rendered.error);
      }
      prefetch := Rendered(rendered.value);
    }
    if pending.Some? {
      return Ok((prefetch, pending.value));
    }
    var asked := AskAbout(current, route.world, memory);
    r := if asked.Ok? then Ok((prefetch, asked.value)) else Err(asked.error);
  }

  /** The next window was rendered if it could be, and only then. */
  ghost predicate Prefetched(route: Route, prefetch: PrefetchState, next: NextPlan) {
    if next.Beside? then
      prefetch.Rendered? && prefetch.window.plan == next.plan && route.Renders(prefetch.window) &&
      !route.CannotRender(next.plan)
    else prefetch.NoPrefetch?
  }

  /** Staging the current window, beside the model's work on the next one. */
  method PhaseB(route: Route, stage: OfficialOutputStage, current: WindowState, snapshots: seq<Snapshot>,
                prefetch: PrefetchState, done: nat, ghost memory: WindowMemory)
    returns (r: Result<(nat, Option<seq<Snapshot>>), RouteError>)
    requires Increasing(current.plan.indexes) && route.Renders(current)
    requires SnapshotsOf(snapshots, current.rendered)
    requires Increasing(stage.pages + current.plan.indexes) && stage.previewPages == stage.pages
    requires StagedAs(stage.staged, stage.pages, route.estimate, route.renderer, route.fullCap)
    requires memory.resident == [current.plan] + Held(prefetch) && !prefetch.PendingFallback?
    requires stage.world == route.world && route.indexes != []
    modifies stage, memory`resident
    ensures r.Ok? ==> memory.resident == Held(prefetch)
    ensures r.Ok? && prefetch.Rendered? ==>
              r.value.1.Some? && SnapshotsOf(r.value.1.value, prefetch.window.rendered)
    ensures r.Ok? ==> stage.pages == stage.previewPages == old(stage.pages) + current.plan.indexes
    ensures r.Ok? ==> StagedAs(stage.staged, stage.pages, route.estimate, route.renderer, route.fullCap)
    ensures r.Ok? ==> r.value.0 == done + |current.plan.indexes|
    ensures r.Err? ==> Justified(route, r.error, memory.history)
  {
    hide IsRendering, Increasing, StagedAs, SnapshotsOf;
    if prefetch.PendingFallback? {
      return Err(InvalidPrefetchState);
    }
    var answers: Option<seq<Snapshot>> := None;
    if prefetch.Rendered? {
      assert memory.resident[1] == prefetch.window.plan;
      var asked := AskAbout(prefetch.window, route.world, memory);
      if asked.Err? {
        return Err(asked.error);
      }
      answers := Some(asked.value);
    }
    var staged := StageCurrent(route, stage, current, snapshots, done, memory);
    r := if staged.Ok? then Ok((staged.value, answers)) else Err(staged.error);
  }

  /** What the loop carries from one round to the next. */
  datatype LoopState = LoopState(cursor: nat, nextSlot: nat, prefetch: PrefetchState,
      snapshots: Option<seq<Snapshot>>, completed: nat)

  ghost predicate LoopInvariant(route: Route, stage: OfficialOutputStage, memory: WindowMemory, state: LoopState)
    reads stage, memory
  {
    && state.cursor <= |route.indexes|
    && SlotInvariant(route, state.nextSlot, state.prefetch, state.snapshots)
    && PlanInvariant(route, state.nextSlot, state.prefetch, state.cursor)
    && StageInvariant(route, stage, state.cursor, PrefetchPages(state.prefetch), state.completed)
    && MemoryInvariant(route, memory, state.prefetch, state.cursor)
  }

  ghost function Measure(route: Route, state: LoopState): int {
    2 * (|route.indexes| - state.cursor) + if state.prefetch.NoPrefetch? then 0 else 1
  }

  /** Before the first round all invariants hold. */
  lemma LoopStarts(route: Route, stage: OfficialOutputStage, memory: WindowMemory)
    requires route.Valid()
    requires stage.pages == stage.previewPages == [] && stage.staged == []
    requires memory.resident == [] && memory.history == []
    ensures LoopInvariant(route, stage, memory, LoopState(0, 0, NoPrefetch, None, 0))
  {
  }

  /** The current window continues what is staged. */
  lemma RoundStarts(route: Route, stage: OfficialOutputStage, nextSlot: nat, prefetch: PrefetchState, cursor: nat,
                    completed: nat, current: WindowState, pending: Option<seq<Snapshot>>, moved: nat)
    requires route.Valid() && moved <= |route.indexes|
    requires StageInvariant(route, stage, cursor, PrefetchPages(prefetch), completed)
    requires CurrentInvariant(route, nextSlot, current, pending)
    requires if prefetch.NoPrefetch? then
               route.Output(moved) == route.Output(cursor) + current.plan.indexes && current.plan.indexes != []
             else moved == cursor && current.plan.indexes == PrefetchPages(prefetch)
    ensures route.Renders(current) && Increasing(current.plan.indexes)
    ensures stage.pages + current.plan.indexes == route.Output(moved)
    ensures Increasing(stage.pages + current.plan.indexes) && stage.previewPages == stage.pages
    ensures StagedAs(stage.staged, stage.pages, route.estimate, route.renderer, route.fullCap)
    ensures completed == |stage.pages| && (moved > 0 ==> route.Output(moved) != [])
  {
    hide Kept, IsRendering, Increasing, StagedAs, SnapshotsOf;
    OutputIncreasing(route, moved);
  }

  /** After a round all invariants hold again, and the run has come further. */
  lemma RoundDone(route: Route, stage: OfficialOutputStage, nextSlot: nat, current: WindowState, next: NextPlan,
                  cursor: nat, moved: nat, prefetch: PrefetchState, snapshots: Option<seq<Snapshot>>,
                  completed: nat, memory: WindowMemory)
    requires PlannedTo(route, cursor, current.plan.mode, nextSlot)
    requires IsNext(next, route, cursor, moved, nextSlot, current) && Prefetched(route, prefetch, next)
    requires prefetch.Rendered? ==> snapshots.Some? && SnapshotsOf(snapshots.value, prefetch.window.rendered)
    requires AllFit(memory.history, route.fullCap) && AllRender(route, memory.history)
    requires memory.resident == Held(prefetch)
    requires Admitted(memory.history) == route.Output(cursor) + PrefetchPages(prefetch)
    requires stage.pages == stage.previewPages == route.Output(cursor) && completed == |stage.pages|
    requires StagedAs(stage.staged, stage.pages, route.estimate, route.renderer, route.fullCap)
    requires cursor > 0 ==> route.Output(cursor) != []
    ensures SlotInvariant(route, SlotAfter(nextSlot, next), After(next, prefetch), snapshots)
    ensures PlanInvariant(route, SlotAfter(nextSlot, next), After(next, prefetch), moved)
    ensures StageInvariant(route, stage, moved, PrefetchPages(After(next, prefetch)), completed)
    ensures MemoryInvariant(route, memory, After(next, prefetch), moved)
    ensures cursor <= moved <= |route.indexes| && (After(next, prefetch) != NoPrefetch ==> cursor < moved)
  {
    hide Kept, IsRendering, Increasing, SnapshotsOf, AllFit, SplitImageSlotCaps, Boundary, PackedTo, Admitted, IsPlan,
      StagedAs, AllRender, SomeTaskLost;
    PackedNone(route.indexes, route.size, route.fullCap, route.estimate);
    if next.Beside? {
      PlanInCap(route, next.plan, cursor, route.SlotCap(1 - nextSlot));
    }
  }

  function SlotAfter(nextSlot: nat, next: NextPlan): nat {
    if next.Beside? then if nextSlot == 0 then 1 else 0 else if next.Afterwards? then 0 else nextSlot
  }

  function After(next: NextPlan, prefetch: PrefetchState): PrefetchState {
    if next.Afterwards? then PendingFallback(next.plan) else prefetch
  }

  lemma NoFallbackYet(route: Route, prefetch: PrefetchState, next: NextPlan)
    requires Prefetched(route, prefetch, next)
    ensures !prefetch.PendingFallback?
  {
  }

  /** When the loop ends, every page the planner keeps is staged and has been in memory. */
  lemma LoopDone(route: Route, stage: OfficialOutputStage, memory: WindowMemory, state: LoopState)
    requires route.Valid() && LoopInvariant(route, stage, memory, state)
    requires state.cursor == |route.indexes| && state.prefetch.NoPrefetch?
    ensures stage.pages == stage.previewPages == route.Output(|route.indexes|) && state.completed == |stage.pages|
    ensures stage.pages != []
    ensures StagedAs(stage.staged, stage.pages, route.estimate, route.renderer, route.fullCap)
    ensures memory.resident == [] && Admitted(memory.history) == route.Output(|route.indexes|)
    ensures !route.CannotBePlanned() && AllRender(route, memory.history)
  {
    hide Kept, Increasing, StagedAs, Boundary, Blocked, Admitted, AllFit, PackedTo, AllRender, SomeTaskLost;
    DoneIsNotBlocked(route.indexes, route.size, route.fullCap, route.estimate);
  }

  lemma InvariantBounds(route: Route, stage: OfficialOutputStage, memory: WindowMemory, state: LoopState)
    requires LoopInvariant(route, stage, memory, state)
    ensures AllFit(memory.history, route.fullCap)
    ensures state.cursor <= |route.indexes|
  {
    hide Kept, Increasing, StagedAs, Boundary, Blocked, Admitted, AllFit, PackedTo, AllRender, SomeTaskLost;
  }

  /**
   One round: takes the current window, plans and renders the next one beside the model's work on the current
   one, and stages the current one beside the model's work on the next.
   */
  method Round(route: Route, stage: OfficialOutputStage, state: LoopState, ghost memory: WindowMemory)
    returns (r: Result<LoopState, RouteError>)
    requires route.Valid() && LoopInvariant(route, stage, memory, state)
    requires state.cursor < |route.indexes| || state.prefetch != NoPrefetch
    requires stage.world == route.world
    modifies stage, memory
    ensures AllFit(memory.history, route.fullCap)
    ensures r.Ok? ==> LoopInvariant(route, stage, memory, r.value) && Measure(route, r.value) < Measure(route, state)
    ensures r.Err? ==> Justified(route, r.error, memory.history)
  {
    hide Kept, IsRendering, Increasing, StagedAs, SnapshotsOf, AllFit, Admitted, Blocked, SlotInvariant,
      PlanInvariant, PlannedTo, StageInvariant, MemoryInvariant, CurrentInvariant, IsNext, Prefetched, FailsToPlan,
      Justified, AllRender, SomeTaskLost, SomeWindowFails;
    var LoopState(cursor, nextSlot, prefetch, snapshots, completed) := state;
    var taken, afterCurrent := TakeCurrent(route, cursor, nextSlot, prefetch, snapshots, memory);
    if taken.Err? {
      return Err(taken.error);
    }
    var current, pending := taken.value.0, taken.value.1;
    RoundStarts(route, stage, nextSlot, prefetch, cursor, completed, current, pending, afterCurrent);

    var planned, afterNext := PlanNext(route, afterCurrent, nextSlot, current);
    if planned.Err? {
      PlanningJustified(route, planned.error, memory.history);
      return Err(planned.error);
    }
    var next := planned.value;

    // What is left of the model's work on the current window, beside rendering the next one.
    var rendered := PhaseA(route, nextSlot, current, pending, next, afterCurrent, afterNext, memory);
    if rendered.Err? {
      return Err(rendered.error);
    }
    var ahead := rendered.value.0;

    // Staging the current window, beside the model's work on the next one.
    NoFallbackYet(route, ahead, next);
    var staged := PhaseB(route, stage, current, rendered.value.1, ahead, completed, memory);
    if staged.Err? {
      return Err(staged.error);
    }
    RoundDone(route, stage, nextSlot, current, next, afterCurrent, afterNext, ahead, staged.value.1,
              staged.value.0, memory);
    r := Ok(LoopState(afterNext, SlotAfter(nextSlot, next), After(next, ahead), staged.value.1, staged.value.0));
  }

  lemma PlanningJustified(route: Route, error: RouteError, history: seq<seq<PlannedWindow>>)
    requires route.indexes != [] && FailsToPlan(route, error)
    ensures Justified(route, error, history)
  {
  }

  /**
   Runs a document.  A window is rendered only into memory that has room for it beside what is there, and stays
   until it is staged: at any time the windows in memory fit the budget together, and a fallback window is alone.
   A run that succeeds has staged every page the planner does not skip, once, in order, each as it should be, and
   has had exactly these pages in memory.  In a calm world a run fails exactly for the documents that cannot be
   planned or have a window that cannot be rendered.  The checks the loop makes on its own state never fail: not the
   in-flight limit, not the prefetch state, not the page order and not the page counts.
   */
  method ParseAndWrite(route: Route, stage: OfficialOutputStage, ghost memory: WindowMemory)
    returns (r: Result<nat, RouteError>)
    requires route.Valid()
    requires stage.pages == stage.previewPages == [] && stage.staged == [] && stage.world == route.world
    requires memory.resident == [] && memory.history == []
    modifies stage, memory
    ensures AllFit(memory.history, route.fullCap)
    ensures r.Ok? ==> memory.resident == [] && Admitted(memory.history) == route.Output(|route.indexes|)
    ensures r.Ok? ==> stage.pages == stage.previewPages == route.Output(|route.indexes|) && r.value == |stage.pages|
    ensures r.Ok? ==> StagedAs(stage.staged, stage.pages, route.estimate, route.renderer, route.fullCap)
    ensures r.Ok? ==> !route.CannotBePlanned() && AllRender(route, memory.history)
    ensures r.Err? ==> Justified(route, r.error, memory.history)
  {
    var state := LoopState(0, 0, NoPrefetch, None, 0);
    LoopStarts(route, stage, memory);
    hide Kept, Increasing, StagedAs, AllFit, Admitted, Blocked, LoopInvariant, AllRender, SomeTaskLost,
      SomeWindowFails;
    while state.cursor < |route.indexes| || state.prefetch != NoPrefetch
      invariant LoopInvariant(route, stage, memory, state)
      decreases Measure(route, state)
    {
      InvariantBounds(route, stage, memory, state);
      var late: bool := *;
      if route.world.Rough? && late {
        return Err(DeadlinePassed);
      }
      var moved := Round(route, stage, state, memory);
      if moved.Err? {
        return Err(moved.error);
      }
      state := moved.value;
    }
    InvariantBounds(route, stage, memory, state);
    LoopDone(route, stage, memory, state);
    var assembled := stage.Assemble();
    if assembled.Err? {
      return Err(StageFailed(assembled.error));
    }
    r := Ok(state.completed);
  }
}
