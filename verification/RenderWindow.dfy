/**
 Rendering one window of pages: pages are admitted in groups that fit the in-flight byte budget, the
 renders of a group run concurrently and finish in any order, and the result is in page order.
 */
module RenderWindow {
  import opened Wrappers
  import opened RoutePlanner

  /** The picture of a page. */
  datatype Image = Image(page: nat)
  datatype RenderedPage = RenderedPage(index: nat, image: Image)

  /**
   How rendering a page ends; a picture is always the picture of that page.  A renderer that panics has failed;
   the task is lost when the runtime does not give back its result.
   */
  datatype Outcome =
    | Drawn(image: Image)
    | Failed(message: string)
    | Lost(message: string)

  type Renderer = nat -> Outcome

  datatype RenderError =
    | NoDimensions(message: string)
    | OverBudget(limit: nat, actual: nat)
    | RenderFailed(message: string)
    | WorkerJoin(message: string)
    | NoPage

  datatype RenderWarning = RenderWarning(index: nat, error: RenderError)

  function SaturatingAdd(a: nat, b: nat): nat {
    if a + b > USIZE_MAX then USIZE_MAX else a + b
  }

  // ---------------------------------------------------------------- specification

  /** A page whose raster fits the budget on its own. */
  predicate Admissible(index: nat, estimate: Estimate, cap: nat) {
    estimate(index).Ok? && SaturatingAdd(0, estimate(index).value) <= cap
  }

  /** A page of the window that ends up rendered. */
  predicate Renders(index: nat, estimate: Estimate, renderer: Renderer, cap: nat) {
    Admissible(index, estimate, cap) && renderer(index).Drawn?
  }

  /** A page whose render is lost together with its task. */
  predicate TaskLost(index: nat, estimate: Estimate, renderer: Renderer, cap: nat) {
    Admissible(index, estimate, cap) && renderer(index).Lost?
  }

  /** For sizes of a machine word: a page renders if its size is known and within the cap and it can be drawn. */
  lemma RendersMeans(index: nat, estimate: Estimate, renderer: Renderer, cap: nat)
    requires estimate(index).Ok? ==> estimate(index).value <= 0xFFFF_FFFF_FFFF_FFFF
    ensures var fits := estimate(index).Ok? && estimate(index).value <= cap;
            && (Renders(index, estimate, renderer, cap) <==> fits && renderer(index).Drawn?)
            && (TaskLost(index, estimate, renderer, cap) <==> fits && renderer(index).Lost?)
  {
  }

  /** The pages of `indexes` that render, each with its own picture, in page order and without repetition. */
  ghost predicate IsRendering(rendered: seq<RenderedPage>, indexes: seq<nat>, estimate: Estimate, renderer: Renderer,
                              cap: nat) {
    && (forall i, j :: 0 <= i < j < |rendered| ==> rendered[i].index < rendered[j].index)
    && (forall p :: p in rendered ==> p.index in indexes && Renders(p.index, estimate, renderer, cap) &&
                                      renderer(p.index) == Drawn(p.image))
    && (forall x :: x in indexes && Renders(x, estimate, renderer, cap) ==> exists p :: p in rendered && p.index == x)
  }

  ghost predicate Warned(warnings: seq<RenderWarning>, index: nat) {
    exists w :: w in warnings && w.index == index
  }

  /** Exactly the pages that do not render are warned about. */
  ghost predicate IsWarned(warnings: seq<RenderWarning>, indexes: seq<nat>, estimate: Estimate, renderer: Renderer,
                           cap: nat) {
    forall x :: Warned(warnings, x) <==> x in indexes && !Renders(x, estimate, renderer, cap)
  }

  /** Whatever order the renders finish in, the rendering of a window is the same. */
  lemma {:induction false} RenderingIsUnique(a: seq<RenderedPage>, b: seq<RenderedPage>, indexes: seq<nat>,
                                             estimate: Estimate, renderer: Renderer, cap: nat)
    requires IsRendering(a, indexes, estimate, renderer, cap) && IsRendering(b, indexes, estimate, renderer, cap)
    ensures a == b
  {
    SortedSame(a, b, indexes, estimate, renderer, cap, |a|, |b|);
  }

  lemma SameMembers(a: seq<RenderedPage>, b: seq<RenderedPage>, indexes: seq<nat>,
                    estimate: Estimate, renderer: Renderer, cap: nat, p: RenderedPage)
    requires IsRendering(a, indexes, estimate, renderer, cap) && IsRendering(b, indexes, estimate, renderer, cap)
    requires p in a
    ensures p in b
  {
    var q :| q in b && q.index == p.index;
  }

  lemma {:induction false} SortedSame(a: seq<RenderedPage>, b: seq<RenderedPage>, indexes: seq<nat>,
                                      estimate: Estimate, renderer: Renderer, cap: nat, n: nat, m: nat)
    requires IsRendering(a, indexes, estimate, renderer, cap) && IsRendering(b, indexes, estimate, renderer, cap)
    requires n <= |a| && m <= |b| && a[n..] == b[m..]
    ensures a[..n] == b[..m]
  {
    hide IsRendering;
    if n > 0 && m > 0 {
      LastSame(a, b, indexes, estimate, renderer, cap, n, m);
      assert a[n - 1..] == [a[n - 1]] + a[n..] && b[m - 1..] == [b[m - 1]] + b[m..];
      SortedSame(a, b, indexes, estimate, renderer, cap, n - 1, m - 1);
      assert a[..n] == a[..n - 1] + [a[n - 1]] && b[..m] == b[..m - 1] + [b[m - 1]];
    } else if n > 0 {
      var _ := MissingBehind(a, b, indexes, estimate, renderer, cap, n, m);
    } else if m > 0 {
      var _ := MissingBehind(b, a, indexes, estimate, renderer, cap, m, n);
    }
  }

  /** With equal rests, an element before the rest of `a` is before the rest of `b` too. */
  lemma MissingBehind(a: seq<RenderedPage>, b: seq<RenderedPage>, indexes: seq<nat>,
                      estimate: Estimate, renderer: Renderer, cap: nat, n: nat, m: nat) returns (k: nat)
    requires IsRendering(a, indexes, estimate, renderer, cap) && IsRendering(b, indexes, estimate, renderer, cap)
    requires 0 < n <= |a| && m <= |b| && a[n..] == b[m..]
    ensures k < m && b[k] == a[n - 1]
  {
    SameMembers(a, b, indexes, estimate, renderer, cap, a[n - 1]);
    k :| 0 <= k < |b| && b[k] == a[n - 1];
    assert forall j :: m <= j < |b| ==> b[j] == b[m..][j - m] == a[n..][j - m] == a[n + (j - m)];
    assert forall j :: n <= j < |a| ==> a[n - 1].index < a[j].index;
  }

  lemma LastSame(a: seq<RenderedPage>, b: seq<RenderedPage>, indexes: seq<nat>,
                 estimate: Estimate, renderer: Renderer, cap: nat, n: nat, m: nat)
    requires IsRendering(a, indexes, estimate, renderer, cap) && IsRendering(b, indexes, estimate, renderer, cap)
    requires 0 < n <= |a| && 0 < m <= |b| && a[n..] == b[m..]
    ensures a[n - 1] == b[m - 1]
  {
    var k := MissingBehind(a, b, indexes, estimate, renderer, cap, n, m);
    var l := MissingBehind(b, a, indexes, estimate, renderer, cap, m, n);
    assert forall i :: 0 <= i < m - 1 ==> b[i].index < b[m - 1].index;
    assert forall i :: 0 <= i < n - 1 ==> a[i].index < a[n - 1].index;
  }

  // ---------------------------------------------------------------- admission

  type Sized = (nat, nat)

  ghost function UsedBytes(sizes: seq<Sized>, from: nat, end: nat): nat
    requires from <= end <= |sizes|
  {
    if from == end then 0 else UsedBytes(sizes, from, end - 1) + sizes[end - 1].1
  }

  /**
   Admits pages while they fit the cap together.  `Ok(end)` admits positions `from` up to `end`, at least one,
   and the next one would not fit; `Err` means the first page alone exceeds the cap.
   */
  method AdmittedWindow(sizes: seq<Sized>, from: nat, cap: nat) returns (r: Result<nat, nat>)
    requires from < |sizes|
    ensures r.Err? <==> SaturatingAdd(0, sizes[from].1) > cap
    ensures r.Err? ==> r.error == sizes[from].1
    ensures r.Ok? ==> from < r.value <= |sizes|
    ensures r.Ok? ==> forall k :: from <= k < r.value ==> SaturatingAdd(0, sizes[k].1) <= cap
    ensures r.Ok? && cap < USIZE_MAX ==>
              UsedBytes(sizes, from, r.value) <= cap &&
              (r.value < |sizes| ==> UsedBytes(sizes, from, r.value + 1) > cap)
    ensures cap >= 0xFFFF_FFFF_FFFF_FFFF ==> r == Ok(|sizes|)
  {
    var end := from;
    var used: nat := 0;
    while end < |sizes|
      invariant from <= end <= |sizes|
      invariant cap < USIZE_MAX ==> used == UsedBytes(sizes, from, end) <= cap
      invariant end == from ==> used == 0
      invariant forall k :: from <= k < end ==> SaturatingAdd(0, sizes[k].1) <= cap
    {
      var bytes := sizes[end].1;
      if SaturatingAdd(used, bytes) > cap {
        if end == from {
          return Err(bytes);
        }
        break;
      }
      used := SaturatingAdd(used, bytes);
      end := end + 1;
    }
    r := Ok(end);
  }

  // ---------------------------------------------------------------- the renderer

  /** What is settled once every page in `seen` has been rendered or warned about. */
  ghost predicate Settled(seen: set<nat>, rendered: map<nat, Image>, warnings: seq<RenderWarning>,
                          noted: Option<RenderError>,
                          estimate: Estimate, renderer: Renderer, cap: nat)
  {
    && (forall x :: x in rendered <==> x in seen && Renders(x, estimate, renderer, cap))
    && (forall x :: x in rendered ==> renderer(x) == Drawn(rendered[x]))
    && (forall x :: Warned(warnings, x) <==> x in seen && !Renders(x, estimate, renderer, cap))
    && (noted.Some? <==> warnings != [])
    && (noted.Some? ==> !noted.value.WorkerJoin?)
    && (forall x :: x in seen ==> !TaskLost(x, estimate, renderer, cap))
  }

  lemma SettleRendered(seen: set<nat>, rendered: map<nat, Image>, warnings: seq<RenderWarning>,
                       noted: Option<RenderError>,
                       estimate: Estimate, renderer: Renderer, cap: nat, index: nat)
    requires Settled(seen, rendered, warnings, noted, estimate, renderer, cap)
    requires Renders(index, estimate, renderer, cap)
    ensures Settled(seen + {index}, rendered[index := renderer(index).image], warnings, noted, estimate, renderer, cap)
  {
  }

  lemma SettleWarned(seen: set<nat>, rendered: map<nat, Image>, warnings: seq<RenderWarning>,
                     noted: Option<RenderError>,
                     estimate: Estimate, renderer: Renderer, cap: nat, index: nat, error: RenderError)
    requires Settled(seen, rendered, warnings, noted, estimate, renderer, cap)
    requires !Renders(index, estimate, renderer, cap) && !TaskLost(index, estimate, renderer, cap)
    requires !error.WorkerJoin?
    ensures Settled(seen + {index}, rendered, warnings + [RenderWarning(index, error)],
                    if noted.None? then Some(error) else noted, estimate, renderer, cap)
  {
    var all := warnings + [RenderWarning(index, error)];
    assert RenderWarning(index, error) in all;
    forall x ensures Warned(all, x) <==> Warned(warnings, x) || x == index {
      if Warned(warnings, x) {
        var w :| w in warnings && w.index == x;
        assert w in all;
      }
    }
  }

  /** The rendered pages in page order. */
  method IntoValues(rendered: map<nat, Image>) returns (pages: seq<RenderedPage>)
    ensures forall i, j :: 0 <= i < j < |pages| ==> pages[i].index < pages[j].index
    ensures forall p :: p in pages ==> p.index in rendered && rendered[p.index] == p.image
    ensures forall x :: x in rendered ==> exists p :: p in pages && p.index == x
  {
    pages := [];
    var rest := rendered.Keys;
    while rest != {}
      invariant rest <= rendered.Keys
      invariant forall i, j :: 0 <= i < j < |pages| ==> pages[i].index < pages[j].index
      invariant forall p, x :: p in pages && x in rest ==> p.index < x
      invariant forall p :: p in pages ==> p.index in rendered && rendered[p.index] == p.image
      invariant forall x :: x in rendered && x !in rest ==> exists p :: p in pages && p.index == x
      decreases rest
    {
      var least := Least(rest);
      var page := RenderedPage(least, rendered[least]);
      assert page in pages + [page];
      forall x | x in rendered && x !in rest - {least} ensures exists p :: p in pages + [page] && p.index == x {
        if x != least {
          var p :| p in pages && p.index == x;
          assert p in pages + [page];
        }
      }
      pages := pages + [page];
      rest := rest - {least};
    }
  }

  method Least(s: set<nat>) returns (least: nat)
    requires s != {}
    ensures least in s && forall x :: x in s ==> least <= x
  {
    least :| least in s;
    var rest := s - {least};
    while rest != {}
      invariant rest <= s && least in s
      invariant forall x :: x in s && x !in rest ==> least <= x
      decreases rest
    {
      var x :| x in rest;
      if x < least {
        least := x;
      }
      rest := rest - {x};
    }
  }

  function PagesOf(sizes: seq<Sized>, from: nat, end: nat): set<nat>
    requires from <= end <= |sizes|
  {
    if from == end then {} else PagesOf(sizes, from, end - 1) + {sizes[end - 1].0}
  }

  ghost predicate AllAdmissible(pages: set<nat>, estimate: Estimate, cap: nat) {
    forall x :: x in pages ==> Admissible(x, estimate, cap)
  }

  lemma AdmissibleIn(pages: set<nat>, estimate: Estimate, cap: nat, index: nat)
    requires AllAdmissible(pages, estimate, cap) && index in pages
    ensures Admissible(index, estimate, cap)
  {
  }

  ghost function Members(tasks: multiset<nat>): set<nat> {
    set x | x in tasks
  }

  lemma MembersAdd(tasks: multiset<nat>, x: nat)
    ensures Members(tasks + multiset{x}) == Members(tasks) + {x}
  {
  }

  lemma MembersRemove(tasks: multiset<nat>, x: nat)
    requires x in tasks
    ensures Members(tasks) == Members(tasks - multiset{x}) + {x}
  {
  }

  lemma {:induction false} PagesGrow(sizes: seq<Sized>, from: nat, mid: nat, end: nat)
    requires from <= mid <= end <= |sizes|
    ensures PagesOf(sizes, from, mid) <= PagesOf(sizes, from, end)
  {
    if mid < end {
      PagesGrow(sizes, from, mid, end - 1);
    }
  }

  datatype Progress = Progress(rendered: map<nat, Image>, warnings: seq<RenderWarning>, firstError: Option<RenderError>)

  ghost predicate SettledIn(seen: set<nat>, p: Progress, estimate: Estimate, renderer: Renderer, cap: nat) {
    Settled(seen, p.rendered, p.warnings, p.firstError, estimate, renderer, cap)
  }

  /**
   Takes in one finished render.  A failure ends a strict run and is only warned about in a tolerant one; a lost
   task ends either.
   */
  method TakeFinished(p: Progress, index: nat, estimate: Estimate, renderer: Renderer, cap: nat, tolerant: bool,
                      ghost seen: set<nat>) returns (r: Result<Progress, RenderError>)
    requires SettledIn(seen, p, estimate, renderer, cap) && Admissible(index, estimate, cap)
    ensures r.Ok? ==> SettledIn(seen + {index}, r.value, estimate, renderer, cap)
    ensures !tolerant && r.Ok? ==> r.value.warnings == p.warnings
    ensures r.Err? ==> Ends(r.error, index, estimate, renderer, cap, tolerant)
  {
    hide Settled;
    match renderer(index)
    case Drawn(image) =>
      SettleRendered(seen, p.rendered, p.warnings, p.firstError, estimate, renderer, cap, index);
      r := Ok(p.(rendered := p.rendered[index := image]));
    case Failed(message) =>
      if tolerant {
        r := Ok(Noted(p, index, RenderFailed(message)));
        SettleWarned(seen, p.rendered, p.warnings, p.firstError, estimate, renderer, cap, index,
                     RenderFailed(message));
      } else {
        r := Err(RenderFailed(message));
      }
    case Lost(message) =>
      r := Err(WorkerJoin(message));
  }

  /** A page that ends the run: its task is lost, or the run is strict and the page does not render. */
  predicate Ends(error: RenderError, index: nat, estimate: Estimate, renderer: Renderer, cap: nat, tolerant: bool) {
    if error.WorkerJoin? then TaskLost(index, estimate, renderer, cap)
    else !tolerant && !Renders(index, estimate, renderer, cap)
  }

  function Noted(p: Progress, index: nat, error: RenderError): Progress {
    Progress(p.rendered, p.warnings + [RenderWarning(index, error)],
             if p.firstError.None? then Some(error) else p.firstError)
  }

  /** One `index` less in flight. */
  ghost predicate Without(before: multiset<nat>, after: multiset<nat>, index: nat) {
    index in before && after == before - multiset{index} && |after| == |before| - 1
  }

  /**
   The renders in flight.  `started` lists all renders ever spawned, `peak` is the largest number there ever was
   in flight.
   */
  class JoinSet {
    var running: multiset<nat>
    ghost var started: seq<nat>
    ghost var peak: nat

    constructor ()
      ensures running == multiset{} && started == [] && peak == 0
    {
      running, started, peak := multiset{}, [], 0;
    }

    method SpawnRender(index: nat)
      modifies this
      ensures running == old(running) + multiset{index} && |running| == |old(running)| + 1
      ensures started == old(started) + [index]
      ensures peak == Max(old(peak), |running|)
    {
      running := running + multiset{index};
      started := started + [index];
      peak := Max(peak, |running|);
    }

    /** Whichever render finishes next. */
    method JoinNext() returns (index: nat)
      requires running != multiset{}
      modifies this`running
      ensures Without(old(running), running, index)
    {
      index :| index in running;
      running := running - multiset{index};
    }
  }

  ghost function IndexesOf(sizes: seq<Sized>, from: nat, end: nat): seq<nat>
    requires from <= end <= |sizes|
  {
    if from == end then [] else IndexesOf(sizes, from, end - 1) + [sizes[end - 1].0]
  }

  /** Of the group from `from` on, the renders before `next` were started, and never too many at a time. */
  ghost predicate Started(started: seq<nat>, count: nat, peak: nat, sizes: seq<Sized>, from: nat, next: nat,
                          workers: nat)
    requires from <= next <= |sizes|
  {
    started == IndexesOf(sizes, from, next) && count <= peak <= Max(workers, 1)
  }

  lemma StartedNone(sizes: seq<Sized>, from: nat, workers: nat)
    requires from <= |sizes|
    ensures Started([], 0, 0, sizes, from, from, workers)
  {
  }

  lemma StartedNext(started: seq<nat>, count: nat, peak: nat, sizes: seq<Sized>, from: nat, next: nat, workers: nat)
    requires from <= next < |sizes| && count < Max(workers, 1)
    requires Started(started, count, peak, sizes, from, next, workers)
    ensures Started(started + [sizes[next].0], count + 1, Max(peak, count + 1), sizes, from, next + 1, workers)
  {
  }

  lemma StartedFewer(started: seq<nat>, count: nat, peak: nat, sizes: seq<Sized>, from: nat, next: nat, workers: nat)
    requires from <= next <= |sizes| && count > 0
    requires Started(started, count, peak, sizes, from, next, workers)
    ensures Started(started, count - 1, peak, sizes, from, next, workers)
  {
  }

  lemma StartedAll(started: seq<nat>, count: nat, peak: nat, sizes: seq<Sized>, from: nat, next: nat, workers: nat)
    requires from <= next <= |sizes|
    requires Started(started, count, peak, sizes, from, next, workers)
    ensures started == IndexesOf(sizes, from, next) && peak <= Max(workers, 1)
  {
  }

  /** Starts the next render of a group. */
  method SpawnNext(tasks: JoinSet, sizes: seq<Sized>, from: nat, next: nat, end: nat, ghost workers: nat,
                   ghost done: set<nat>, ghost seen: set<nat>)
    requires from <= next < end <= |sizes| && |tasks.running| < Max(workers, 1)
    requires Started(tasks.started, |tasks.running|, tasks.peak, sizes, from, next, workers)
    requires Rolling(tasks.running, done, seen, sizes, from, next, end)
    modifies tasks
    ensures |tasks.running| == old(|tasks.running|) + 1
    ensures Started(tasks.started, |tasks.running|, tasks.peak, sizes, from, next + 1, workers)
    ensures Rolling(tasks.running, done, seen, sizes, from, next + 1, end)
  {
    hide Rolling, Started;
    RollingSpawned(tasks.running, done, seen, sizes, from, next, end);
    StartedNext(tasks.started, |tasks.running|, tasks.peak, sizes, from, next, workers);
    tasks.SpawnRender(sizes[next].0);
  }

  /** Starts the first renders of a group. */
  method SpawnFirst(tasks: JoinSet, sizes: seq<Sized>, from: nat, end: nat, concurrency: nat, workers: nat,
                    ghost seen: set<nat>)
    requires tasks.running == multiset{} && tasks.started == [] && tasks.peak == 0
    requires from + concurrency <= end <= |sizes| && concurrency <= Max(workers, 1)
    modifies tasks
    ensures Started(tasks.started, |tasks.running|, tasks.peak, sizes, from, from + concurrency, workers)
    ensures |tasks.running| == concurrency
    ensures Rolling(tasks.running, seen, seen, sizes, from, from + concurrency, end)
  {
    hide Rolling, IndexesOf, Started;
    var next := from;
    StartedNone(sizes, from, workers);
    RollingStart(seen, sizes, from, end);
    while next < from + concurrency
      invariant from <= next <= from + concurrency
      invariant |tasks.running| == next - from
      invariant Started(tasks.started, |tasks.running|, tasks.peak, sizes, from, next, workers)
      invariant Rolling(tasks.running, seen, seen, sizes, from, next, end)
    {
      SpawnNext(tasks, sizes, from, next, end, workers, seen, seen);
      next := next + 1;
    }
  }

  /** Waits for a render to finish and takes it in. */
  method JoinOne(tasks: JoinSet, ghost sizes: seq<Sized>, ghost from: nat, ghost next: nat, ghost end: nat,
                 estimate: Estimate, renderer: Renderer, cap: nat, ghost workers: nat, tolerant: bool,
                 before: Progress, ghost done: set<nat>, ghost seen: set<nat>)
    returns (r: Result<Progress, RenderError>, ghost more: set<nat>)
    requires from <= next <= end <= |sizes| && |tasks.running| > 0
    requires AllAdmissible(PagesOf(sizes, from, end), estimate, cap)
    requires Started(tasks.started, |tasks.running|, tasks.peak, sizes, from, next, workers)
    requires Rolling(tasks.running, done, seen, sizes, from, next, end)
    requires SettledIn(done, before, estimate, renderer, cap)
    modifies tasks`running
    ensures |tasks.running| == old(|tasks.running|) - 1
    ensures Started(tasks.started, |tasks.running|, tasks.peak, sizes, from, next, workers)
    ensures Rolling(tasks.running, more, seen, sizes, from, next, end)
    ensures r.Ok? ==> SettledIn(more, r.value, estimate, renderer, cap)
    ensures !tolerant && r.Ok? ==> r.value.warnings == before.warnings
    ensures r.Err? ==> exists x :: x in PagesOf(sizes, from, end) && Ends(r.error, x, estimate, renderer, cap, tolerant)
  {
    hide SettledIn, Admissible, AllAdmissible, PagesOf, IndexesOf, Ends, Rolling, Started, Without;
    ghost var running := tasks.running;
    StartedFewer(tasks.started, |running|, tasks.peak, sizes, from, next, workers);
    var index := tasks.JoinNext();
    RollingJoined(running, done, seen, sizes, from, next, end, index, tasks.running);
    AdmissibleIn(PagesOf(sizes, from, end), estimate, cap, index);
    r := TakeFinished(before, index, estimate, renderer, cap, tolerant, done);
    more := done + {index};
  }

  /**
   Renders the admitted positions `from` up to `end`, each once and in order, at most `workers` at a time;
   whichever render in flight finishes next is taken in.
   */
  method RenderGroup(tasks: JoinSet, sizes: seq<Sized>, from: nat, end: nat, estimate: Estimate, renderer: Renderer,
                     cap: nat, workers: nat, tolerant: bool, before: Progress, ghost seen: set<nat>)
    returns (r: Result<Progress, RenderError>)
    requires tasks.running == multiset{} && tasks.started == [] && tasks.peak == 0
    requires from < end <= |sizes|
    requires AllAdmissible(PagesOf(sizes, from, end), estimate, cap)
    requires SettledIn(seen, before, estimate, renderer, cap)
    modifies tasks
    ensures tasks.peak <= Max(workers, 1)
    ensures r.Ok? ==> tasks.running == multiset{} && tasks.started == IndexesOf(sizes, from, end)
    ensures r.Ok? ==> SettledIn(seen + PagesOf(sizes, from, end), r.value, estimate, renderer, cap)
    ensures !tolerant && r.Ok? ==> r.value.warnings == before.warnings
    ensures r.Err? ==> exists x :: x in PagesOf(sizes, from, end) && Ends(r.error, x, estimate, renderer, cap, tolerant)
  {
    hide SettledIn, Admissible, AllAdmissible, PagesOf, IndexesOf, Ends, Rolling, Started;
    var progress := before;
    var concurrency := if Max(workers, 1) < end - from then Max(workers, 1) else end - from;
    ghost var done := seen;
    SpawnFirst(tasks, sizes, from, end, concurrency, workers, seen);
    var next := from + concurrency;
    while |tasks.running| > 0
      invariant from <= next <= end
      invariant |tasks.running| <= concurrency
      invariant next < end ==> |tasks.running| == concurrency
      invariant Started(tasks.started, |tasks.running|, tasks.peak, sizes, from, next, workers)
      invariant Rolling(tasks.running, done, seen, sizes, from, next, end)
      invariant SettledIn(done, progress, estimate, renderer, cap)
      invariant !tolerant ==> progress.warnings == before.warnings
      decreases end - next + |tasks.running|
    {
      var taken, more := JoinOne(tasks, sizes, from, next, end, estimate, renderer, cap, workers, tolerant, progress,
                                 done, seen);
      StartedAll(tasks.started, |tasks.running|, tasks.peak, sizes, from, next, workers);
      if taken.Err? {
        return Err(taken.error);
      }
      progress, done := taken.value, more;
      if next < end {
        SpawnNext(tasks, sizes, from, next, end, workers, done, seen);
        next := next + 1;
      }
    }
    StartedAll(tasks.started, 0, tasks.peak, sizes, from, next, workers);
    RollingDone(done, seen, sizes, from, end);
    r := Ok(progress);
  }

  /** The pages before `next` are done or running. */
  ghost predicate Rolling(running: multiset<nat>, done: set<nat>, seen: set<nat>, sizes: seq<Sized>, from: nat,
                          next: nat, end: nat)
    requires from <= next <= end <= |sizes|
  {
    && Members(running) <= PagesOf(sizes, from, end)
    && done + Members(running) == seen + PagesOf(sizes, from, next)
  }

  lemma RollingStart(seen: set<nat>, sizes: seq<Sized>, from: nat, end: nat)
    requires from <= end <= |sizes|
    ensures Rolling(multiset{}, seen, seen, sizes, from, from, end)
  {
    NoMembers();
    NoPages(sizes, from);
  }

  lemma RollingSpawned(running: multiset<nat>, done: set<nat>, seen: set<nat>, sizes: seq<Sized>, from: nat,
                       next: nat, end: nat)
    requires from <= next < end <= |sizes| && Rolling(running, done, seen, sizes, from, next, end)
    ensures Rolling(running + multiset{sizes[next].0}, done, seen, sizes, from, next + 1, end)
  {
    hide Members, PagesOf;
    MembersAdd(running, sizes[next].0);
    PagesStep(sizes, from, next);
    PagesGrow(sizes, from, next + 1, end);
  }

  lemma RollingJoined(running: multiset<nat>, done: set<nat>, seen: set<nat>, sizes: seq<Sized>, from: nat,
                      next: nat, end: nat, index: nat, rest: multiset<nat>)
    requires from <= next <= end <= |sizes| && Rolling(running, done, seen, sizes, from, next, end)
    requires Without(running, rest, index)
    ensures Rolling(rest, done + {index}, seen, sizes, from, next, end)
    ensures index in PagesOf(sizes, from, end) && |rest| == |running| - 1
  {
    hide Members, PagesOf;
    MembersRemove(running, index);
  }

  lemma RollingDone(done: set<nat>, seen: set<nat>, sizes: seq<Sized>, from: nat, end: nat)
    requires from <= end <= |sizes| && Rolling(multiset{}, done, seen, sizes, from, end, end)
    ensures done == seen + PagesOf(sizes, from, end)
  {
    NoMembers();
  }

  lemma NoPages(sizes: seq<Sized>, from: nat)
    requires from <= |sizes|
    ensures PagesOf(sizes, from, from) == {} && IndexesOf(sizes, from, from) == []
  {
  }

  lemma PagesStep(sizes: seq<Sized>, from: nat, next: nat)
    requires from <= next < |sizes|
    ensures PagesOf(sizes, from, next + 1) == PagesOf(sizes, from, next) + {sizes[next].0}
  {
  }

  lemma NoMembers()
    ensures Members(multiset{}) == {}
  {
  }

  ghost function SetOf(s: seq<nat>): set<nat> {
    set x | x in s
  }

  lemma SetOfAppend(s: seq<nat>, x: nat)
    ensures SetOf(s + [x]) == SetOf(s) + {x}
  {
  }

  ghost predicate AllSized(sizes: seq<Sized>, estimate: Estimate) {
    forall k :: 0 <= k < |sizes| ==> estimate(sizes[k].0) == Ok(sizes[k].1)
  }

  /** First pass: measure the pages; the ones without a size are warned about, or end a strict run. */
  method MeasurePages(indexes: seq<nat>, estimate: Estimate, renderer: Renderer, cap: nat, tolerant: bool)
    returns (r: Result<(seq<Sized>, Progress), RenderError>, ghost seen: set<nat>)
    ensures r.Ok? ==> AllSized(r.value.0, estimate)
    ensures r.Ok? ==> SettledIn(seen, r.value.1, estimate, renderer, cap)
    ensures r.Ok? ==> seen + PagesOf(r.value.0, 0, |r.value.0|) == SetOf(indexes)
    ensures r.Ok? && !tolerant ==> r.value.1.warnings == []
    ensures r.Err? ==> exists x :: x in indexes && Ends(r.error, x, estimate, renderer, cap, tolerant)
  {
    var sizes: seq<Sized> := [];
    var progress := Progress(map[], [], None);
    seen := {};
    assert SettledIn(seen, progress, estimate, renderer, cap);
    hide SettledIn;
    for i := 0 to |indexes|
      invariant AllSized(sizes, estimate)
      invariant SettledIn(seen, progress, estimate, renderer, cap)
      invariant seen + PagesOf(sizes, 0, |sizes|) == SetOf(indexes[..i])
      invariant !tolerant ==> progress.warnings == []
    {
      hide PagesOf, Renders, TaskLost, SetOf;
      assert indexes[..i + 1] == indexes[..i] + [indexes[i]];
      SetOfAppend(indexes[..i], indexes[i]);
      var index := indexes[i];
      if estimate(index).Ok? {
        PagesAppend(sizes, (index, estimate(index).value));
        sizes := sizes + [(index, estimate(index).value)];
      } else {
        FailsWithoutSize(index, estimate, renderer, cap);
        if !tolerant {
          assert Ends(NoDimensions(estimate(index).error), index, estimate, renderer, cap, tolerant);
          return Err(NoDimensions(estimate(index).error)), seen;
        }
        NoteSettles(seen, progress, estimate, renderer, cap, index, NoDimensions(estimate(index).error));
        progress := Noted(progress, index, NoDimensions(estimate(index).error));
        seen := seen + {index};
      }
    }
    assert indexes[..|indexes|] == indexes;
    r := Ok((sizes, progress));
  }

  lemma FailsWithoutSize(index: nat, estimate: Estimate, renderer: Renderer, cap: nat)
    requires !Admissible(index, estimate, cap)
    ensures !Renders(index, estimate, renderer, cap) && !TaskLost(index, estimate, renderer, cap)
  {
  }

  lemma NoteSettles(seen: set<nat>, p: Progress, estimate: Estimate, renderer: Renderer, cap: nat, index: nat,
                    error: RenderError)
    requires SettledIn(seen, p, estimate, renderer, cap)
    requires !Renders(index, estimate, renderer, cap) && !TaskLost(index, estimate, renderer, cap)
    requires !error.WorkerJoin?
    ensures SettledIn(seen + {index}, Noted(p, index, error), estimate, renderer, cap)
  {
    hide Settled;
    SettleWarned(seen, p.rendered, p.warnings, p.firstError, estimate, renderer, cap, index, error);
  }

  lemma {:induction false} PagesAppend(sizes: seq<Sized>, page: Sized)
    ensures PagesOf(sizes + [page], 0, |sizes| + 1) == PagesOf(sizes, 0, |sizes|) + {page.0}
  {
    PagesPrefix(sizes, [page], |sizes|);
  }

  lemma {:induction false} PagesPrefix(a: seq<Sized>, b: seq<Sized>, n: nat)
    requires n <= |a|
    ensures PagesOf(a + b, 0, n) == PagesOf(a, 0, n)
  {
    if n > 0 {
      PagesPrefix(a, b, n - 1);
    }
  }

  lemma {:induction false} PagesSplit(sizes: seq<Sized>, from: nat, mid: nat, end: nat)
    requires from <= mid <= end <= |sizes|
    ensures PagesOf(sizes, from, end) == PagesOf(sizes, from, mid) + PagesOf(sizes, mid, end)
  {
    if mid < end {
      PagesSplit(sizes, from, mid, end - 1);
    }
  }

  lemma {:induction false} PagesAdmissible(sizes: seq<Sized>, from: nat, end: nat, estimate: Estimate, cap: nat)
    requires from <= end <= |sizes| && AllSized(sizes, estimate)
    requires forall k :: from <= k < end ==> SaturatingAdd(0, sizes[k].1) <= cap
    ensures AllAdmissible(PagesOf(sizes, from, end), estimate, cap)
  {
    if from < end {
      PagesAdmissible(sizes, from, end - 1, estimate, cap);
    }
  }

  type Rendering = Result<(seq<RenderedPage>, seq<RenderWarning>), RenderError>

  ghost predicate SomeTaskLost(indexes: seq<nat>, estimate: Estimate, renderer: Renderer, cap: nat) {
    exists x :: x in indexes && TaskLost(x, estimate, renderer, cap)
  }

  /**
   What rendering a window returns.  A tolerant run renders what it can and warns about the rest; it fails exactly
   when a task is lost or, if asked to, when nothing rendered.  A strict run fails if and only if some page does
   not render.
   */
  ghost predicate IsWindowResult(r: Rendering, indexes: seq<nat>, estimate: Estimate, renderer: Renderer, cap: nat,
                                 tolerant: bool, failOnEmpty: bool) {
    && (r.Ok? ==> IsRendering(r.value.0, indexes, estimate, renderer, cap) &&
                  IsWarned(r.value.1, indexes, estimate, renderer, cap))
    && (r.Err? && r.error.WorkerJoin? ==> SomeTaskLost(indexes, estimate, renderer, cap))
    && (tolerant ==> (SomeTaskLost(indexes, estimate, renderer, cap) ==> r.Err? && r.error.WorkerJoin?))
    && (tolerant && !SomeTaskLost(indexes, estimate, renderer, cap) ==>
         (r.Err? <==> failOnEmpty && indexes != [] &&
                      forall x :: x in indexes ==> !Renders(x, estimate, renderer, cap)))
    && (!tolerant ==> (r.Err? <==> exists x :: x in indexes && !Renders(x, estimate, renderer, cap)))
  }

  method RenderWindowCore(indexes: seq<nat>, estimate: Estimate, renderer: Renderer, cap: nat, workers: nat,
                          tolerant: bool, failOnEmpty: bool) returns (r: Rendering)
    ensures IsWindowResult(r, indexes, estimate, renderer, cap, tolerant, failOnEmpty)
  {
    var measured, seen := MeasurePages(indexes, estimate, renderer, cap, tolerant);
    hide SettledIn, PagesOf, Renders, AllAdmissible, AllSized, IsWindowResult, Ends;
    if measured.Err? {
      ghost var x :| x in indexes && Ends(measured.error, x, estimate, renderer, cap, tolerant);
      EndedBy(x, indexes, estimate, renderer, cap, tolerant, failOnEmpty, measured.error);
      return Err(measured.error);
    }
    var sizes, progress := measured.value.0, measured.value.1;
    ghost var all := SetOf(indexes);
    var from: nat := 0;
    while from < |sizes|
      invariant from <= |sizes|
      invariant SettledIn(seen, progress, estimate, renderer, cap)
      invariant seen + PagesOf(sizes, from, |sizes|) == all
      invariant !tolerant ==> progress.warnings == []
    {
      var admitted := AdmittedWindow(sizes, from, cap);
      if admitted.Err? {
        FirstUnadmitted(sizes, from, estimate, renderer, cap);
        if !tolerant {
          EndedBy(sizes[from].0, indexes, estimate, renderer, cap, tolerant, failOnEmpty,
                  OverBudget(cap, admitted.error));
          return Err(OverBudget(cap, admitted.error));
        }
        NoteSettles(seen, progress, estimate, renderer, cap, sizes[from].0, OverBudget(cap, admitted.error));
        progress := Noted(progress, sizes[from].0, OverBudget(cap, admitted.error));
        seen := seen + {sizes[from].0};
        from := from + 1;
        continue;
      }
      PagesAdmissible(sizes, from, admitted.value, estimate, cap);
      PagesSplit(sizes, from, admitted.value, |sizes|);
      var tasks := new JoinSet();
      var group := RenderGroup(tasks, sizes, from, admitted.value, estimate, renderer, cap, workers, tolerant,
                               progress, seen);
      if group.Err? {
        ghost var x :| x in PagesOf(sizes, from, admitted.value) &&
            Ends(group.error, x, estimate, renderer, cap, tolerant);
        EndedBy(x, indexes, estimate, renderer, cap, tolerant, failOnEmpty, group.error);
        return Err(group.error);
      }
      progress := group.value;
      seen := seen + PagesOf(sizes, from, admitted.value);
      from := admitted.value;
    }
    NoPages(sizes, from);
    assert seen == all;
    NotedNotJoin(seen, progress, estimate, renderer, cap);
    var pages := IntoValues(progress.rendered);
    var error := if progress.firstError.Some? then progress.firstError.value else NoPage;
    WindowDone(indexes, progress, pages, estimate, renderer, cap, tolerant, failOnEmpty, error);
    if tolerant && failOnEmpty && |indexes| > 0 && progress.rendered == map[] {
      return Err(error);
    }
    r := Ok((pages, progress.warnings));
  }

  lemma NotedNotJoin(seen: set<nat>, p: Progress, estimate: Estimate, renderer: Renderer, cap: nat)
    requires SettledIn(seen, p, estimate, renderer, cap)
    ensures p.firstError.Some? ==> !p.firstError.value.WorkerJoin?
  {
  }

  lemma FirstUnadmitted(sizes: seq<Sized>, from: nat, estimate: Estimate, renderer: Renderer, cap: nat)
    requires from < |sizes| && AllSized(sizes, estimate) && SaturatingAdd(0, sizes[from].1) > cap
    ensures !Renders(sizes[from].0, estimate, renderer, cap) && !TaskLost(sizes[from].0, estimate, renderer, cap)
    ensures forall e: RenderError :: !e.WorkerJoin? ==> Ends(e, sizes[from].0, estimate, renderer, cap, false)
    ensures PagesOf(sizes, from, |sizes|) == {sizes[from].0} + PagesOf(sizes, from + 1, |sizes|)
  {
    PagesSplit(sizes, from, from + 1, |sizes|);
  }

  lemma EndedBy(x: nat, indexes: seq<nat>, estimate: Estimate, renderer: Renderer, cap: nat, tolerant: bool,
                failOnEmpty: bool, e: RenderError)
    requires x in indexes && Ends(e, x, estimate, renderer, cap, tolerant)
    ensures IsWindowResult(Err(e), indexes, estimate, renderer, cap, tolerant, failOnEmpty)
  {
  }

  lemma WindowDone(indexes: seq<nat>, p: Progress, pages: seq<RenderedPage>, estimate: Estimate, renderer: Renderer,
                   cap: nat,
                   tolerant: bool, failOnEmpty: bool, e: RenderError)
    requires SettledIn(SetOf(indexes), p, estimate, renderer, cap)
    requires forall i, j :: 0 <= i < j < |pages| ==> pages[i].index < pages[j].index
    requires forall q :: q in pages ==> q.index in p.rendered && p.rendered[q.index] == q.image
    requires forall x :: x in p.rendered ==> exists q :: q in pages && q.index == x
    requires !tolerant ==> p.warnings == []
    requires !e.WorkerJoin?
    ensures var failed := tolerant && failOnEmpty && |indexes| > 0 && p.rendered == map[];
            IsWindowResult(if failed then Err(e)
                else Ok((pages, p.warnings)), indexes, estimate, renderer, cap, tolerant, failOnEmpty)
  {
    assert forall x :: x in p.rendered <==> x in indexes && Renders(x, estimate, renderer, cap);
    if p.rendered != map[] {
      var x :| x in p.rendered;
      assert x in indexes && Renders(x, estimate, renderer, cap);
    }
    if !tolerant {
      forall x | x in indexes ensures Renders(x, estimate, renderer, cap) {
        assert !Warned(p.warnings, x);
      }
    }
  }
}
