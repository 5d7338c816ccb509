/**
 The stage pages are written to before publication, and the staging of one rendered window.
 */
module OutputStage {
  import opened Wrappers
  import opened RoutePlanner
  import opened RenderWindow

  /** What the model said about one picture. */
  datatype Snapshot = Snapshot(of: Image, content: int)

  datatype StagedPage =
    | Placeholder(index: nat)
    | Page(index: nat, image: Image, snapshot: Snapshot)

  datatype StageError = OutOfOrder | Incomplete | Io | Timeout

  /**
   What surrounds a run.  In a calm world no deadline passes, the model answers once about every picture, and the
   file system works; in a rough one each of them may fail at any point.
   */
  datatype World = Calm | Rough

  class OfficialOutputStage {
    const world: World
    var pages: seq<nat>
    var previewPages: seq<nat>
    var staged: seq<StagedPage>

    constructor (world: World)
      ensures this.world == world && pages == previewPages == [] && staged == []
    {
      this.world := world;
      pages, previewPages, staged := [], [], [];
    }

    /** Pages arrive in strictly increasing order; writing may fail. */
    method WritePreviewPage(index: nat) returns (r: Result<(), StageError>)
      modifies this`previewPages
      ensures r.Ok? ==> previewPages == old(previewPages) + [index]
      ensures r.Err? ==> previewPages == old(previewPages)
      ensures r.Err? ==> r.error == OutOfOrder || (world.Rough? && r.error == Io)
      ensures r == Err(OutOfOrder) <==> old(previewPages) != [] && old(previewPages)[|old(previewPages)| - 1] >= index
    {
      if previewPages != [] && previewPages[|previewPages| - 1] >= index {
        return Err(OutOfOrder);
      }
      var fails: bool := *;
      if world.Rough? && fails {
        return Err(Io);
      }
      previewPages := previewPages + [index];
      r := Ok(());
    }

    method WritePreparedPage(index: nat, page: StagedPage) returns (r: Result<(), StageError>)
      modifies this`pages, this`staged
      ensures r.Ok? ==> pages == old(pages) + [index] && staged == old(staged) + [page]
      ensures r.Err? ==> pages == old(pages) && staged == old(staged)
      ensures r.Err? ==> r.error == OutOfOrder || (world.Rough? && r.error == Io)
      ensures r == Err(OutOfOrder) <==> old(pages) != [] && old(pages)[|old(pages)| - 1] >= index
    {
      if pages != [] && pages[|pages| - 1] >= index {
        return Err(OutOfOrder);
      }
      var fails: bool := *;
      if world.Rough? && fails {
        return Err(Io);
      }
      pages, staged := pages + [index], staged + [page];
      r := Ok(());
    }

    /** The last checks before the outputs are assembled. */
    method Assemble() returns (r: Result<(), StageError>)
      ensures r.Err? ==> r.error == Incomplete || (world.Rough? && r.error == Io)
      ensures r == Err(Incomplete) <==> pages == [] || pages != previewPages
    {
      if pages == [] || pages != previewPages {
        return Err(Incomplete);
      }
      var fails: bool := *;
      if world.Rough? && fails {
        return Err(Io);
      }
      r := Ok(());
    }
  }

  /** The windows whose pictures are in memory, oldest first, and all contents the memory ever had. */
  class WindowMemory {
    ghost var resident: seq<PlannedWindow>
    ghost var history: seq<seq<PlannedWindow>>

    ghost constructor ()
      ensures resident == [] && history == []
    {
      resident, history := [], [];
    }

    ghost method Admit(plan: PlannedWindow)
      modifies this
      ensures resident == old(resident) + [plan]
      ensures history == old(history) + [resident]
    {
      resident := resident + [plan];
      history := history + [resident];
    }

    ghost method Release(plan: PlannedWindow)
      requires resident != [] && resident[0] == plan
      modifies this`resident
      ensures resident == old(resident)[1..]
    {
      resident := resident[1..];
    }
  }

  // ---------------------------------------------------------------- what a staged page should be

  /**
   A page that renders is staged with its own picture and the snapshot of that picture, any other as a placeholder.
   */
  ghost predicate Right(page: StagedPage, estimate: Estimate, renderer: Renderer, cap: nat) {
    match page
    case Placeholder(index) => !Renders(index, estimate, renderer, cap)
    case Page(index, image, snapshot) =>
      Renders(index, estimate, renderer, cap) && renderer(index) == Drawn(image) && snapshot.of == image
  }

  /** `staged` holds the pages `pages`, in order, each staged as it should be. */
  ghost predicate StagedAs(staged: seq<StagedPage>, pages: seq<nat>, estimate: Estimate, renderer: Renderer, cap: nat) {
    |staged| == |pages| &&
    forall i :: 0 <= i < |pages| ==> staged[i].index == pages[i] && Right(staged[i], estimate, renderer, cap)
  }

  lemma StagedAppend(staged: seq<StagedPage>, pages: seq<nat>, estimate: Estimate, renderer: Renderer, cap: nat,
                     page: StagedPage)
    requires StagedAs(staged, pages, estimate, renderer, cap) && Right(page, estimate, renderer, cap)
    ensures StagedAs(staged + [page], pages + [page.index], estimate, renderer, cap)
  {
  }

  ghost predicate SnapshotsOf(snapshots: seq<Snapshot>, rendered: seq<RenderedPage>) {
    |snapshots| == |rendered| && forall k :: 0 <= k < |rendered| ==> snapshots[k].of == rendered[k].image
  }

  // ---------------------------------------------------------------- staging a window

  /** The first `k` rendered pages come before page `i` of the window, the others after the pages before it. */
  ghost predicate StillToCome(rendered: seq<RenderedPage>, k: nat, indexes: seq<nat>, i: nat) {
    && k <= |rendered| && i <= |indexes|
    && (forall j, p :: 0 <= j < k && i <= p < |indexes| ==> rendered[j].index < indexes[p])
    && (forall j, p :: k <= j < |rendered| && 0 <= p < i ==> indexes[p] < rendered[j].index)
  }

  /** The next rendered page is page `i` of the window or a later one. */
  lemma NextIsLater(rendered: seq<RenderedPage>, k: nat, indexes: seq<nat>, i: nat,
                    estimate: Estimate, renderer: Renderer, cap: nat) returns (p: nat)
    requires IsRendering(rendered, indexes, estimate, renderer, cap)
    requires StillToCome(rendered, k, indexes, i) && k < |rendered|
    ensures i <= p < |indexes| && indexes[p] == rendered[k].index
    ensures renderer(indexes[p]) == Drawn(rendered[k].image) && Renders(indexes[p], estimate, renderer, cap)
  {
    hide Renders;
    assert rendered[k] in rendered;
    p :| 0 <= p < |indexes| && indexes[p] == rendered[k].index;
  }

  /**
   Looking only at the next rendered page decides correctly whether page `i` of the window was rendered,
   because both lists are in increasing order.
   */
  lemma NextIsDecisive(rendered: seq<RenderedPage>, k: nat, indexes: seq<nat>, i: nat,
                       estimate: Estimate, renderer: Renderer, cap: nat)
    requires IsRendering(rendered, indexes, estimate, renderer, cap) && Increasing(indexes)
    requires StillToCome(rendered, k, indexes, i) && i < |indexes|
    ensures Renders(indexes[i], estimate, renderer, cap) <==> k < |rendered| && rendered[k].index == indexes[i]
    ensures k < |rendered| && rendered[k].index == indexes[i] ==> renderer(indexes[i]) == Drawn(rendered[k].image)
  {
    hide Renders;
    if Renders(indexes[i], estimate, renderer, cap) {
      assert indexes[i] in indexes;
      var q :| q in rendered && q.index == indexes[i];
      var j :| 0 <= j < |rendered| && rendered[j] == q;
      assert k <= j;
      var p := NextIsLater(rendered, k, indexes, i, estimate, renderer, cap);
      assert forall x :: i < x < |indexes| ==> indexes[i] < indexes[x];
      assert forall x :: k < x < |rendered| ==> rendered[k].index < rendered[x].index;
    }
    if k < |rendered| {
      var p := NextIsLater(rendered, k, indexes, i, estimate, renderer, cap);
    }
  }

  lemma NextAdvances(rendered: seq<RenderedPage>, k: nat, indexes: seq<nat>, i: nat,
                     estimate: Estimate, renderer: Renderer, cap: nat)
    requires IsRendering(rendered, indexes, estimate, renderer, cap) && Increasing(indexes)
    requires StillToCome(rendered, k, indexes, i) && i < |indexes|
    ensures var hit := k < |rendered| && rendered[k].index == indexes[i];
            StillToCome(rendered, if hit then k + 1 else k, indexes, i + 1)
  {
    hide Renders;
    if k < |rendered| {
      var p := NextIsLater(rendered, k, indexes, i, estimate, renderer, cap);
      assert i < p ==> indexes[i] < indexes[p];
      assert forall j :: k < j < |rendered| ==> rendered[k].index < rendered[j].index;
      assert forall q :: i < q < |indexes| ==> indexes[i] < indexes[q];
    }
  }

  /** Stages the pages of a window in memory one by one, a placeholder where rendering failed. */
  method StageWindow(stage: OfficialOutputStage, plan: PlannedWindow, rendered: seq<RenderedPage>,
                     snapshots: seq<Snapshot>, ghost estimate: Estimate, ghost renderer: Renderer, ghost cap: nat,
                     done: nat, ghost memory: WindowMemory)
    returns (r: Result<nat, StageError>)
    requires plan in memory.resident
    requires Increasing(plan.indexes) && IsRendering(rendered, plan.indexes, estimate, renderer, cap)
    requires SnapshotsOf(snapshots, rendered)
    requires Increasing(stage.pages + plan.indexes) && stage.previewPages == stage.pages
    requires StagedAs(stage.staged, stage.pages, estimate, renderer, cap)
    modifies stage
    ensures r.Ok? ==> stage.pages == stage.previewPages == old(stage.pages) + plan.indexes
    ensures r.Ok? ==> StagedAs(stage.staged, stage.pages, estimate, renderer, cap)
    ensures r.Ok? ==> r.value == done + |plan.indexes|
    ensures r.Err? ==> stage.world.Rough? && r.error in {Io, Timeout}
  {
    var indexes := plan.indexes;
    var completed := done;
    var k := 0;
    assert StillToCome(rendered, 0, indexes, 0);
    for i := 0 to |indexes|
      invariant StillToCome(rendered, k, indexes, i)
      invariant stage.pages == stage.previewPages == old(stage.pages) + indexes[..i]
      invariant StagedAs(stage.staged, stage.pages, estimate, renderer, cap)
      invariant completed == done + i
    {
      hide IsRendering, Renders, StagedAs, Right, StillToCome;
      var late: bool := *;
      if stage.world.Rough? && late {
        return Err(Timeout);
      }
      var index := indexes[i];
      NextIsDecisive(rendered, k, indexes, i, estimate, renderer, cap);
      NextAdvances(rendered, k, indexes, i, estimate, renderer, cap);
      assert k <= |rendered| by { CountBound(rendered, k, indexes, i); }
      InOrder(old(stage.pages), indexes, i);
      var page;
      if !(k < |rendered| && rendered[k].index == index) {
        page := Placeholder(index);
      } else {
        page := Page(index, rendered[k].image, snapshots[k]);
        k := k + 1;
      }
      RightPage(page, estimate, renderer, cap);
      StagedAppend(stage.staged, stage.pages, estimate, renderer, cap, page);
      var preview := stage.WritePreviewPage(index);
      if preview.Err? {
        return Err(preview.error);
      }
      var prepared := stage.WritePreparedPage(index, page);
      if prepared.Err? {
        return Err(prepared.error);
      }
      assert indexes[..i + 1] == indexes[..i] + [index];
      completed := completed + 1;
    }
    assert indexes[..|indexes|] == indexes;
    r := Ok(completed);
  }

  lemma CountBound(rendered: seq<RenderedPage>, k: nat, indexes: seq<nat>, i: nat)
    requires StillToCome(rendered, k, indexes, i)
    ensures k <= |rendered|
  {
  }

  lemma InOrder(pages: seq<nat>, indexes: seq<nat>, i: nat)
    requires Increasing(pages + indexes) && i < |indexes|
    ensures var written := pages + indexes[..i];
            written != [] ==> written[|written| - 1] < indexes[i]
  {
    var all := pages + indexes;
    assert all[|pages| + i] == indexes[i];
    assert forall j :: 0 <= j < |pages| + i ==> all[j] < all[|pages| + i];
    if |pages| + i > 0 {
      assert (pages + indexes[..i])[|pages| + i - 1] == all[|pages| + i - 1];
    }
  }

  lemma RightPage(page: StagedPage, estimate: Estimate, renderer: Renderer, cap: nat)
    requires page.Placeholder? ==> !Renders(page.index, estimate, renderer, cap)
    requires page.Page? ==> Renders(page.index, estimate, renderer, cap) &&
                            renderer(page.index) == Drawn(page.image) && page.snapshot.of == page.image
    ensures Right(page, estimate, renderer, cap)
  {
  }
}
