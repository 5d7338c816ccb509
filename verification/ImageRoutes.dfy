/**
 When the scan for images gives up.

 The scan is retold as a walk of small steps with the references that are open and the depth so far.  Its answer is
 an error only if some route comes to a place where it must give up, and a negative answer rules out every such
 place as well as every image.
 */
module ImageRoutes {
  import opened ImageScan
  import opened Wrappers

  /**
   A node on the way, with the references on its path and its depth.  `open` and `depth` differ from them while a
   dictionary is looked for behind its references.
   */
  datatype Place = Place(node: Node, path: set<Id>, level: nat, open: set<Id>, depth: nat)

  function At(node: Node, path: set<Id>, level: nat): Place {
    Place(node, path, level, path, level)
  }

  /** A reference that cannot be followed: it is open already, leads nowhere, or would be the 33rd step down. */
  predicate DeadEnd(document: Document, id: Id, p: Place) {
    id in p.open || id !in document || p.depth >= 32
  }

  /** Where the scan gives up. */
  predicate Fails(document: Document, p: Place) {
    match p.node
    case Page(id) =>
      id in p.open || id !in document || !document[id].Dictionary? ||
      (var resources, parent := Get(document[id].entries, "Resources"), Get(document[id].entries, "Parent");
       resources.None? && parent.Some? && parent.value.Reference? && p.depth >= 32)
    case Resources(o) =>
      (match o
       case Reference(id) => DeadEnd(document, id, p)
       case Dictionary(entries) => Get(entries, "XObject").Some? && p.level >= 32
       case _ => true)
    case XObjects(o) =>
      (match o
       case Reference(id) => DeadEnd(document, id, p)
       case Dictionary(_) => false
       case _ => true)
    case XObject(o) =>
      (match o
       case Reference(id) => DeadEnd(document, id, p)
       case Stream(subtype, inline, resources) =>
         subtype == Form && (inline.Err? || (inline == Ok(false) && resources.Some? && p.depth >= 32))
       case _ => true)
  }

  /** The place at a node one step on. */
  function StepTo(p: Place, node: Node): Place {
    match p.node
    case Page(id) => if node.Page? then At(node, p.path + {id}, p.level + 1) else At(node, {}, p.level)
    case Resources(o) =>
      if o.Reference? then p.(node := node, open := p.open + {o.id}, depth := p.depth + 1)
      else At(node, p.path, p.level + 1)
    case XObjects(o) =>
      if o.Reference? then p.(node := node, open := p.open + {o.id}, depth := p.depth + 1)
      else At(node, p.path, p.level)
    case XObject(o) => At(node, if o.Reference? then p.path + {o.id} else p.path, p.level + 1)
  }

  /** The scan goes on from a place unless it gives up there or has found an image. */
  ghost predicate Moves(document: Document, p: Place, q: Place) {
    !Fails(document, p) && !IsImage(p.node) && Edge(document, p.node, q.node) && q == StepTo(p, q.node)
  }

  ghost predicate IsRoute(document: Document, start: Place, route: seq<Place>) {
    && route != [] && route[0] == start
    && forall i, j :: 0 <= i && j == i + 1 < |route| ==> Moves(document, route[i], route[j])
  }

  /** Some route comes to a place where the scan gives up. */
  ghost predicate MayFail(document: Document, start: Place) {
    exists route: seq<Place> :: IsRoute(document, start, route) && Fails(document, route[|route| - 1])
  }

  /** Some route comes to an image. */
  ghost predicate MayFind(document: Document, start: Place) {
    exists route: seq<Place> :: IsRoute(document, start, route) && IsImage(route[|route| - 1].node)
  }

  /** What an answer means at a place. */
  ghost predicate Explains(document: Document, start: Place, answer: Result<bool, ()>) {
    match answer
    case Err(_) => MayFail(document, start)
    case Ok(found) => if found then MayFind(document, start)
                      else !MayFail(document, start) && !MayFind(document, start)
  }

  lemma ExplainHere(document: Document, start: Place)
    ensures Fails(document, start) ==> Explains(document, start, Err(()))
    ensures IsImage(start.node) ==> Explains(document, start, Ok(true))
  {
    assert IsRoute(document, start, [start]);
  }

  lemma ExplainStep(document: Document, start: Place, next: Place, answer: Result<bool, ()>)
    requires Moves(document, start, next) && answer != Ok(false) && Explains(document, next, answer)
    ensures Explains(document, start, answer)
  {
    hide Moves, Fails;
    if answer.Err? {
      var route: seq<Place> :| IsRoute(document, next, route) && Fails(document, route[|route| - 1]);
      var longer := [start] + route;
      assert IsRoute(document, start, longer) && longer[|longer| - 1] == route[|route| - 1];
    } else {
      var route: seq<Place> :| IsRoute(document, next, route) && IsImage(route[|route| - 1].node);
      var longer := [start] + route;
      assert IsRoute(document, start, longer) && longer[|longer| - 1] == route[|route| - 1];
    }
  }

  lemma ExplainNothing(document: Document, start: Place)
    requires !Fails(document, start) && !IsImage(start.node)
    requires forall next :: Moves(document, start, next) ==> Explains(document, next, Ok(false))
    ensures Explains(document, start, Ok(false))
  {
    hide Moves, Fails;
    forall route: seq<Place> | IsRoute(document, start, route)
      ensures !Fails(document, route[|route| - 1]) && !IsImage(route[|route| - 1].node)
    {
      if |route| > 1 {
        RestOfRoute(document, start, route);
      }
    }
  }

  lemma RestOfRoute(document: Document, start: Place, route: seq<Place>)
    requires IsRoute(document, start, route) && |route| > 1
    ensures Moves(document, start, route[1]) && IsRoute(document, route[1], route[1..])
    ensures route[1..][|route| - 2] == route[|route| - 1]
  {
    hide Moves;
    var k := 0 + 1;
    assert Moves(document, route[0], route[k]);
    forall i, j | 0 <= i && j == i + 1 < |route[1..]| ensures Moves(document, route[1..][i], route[1..][j]) {
      assert route[1..][i] == route[i + 1] && route[1..][j] == route[j + 1];
    }
  }

  /** A place with one way on has the answer of the next. */
  lemma ExplainOnly(document: Document, start: Place, next: Place, answer: Result<bool, ()>)
    requires Moves(document, start, next) && Explains(document, next, answer)
    requires forall other :: Moves(document, start, other) ==> other == next
    ensures Explains(document, start, answer)
  {
    hide Fails, StepTo, Explains;
    if answer == Ok(false) {
      ExplainNothing(document, start);
    } else {
      ExplainStep(document, start, next, answer);
    }
  }

  lemma AnswerIs(answer: Result<bool, ()>)
    ensures answer == Err(()) || answer == Ok(true) || answer == Ok(false)
  {
    if answer.Ok? {
      var found := answer.value;
      assert answer == if found then Ok(true) else Ok(false);
    } else {
      var e := answer.error;
      assert answer == Err(e) && e == ();
    }
  }

  // ---------------------------------------------------------------- the scan, place by place

  /** What scanning resources gives when their dictionary is looked for at some depth. */
  function ResourcesAnswer(document: Document, p: Place, o: Object): Result<bool, ()> {
    var resources := Resolve(document, o, p.open, p.depth);
    if resources.Err? then Err(()) else
    var xobjects := Get(resources.value, "XObject");
    if xobjects.None? then Ok(false) else
    if p.level + 1 > MAX_RESOURCE_DEPTH then Err(()) else
    XObjectsAnswer(document, At(XObjects(xobjects.value), p.path, p.level + 1), xobjects.value)
  }

  function XObjectsAnswer(document: Document, p: Place, o: Object): Result<bool, ()> {
    var entries := Resolve(document, o, p.open, p.depth);
    if entries.Err? then Err(()) else ScanEntries(document, entries.value, 0, p.path, p.level)
  }

  lemma ScanAnswers(document: Document, p: Place, o: Object)
    requires p == At(Resources(o), p.path, p.level) && p.level <= 32
    ensures ScanResources(document, o, p.path, p.level) == ResourcesAnswer(document, p, o)
  {
    hide Resolve, ScanEntries;
  }

  lemma {:induction false} ResourcesExplained(document: Document, p: Place, o: Object)
    requires p.node == Resources(o) && p.level <= p.depth <= 32
    ensures Explains(document, p, ResourcesAnswer(document, p, o))
    decreases 33 - p.level, 3, 33 - p.depth
  {
    hide Explains, ScanEntries;
    match o
    case Reference(id) =>
      if DeadEnd(document, id, p) {
        ExplainHere(document, p);
      } else {
        var next := StepTo(p, Resources(document[id]));
        ResourcesExplained(document, next, document[id]);
        ExplainOnly(document, p, next, ResourcesAnswer(document, p, o));
      }
    case Dictionary(entries) =>
      var xobjects := Get(entries, "XObject");
      if Fails(document, p) {
        ExplainHere(document, p);
      } else if xobjects.Some? {
        var next := StepTo(p, XObjects(xobjects.value));
        XObjectsExplained(document, next, xobjects.value);
        ExplainOnly(document, p, next, ResourcesAnswer(document, p, o));
      } else {
        ExplainNothing(document, p);
      }
    case _ =>
      ExplainHere(document, p);
  }

  lemma {:induction false} XObjectsExplained(document: Document, p: Place, o: Object)
    requires p.node == XObjects(o) && p.level <= p.depth <= 32
    ensures Explains(document, p, XObjectsAnswer(document, p, o))
    decreases 33 - p.level, 2, 33 - p.depth
  {
    hide Explains, ScanEntries;
    match o
    case Reference(id) =>
      if DeadEnd(document, id, p) {
        ExplainHere(document, p);
      } else {
        var next := StepTo(p, XObjects(document[id]));
        XObjectsExplained(document, next, document[id]);
        ExplainOnly(document, p, next, XObjectsAnswer(document, p, o));
      }
    case Dictionary(entries) =>
      EntriesExplained(document, p, entries);
    case _ =>
      ExplainHere(document, p);
  }

  /** The first entry that is an error or leads to an image decides. */
  lemma {:induction false} FirstDecides(document: Document, entries: seq<(string, Object)>, from: nat, path: set<Id>,
                                        level: nat) returns (k: nat)
    requires from <= |entries| && ScanEntries(document, entries, from, path, level) != Ok(false)
    ensures from <= k < |entries|
    ensures ScanObject(document, entries[k].1, path, level) == ScanEntries(document, entries, from, path, level)
    ensures forall i :: from <= i < k ==> ScanObject(document, entries[i].1, path, level) == Ok(false)
    decreases |entries| - from
  {
    hide ScanObject;
    if ScanObject(document, entries[from].1, path, level) != Ok(false) {
      k := from;
    } else {
      k := FirstDecides(document, entries, from + 1, path, level);
    }
  }

  lemma {:induction false} EntriesExplained(document: Document, p: Place, entries: seq<(string, Object)>)
    requires p.node == XObjects(Dictionary(entries)) && p.level <= 32
    ensures Explains(document, p, ScanEntries(document, entries, 0, p.path, p.level))
    decreases 33 - p.level, 1, 0
  {
    hide Explains, ScanObject;
    var answer := ScanEntries(document, entries, 0, p.path, p.level);
    if answer != Ok(false) {
      var k := FirstDecides(document, entries, 0, p.path, p.level);
      assert (entries[k].0, entries[k].1) in entries;
      var next := StepTo(p, XObject(entries[k].1));
      ObjectExplained(document, next, entries[k].1);
      ExplainStep(document, p, next, answer);
    } else {
      forall next | Moves(document, p, next) ensures Explains(document, next, Ok(false)) {
        var key :| (key, next.node.o) in entries;
        var k :| 0 <= k < |entries| && entries[k] == (key, next.node.o);
        EntryScanned(document, entries, 0, k, p.path, p.level);
        ObjectExplained(document, next, next.node.o);
      }
      ExplainNothing(document, p);
    }
  }

  lemma {:induction false} ObjectExplained(document: Document, p: Place, o: Object)
    requires p == At(XObject(o), p.path, p.level) && p.level <= 32
    ensures Explains(document, p, ScanObject(document, o, p.path, p.level))
    decreases 33 - p.level, 0, 0
  {
    hide Explains, ScanEntries, ScanResources, ResourcesAnswer;
    match o
    case Reference(id) =>
      if DeadEnd(document, id, p) {
        ExplainHere(document, p);
      } else {
        var next := StepTo(p, XObject(document[id]));
        ObjectExplained(document, next, document[id]);
        ExplainOnly(document, p, next, ScanObject(document, o, p.path, p.level));
      }
    case Stream(subtype, inline, resources) =>
      AnswerIs(inline);
      if Fails(document, p) || IsImage(p.node) {
        ExplainHere(document, p);
      } else if subtype == Form && resources.Some? {
        var next := StepTo(p, Resources(resources.value));
        ResourcesExplained(document, next, resources.value);
        ScanAnswers(document, next, resources.value);
        ExplainOnly(document, p, next, ScanObject(document, o, p.path, p.level));
      } else {
        ExplainNothing(document, p);
      }
    case _ =>
      ExplainHere(document, p);
  }

  // ---------------------------------------------------------------- pages

  lemma {:induction false} PageExplained(document: Document, p: Place, page: Id)
    requires p == At(Page(page), p.path, p.level) && p.level <= 32
    ensures Explains(document, p, ScanPage(document, page, p.path, p.level))
    decreases 33 - p.level
  {
    hide Explains, ScanEntries, ScanResources, ResourcesAnswer;
    if Fails(document, p) {
      ExplainHere(document, p);
    } else {
      var resources, parent := Get(document[page].entries, "Resources"), Get(document[page].entries, "Parent");
      if resources.Some? {
        var next := StepTo(p, Resources(resources.value));
        ResourcesExplained(document, next, resources.value);
        ScanAnswers(document, next, resources.value);
        ExplainOnly(document, p, next, ScanPage(document, page, p.path, p.level));
      } else if parent.Some? && parent.value.Reference? {
        var next := StepTo(p, Page(parent.value.id));
        PageExplained(document, next, parent.value.id);
        ExplainOnly(document, p, next, ScanPage(document, page, p.path, p.level));
      } else {
        ExplainNothing(document, p);
      }
    }
  }

  /** A page where the scan may give up: in decoding its content, or on a route through its resources. */
  ghost predicate PageMayFail(document: Document, page: Id, contents: PageContents) {
    contents(page).Err? || (contents(page) == Ok(false) && MayFail(document, At(Page(page), {}, 0)))
  }

  ghost predicate PageMayFind(document: Document, page: Id, contents: PageContents) {
    contents(page) == Ok(true) || (contents(page) == Ok(false) && MayFind(document, At(Page(page), {}, 0)))
  }

  lemma {:induction false} PagesExplained(document: Document, pages: seq<Id>, k: nat, contents: PageContents)
    requires k <= |pages|
    ensures var r := ScanPages(document, pages, k, contents);
            && (r.Err? ==> exists i :: k <= i < |pages| && PageMayFail(document, pages[i], contents))
            && (r == Ok(true) ==> exists i :: k <= i < |pages| && PageMayFind(document, pages[i], contents))
            && (r == Ok(false) ==> forall i :: k <= i < |pages| ==>
                  !PageMayFail(document, pages[i], contents) && !PageMayFind(document, pages[i], contents))
    decreases |pages| - k
  {
    hide ScanPage, MayFail, MayFind;
    if k < |pages| {
      PageExplained(document, At(Page(pages[k]), {}, 0), pages[k]);
      PagesExplained(document, pages, k + 1, contents);
    }
  }

  /**
   Where there is no image to be found, the scan gives up exactly if it may fail on some page; where it cannot fail,
   it says exactly whether there is an image.
   */
  lemma ScanIsExact(document: Document, pages: seq<Id>, contents: PageContents)
    ensures var r := ScanPages(document, pages, 0, contents);
            && ((forall i :: 0 <= i < |pages| ==> !PageMayFind(document, pages[i], contents)) ==>
                  (r.Err? <==> exists i :: 0 <= i < |pages| && PageMayFail(document, pages[i], contents)))
            && ((forall i :: 0 <= i < |pages| ==> !PageMayFail(document, pages[i], contents)) ==>
                  r == Ok(exists i :: 0 <= i < |pages| && PageMayFind(document, pages[i], contents)))
  {
    hide PageMayFail, PageMayFind, ScanPages;
    PagesExplained(document, pages, 0, contents);
    AnswerIs(ScanPages(document, pages, 0, contents));
  }
}
