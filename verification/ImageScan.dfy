/**
 Looking for images in the resource graph of a PDF: pages, resource dictionaries and nested forms.

 The scan is bounded in depth, keeps the references on its current path to notice cycles, and remembers for each
 form whether its content has an inline image.  A negative answer is proved sound for the whole graph.
 */
module ImageScan {
  import opened Wrappers

  const MAX_RESOURCE_DEPTH := 32

  type Id = nat

  datatype Subtype = Image | Form | OtherSubtype

  /** `inline` is what decoding the stream's content gives: whether it holds an inline image, or an error. */
  datatype Object =
    | Reference(id: Id)
    | Dictionary(entries: seq<(string, Object)>)
    | Stream(subtype: Subtype, inline: Result<bool, ()>, resources: Option<Object>)
    | Other

  type Document = map<Id, Object>

  function Get(entries: seq<(string, Object)>, key: string): (value: Option<Object>)
    ensures value.Some? ==> (key, value.value) in entries
  {
    if entries == [] then None
    else if entries[0].0 == key then Some(entries[0].1)
    else Get(entries[1..], key)
  }

  /** An entry is found where its key first stands, and none only if the key stands nowhere. */
  lemma {:induction false} GetIsFirst(entries: seq<(string, Object)>, key: string, k: nat)
    requires k < |entries| && entries[k].0 == key && forall i :: 0 <= i < k ==> entries[i].0 != key
    ensures Get(entries, key) == Some(entries[k].1)
    decreases k
  {
    if k > 0 {
      assert entries[0].0 != key;
      assert entries[1..][k - 1] == entries[k];
      GetIsFirst(entries[1..], key, k - 1);
    }
  }

  // ---------------------------------------------------------------- the graph

  /** A page, an object in the place of resources or of an XObject dictionary, or an XObject. */
  datatype Node = Page(id: Id) | Resources(o: Object) | XObjects(o: Object) | XObject(o: Object)

  /** Whether one step leads from `n` to `m`. */
  ghost predicate Edge(document: Document, n: Node, m: Node) {
    match n
    case Page(id) =>
      id in document && document[id].Dictionary? &&
      var resources, parent := Get(document[id].entries, "Resources"), Get(document[id].entries, "Parent");
      if resources.Some? then m == Resources(resources.value)
      else parent.Some? && parent.value.Reference? && m == Page(parent.value.id)
    case Resources(o) =>
      if o.Reference? then o.id in document && m == Resources(document[o.id])
      else o.Dictionary? && Get(o.entries, "XObject").Some? && m == XObjects(Get(o.entries, "XObject").value)
    case XObjects(o) =>
      if o.Reference? then o.id in document && m == XObjects(document[o.id])
      else o.Dictionary? && m.XObject? && exists key :: (key, m.o) in o.entries
    case XObject(o) =>
      if o.Reference? then o.id in document && m == XObject(document[o.id])
      else o.Stream? && o.subtype == Form && o.resources.Some? && m == Resources(o.resources.value)
  }

  /** An image, or a form with an inline image. */
  predicate IsImage(n: Node) {
    n.XObject? && n.o.Stream? && (n.o.subtype == Image || (n.o.subtype == Form && n.o.inline == Ok(true)))
  }

  ghost predicate IsWalk(document: Document, walk: seq<Node>) {
    walk != [] && forall i, j :: 0 <= i < |walk| && j == i + 1 < |walk| ==> Edge(document, walk[i], walk[j])
  }

  ghost predicate WalkFrom(document: Document, start: Node, walk: seq<Node>) {
    IsWalk(document, walk) && walk[0] == start
  }

  /** No walk from `start` ends at an image, and none takes more than `bound` steps. */
  ghost predicate Clear(document: Document, start: Node, bound: nat) {
    forall walk :: WalkFrom(document, start, walk) ==> !IsImage(walk[|walk| - 1]) && |walk| <= bound + 1
  }

  ghost predicate LeadsToImage(document: Document, start: Node) {
    exists walk :: WalkFrom(document, start, walk) && IsImage(walk[|walk| - 1])
  }

  lemma RestOfWalk(document: Document, start: Node, walk: seq<Node>)
    requires WalkFrom(document, start, walk) && |walk| > 1
    ensures Edge(document, start, walk[1]) && WalkFrom(document, walk[1], walk[1..])
    ensures walk[1..][|walk| - 2] == walk[|walk| - 1]
  {
    var k := 0 + 1;
    assert Edge(document, walk[0], walk[k]);
    forall i, j | 0 <= i < |walk[1..]| && j == i + 1 < |walk[1..]| ensures Edge(document, walk[1..][i], walk[1..][j]) {
      assert walk[1..][i] == walk[i + 1] && walk[1..][j] == walk[j + 1];
    }
  }

  /** A node that is no image is clear when everything one step away is. */
  lemma ClearStep(document: Document, start: Node, bound: nat)
    requires !IsImage(start)
    requires forall next :: Edge(document, start, next) ==> bound > 0 && Clear(document, next, bound - 1)
    ensures Clear(document, start, bound)
  {
    forall walk | WalkFrom(document, start, walk) ensures !IsImage(walk[|walk| - 1]) && |walk| <= bound + 1 {
      if |walk| > 1 {
        RestOfWalk(document, start, walk);
      }
    }
  }

  lemma ClearWeaken(document: Document, start: Node, bound: nat, larger: nat)
    requires Clear(document, start, bound) && bound <= larger
    ensures Clear(document, start, larger)
  {
  }

  lemma LeadsStep(document: Document, start: Node, next: Node)
    requires Edge(document, start, next) && LeadsToImage(document, next)
    ensures LeadsToImage(document, start)
  {
    var walk :| WalkFrom(document, next, walk) && IsImage(walk[|walk| - 1]);
    var longer := [start] + walk;
    assert forall i, j :: 0 <= i < |longer| && j == i + 1 < |longer| ==> Edge(document, longer[i], longer[j]);
    assert WalkFrom(document, start, longer) && longer[|longer| - 1] == walk[|walk| - 1];
  }

  lemma LeadsHere(document: Document, start: Node)
    requires IsImage(start)
    ensures LeadsToImage(document, start)
  {
    assert WalkFrom(document, start, [start]);
  }

  // ---------------------------------------------------------------- the scan, without its cache

  /** The dictionary behind a chain of references, which may not come back to one already on the path. */
  function Resolve(document: Document, o: Object, seen: set<Id>, depth: nat): Result<seq<(string, Object)>, ()>
    decreases MAX_RESOURCE_DEPTH + 1 - depth
  {
    if depth > MAX_RESOURCE_DEPTH then Err(()) else
    match o
    case Reference(id) =>
      if id in seen || id !in document || depth + 1 > MAX_RESOURCE_DEPTH then Err(())
      else Resolve(document, document[id], seen + {id}, depth + 1)
    case Dictionary(entries) => Ok(entries)
    case _ => Err(())
  }

  function ScanResources(document: Document, o: Object, seen: set<Id>, depth: nat): Result<bool, ()>
    decreases MAX_RESOURCE_DEPTH + 1 - depth, 0, 0
  {
    if depth > MAX_RESOURCE_DEPTH then Err(()) else
    var resources := Resolve(document, o, seen, depth);
    if resources.Err? then Err(()) else
    var xobjects := Get(resources.value, "XObject");
    if xobjects.None? then Ok(false) else
    if depth + 1 > MAX_RESOURCE_DEPTH then Err(()) else
    var entries := Resolve(document, xobjects.value, seen, depth + 1);
    if entries.Err? then Err(()) else ScanEntries(document, entries.value, 0, seen, depth + 1)
  }

  /** The entries from `k` on, up to the first image or error. */
  function ScanEntries(document: Document, entries: seq<(string, Object)>, k: nat, seen: set<Id>,
                       depth: nat): Result<bool, ()>
    requires k <= |entries|
    decreases MAX_RESOURCE_DEPTH + 1 - depth, 1, |entries| - k
  {
    if k == |entries| then Ok(false) else
    var first := ScanObject(document, entries[k].1, seen, depth);
    if first != Ok(false) then first else ScanEntries(document, entries, k + 1, seen, depth)
  }

  function ScanObject(document: Document, o: Object, seen: set<Id>, depth: nat): Result<bool, ()>
    decreases MAX_RESOURCE_DEPTH + 1 - depth, 0, 0
  {
    if depth > MAX_RESOURCE_DEPTH then Err(()) else
    match o
    case Reference(id) =>
      if id in seen || id !in document || depth + 1 > MAX_RESOURCE_DEPTH then Err(())
      else ScanObject(document, document[id], seen + {id}, depth + 1)
    case Stream(subtype, inline, resources) =>
      if subtype == Image then Ok(true)
      else if subtype != Form then Ok(false)
      else if inline != Ok(false) then inline
      else if resources.None? then Ok(false)
      else if depth + 1 > MAX_RESOURCE_DEPTH then Err(())
      else ScanResources(document, resources.value, seen, depth + 1)
    case _ => Err(())
  }

  // ---------------------------------------------------------------- a negative answer

  /** Steps that are enough for any walk from an XObject scanned at `depth`. */
  function Bound(depth: nat): nat
    requires depth <= MAX_RESOURCE_DEPTH + 1
  {
    (MAX_RESOURCE_DEPTH + 1 - depth) * (2 * MAX_RESOURCE_DEPTH + 4)
  }

  /** What is true of everything the dictionary leads to is true behind the references to it, too. */
  lemma {:induction false} ResolvedClear(document: Document, o: Object, seen: set<Id>, depth: nat, resources: bool,
                                         bound: nat)
    requires var r := Resolve(document, o, seen, depth);
             r.Ok? && Clear(document, if resources then Resources(Dictionary(r.value))
                 else XObjects(Dictionary(r.value)), bound)
    ensures depth <= MAX_RESOURCE_DEPTH
        && Clear(document, if resources then Resources(o) else XObjects(o), bound + MAX_RESOURCE_DEPTH - depth)
    decreases MAX_RESOURCE_DEPTH + 1 - depth
  {
    hide Clear;
    if o.Reference? {
      ResolvedClear(document, document[o.id], seen + {o.id}, depth + 1, resources, bound);
      ClearStep(document, if resources then Resources(o) else XObjects(o), bound + MAX_RESOURCE_DEPTH - depth);
    } else {
      ClearWeaken(document, if resources then Resources(o) else XObjects(o), bound, bound + MAX_RESOURCE_DEPTH - depth);
    }
  }

  lemma {:induction false} ResourcesClear(document: Document, o: Object, seen: set<Id>, depth: nat)
    requires ScanResources(document, o, seen, depth) == Ok(false)
    ensures depth <= MAX_RESOURCE_DEPTH && Clear(document, Resources(o), Bound(depth + 1) + 2 * MAX_RESOURCE_DEPTH + 2)
    decreases MAX_RESOURCE_DEPTH + 1 - depth, 0, 0
  {
    hide Clear, Bound;
    var found := Resolve(document, o, seen, depth).value;
    var xobjects := Get(found, "XObject");
    var bound := Bound(depth + 1) + MAX_RESOURCE_DEPTH + 2;
    if xobjects.Some? {
      var entries := Resolve(document, xobjects.value, seen, depth + 1).value;
      EntriesClear(document, entries, seen, depth + 1);
      ClearStep(document, XObjects(Dictionary(entries)), Bound(depth + 1) + 1);
      ResolvedClear(document, xobjects.value, seen, depth + 1, false, Bound(depth + 1) + 1);
      ClearWeaken(document, XObjects(xobjects.value), Bound(depth + 1) + 1 + MAX_RESOURCE_DEPTH - (depth + 1),
                  bound - 1);
    }
    ClearStep(document, Resources(Dictionary(found)), bound);
    ResolvedClear(document, o, seen, depth, true, bound);
    ClearWeaken(document, Resources(o), bound + MAX_RESOURCE_DEPTH - depth, bound + MAX_RESOURCE_DEPTH);
  }

  lemma {:induction false} EntriesClear(document: Document, entries: seq<(string, Object)>, seen: set<Id>, depth: nat)
    requires ScanEntries(document, entries, 0, seen, depth) == Ok(false) && depth <= MAX_RESOURCE_DEPTH
    ensures forall next :: Edge(document, XObjects(Dictionary(entries)), next) ==> Clear(document, next, Bound(depth))
    decreases MAX_RESOURCE_DEPTH + 1 - depth, 1, 0
  {
    hide Clear, Bound, ScanObject;
    forall next | Edge(document, XObjects(Dictionary(entries)), next) ensures Clear(document, next, Bound(depth)) {
      var key :| (key, next.o) in entries;
      var k :| 0 <= k < |entries| && entries[k] == (key, next.o);
      EntryScanned(document, entries, 0, k, seen, depth);
      ObjectClear(document, next.o, seen, depth);
    }
  }

  lemma {:induction false} EntryScanned(document: Document, entries: seq<(string, Object)>, from: nat, k: nat,
                                        seen: set<Id>, depth: nat)
    requires from <= k < |entries| && ScanEntries(document, entries, from, seen, depth) == Ok(false)
    ensures ScanObject(document, entries[k].1, seen, depth) == Ok(false)
    decreases k - from
  {
    if from < k {
      EntryScanned(document, entries, from + 1, k, seen, depth);
    }
  }

  /** If the scan of an XObject finds nothing, there is nothing, and every walk from it is short. */
  lemma {:induction false} ObjectClear(document: Document, o: Object, seen: set<Id>, depth: nat)
    requires ScanObject(document, o, seen, depth) == Ok(false)
    ensures depth <= MAX_RESOURCE_DEPTH && Clear(document, XObject(o), Bound(depth))
    decreases MAX_RESOURCE_DEPTH + 1 - depth, 0, 0
  {
    hide Clear, ScanResources;
    match o
    case Reference(id) =>
      ObjectClear(document, document[id], seen + {id}, depth + 1);
      ClearWeaken(document, XObject(document[id]), Bound(depth + 1), Bound(depth) - 1);
      ClearStep(document, XObject(o), Bound(depth));
    case Stream(subtype, inline, resources) =>
      if subtype == Form && resources.Some? {
        ResourcesClear(document, resources.value, seen, depth + 1);
        ClearWeaken(document, Resources(resources.value), Bound(depth + 2) + 2 * MAX_RESOURCE_DEPTH + 2,
                    Bound(depth) - 1);
      }
      ClearStep(document, XObject(o), Bound(depth));
  }

  /** Bounded walks cannot come back to a node they have passed: going round once more would give a longer one. */
  lemma {:induction false} NoCycle(document: Document, start: Node, bound: nat, walk: seq<Node>, i: nat, j: nat)
    requires Clear(document, start, bound) && WalkFrom(document, start, walk) && i < j < |walk|
    ensures walk[i] != walk[j]
    decreases bound + 1 - |walk|
  {
    if walk[i] == walk[j] {
      var longer := walk[..j] + walk[i..];
      forall a, b | 0 <= a < |longer| && b == a + 1 < |longer| ensures Edge(document, longer[a], longer[b]) {
        var c := if a < j then a else a - j + i;
        var d := c + 1;
        assert longer[a] == walk[c] && Edge(document, walk[c], walk[d]);
      }
      assert WalkFrom(document, start, longer);
      NoCycle(document, start, bound, longer, i, j);
    }
  }

  // ---------------------------------------------------------------- a positive answer

  lemma {:induction false} ResolvedLeads(document: Document, o: Object, seen: set<Id>, depth: nat, resources: bool)
    requires var r := Resolve(document, o, seen, depth);
             r.Ok? && LeadsToImage(document, if resources then Resources(Dictionary(r.value))
                 else XObjects(Dictionary(r.value)))
    ensures LeadsToImage(document, if resources then Resources(o) else XObjects(o))
    decreases MAX_RESOURCE_DEPTH + 1 - depth
  {
    hide LeadsToImage;
    if o.Reference? {
      var target := document[o.id];
      ResolvedLeads(document, target, seen + {o.id}, depth + 1, resources);
      LeadsStep(document, if resources then Resources(o) else XObjects(o),
                if resources then Resources(target) else XObjects(target));
    }
  }

  lemma {:induction false} ResourcesLead(document: Document, o: Object, seen: set<Id>, depth: nat)
    requires ScanResources(document, o, seen, depth) == Ok(true)
    ensures LeadsToImage(document, Resources(o))
    decreases MAX_RESOURCE_DEPTH + 1 - depth, 0, 0
  {
    hide LeadsToImage;
    var found := Resolve(document, o, seen, depth).value;
    var xobjects := Get(found, "XObject").value;
    var entries := Resolve(document, xobjects, seen, depth + 1).value;
    EntriesLead(document, entries, 0, seen, depth + 1);
    ResolvedLeads(document, xobjects, seen, depth + 1, false);
    LeadsStep(document, Resources(Dictionary(found)), XObjects(xobjects));
    ResolvedLeads(document, o, seen, depth, true);
  }

  lemma {:induction false} EntriesLead(document: Document, entries: seq<(string, Object)>, k: nat, seen: set<Id>,
                                       depth: nat)
    requires k <= |entries| && ScanEntries(document, entries, k, seen, depth) == Ok(true)
    ensures LeadsToImage(document, XObjects(Dictionary(entries)))
    decreases MAX_RESOURCE_DEPTH + 1 - depth, 1, |entries| - k
  {
    hide LeadsToImage, ScanObject;
    if ScanObject(document, entries[k].1, seen, depth) == Ok(true) {
      ObjectLeads(document, entries[k].1, seen, depth);
      assert (entries[k].0, entries[k].1) in entries;
      LeadsStep(document, XObjects(Dictionary(entries)), XObject(entries[k].1));
    } else {
      EntriesLead(document, entries, k + 1, seen, depth);
    }
  }

  /** If the scan of an XObject finds an image, the object leads to one. */
  lemma {:induction false} ObjectLeads(document: Document, o: Object, seen: set<Id>, depth: nat)
    requires ScanObject(document, o, seen, depth) == Ok(true)
    ensures LeadsToImage(document, XObject(o))
    decreases MAX_RESOURCE_DEPTH + 1 - depth, 0, 0
  {
    hide LeadsToImage, ScanResources;
    match o
    case Reference(id) =>
      ObjectLeads(document, document[id], seen + {id}, depth + 1);
      LeadsStep(document, XObject(o), XObject(document[id]));
    case Stream(subtype, inline, resources) =>
      if IsImage(XObject(o)) {
        LeadsHere(document, XObject(o));
      } else {
        ResourcesLead(document, resources.value, seen, depth + 1);
        LeadsStep(document, XObject(o), Resources(resources.value));
      }
  }

  // ---------------------------------------------------------------- pages

  /** The resources of a page are its own or those of its nearest ancestor. */
  function ScanPage(document: Document, page: Id, seen: set<Id>, depth: nat): Result<bool, ()>
    decreases MAX_RESOURCE_DEPTH + 1 - depth
  {
    if depth > MAX_RESOURCE_DEPTH || page in seen || page !in document || !document[page].Dictionary? then Err(()) else
    var resources, parent := Get(document[page].entries, "Resources"), Get(document[page].entries, "Parent");
    if resources.Some? then ScanResources(document, resources.value, {}, depth)
    else if parent.None? || !parent.value.Reference? then Ok(false)
    else if depth + 1 > MAX_RESOURCE_DEPTH then Err(())
    else ScanPage(document, parent.value.id, seen + {page}, depth + 1)
  }

  /** What decoding the content of each page gives: whether it holds an inline image, or an error. */
  type PageContents = Id -> Result<bool, ()>

  function ScanPages(document: Document, pages: seq<Id>, k: nat, contents: PageContents): Result<bool, ()>
    requires k <= |pages|
    decreases |pages| - k
  {
    if k == |pages| then Ok(false)
    else if contents(pages[k]) != Ok(false) then contents(pages[k])
    else if ScanPage(document, pages[k], {}, 0) != Ok(false) then ScanPage(document, pages[k], {}, 0)
    else ScanPages(document, pages, k + 1, contents)
  }

  const PAGE_BOUND: nat := 3000

  lemma {:induction false} PageClear(document: Document, page: Id, seen: set<Id>, depth: nat)
    requires ScanPage(document, page, seen, depth) == Ok(false)
    ensures depth <= MAX_RESOURCE_DEPTH && Clear(document, Page(page), PAGE_BOUND - depth)
    decreases MAX_RESOURCE_DEPTH + 1 - depth
  {
    hide Clear, ScanResources;
    var resources, parent := Get(document[page].entries, "Resources"), Get(document[page].entries, "Parent");
    if resources.Some? {
      ResourcesClear(document, resources.value, {}, depth);
      ClearWeaken(document, Resources(resources.value), Bound(depth + 1) + 2 * MAX_RESOURCE_DEPTH + 2,
                  PAGE_BOUND - depth - 1);
    } else if parent.Some? && parent.value.Reference? {
      PageClear(document, parent.value.id, seen + {page}, depth + 1);
    }
    ClearStep(document, Page(page), PAGE_BOUND - depth);
  }

  lemma {:induction false} PageLeads(document: Document, page: Id, seen: set<Id>, depth: nat)
    requires ScanPage(document, page, seen, depth) == Ok(true)
    ensures LeadsToImage(document, Page(page))
    decreases MAX_RESOURCE_DEPTH + 1 - depth
  {
    hide LeadsToImage, ScanResources;
    var resources, parent := Get(document[page].entries, "Resources"), Get(document[page].entries, "Parent");
    if resources.Some? {
      ResourcesLead(document, resources.value, {}, depth);
      LeadsStep(document, Page(page), Resources(resources.value));
    } else {
      PageLeads(document, parent.value.id, seen + {page}, depth + 1);
      LeadsStep(document, Page(page), Page(parent.value.id));
    }
  }

  /** The page has no image, in its content or anywhere in its resources, and its resources are acyclic. */
  ghost predicate NoImages(document: Document, page: Id, contents: PageContents) {
    && contents(page) == Ok(false)
    && !LeadsToImage(document, Page(page))
    && forall walk, i, j :: WalkFrom(document, Page(page), walk) && 0 <= i < j < |walk| ==> walk[i] != walk[j]
  }

  lemma ClearPage(document: Document, page: Id, contents: PageContents)
    requires contents(page) == Ok(false) && ScanPage(document, page, {}, 0) == Ok(false)
    ensures NoImages(document, page, contents)
  {
    hide ScanPage;
    PageClear(document, page, {}, 0);
    forall walk, i, j | WalkFrom(document, Page(page), walk) && 0 <= i < j < |walk| ensures walk[i] != walk[j] {
      NoCycle(document, Page(page), PAGE_BOUND, walk, i, j);
    }
  }

  /** A negative answer holds for every page, a positive one is justified by some page. */
  lemma {:induction false} ScanIsSound(document: Document, pages: seq<Id>, k: nat, contents: PageContents)
    requires k <= |pages|
    ensures ScanPages(document, pages, k, contents) == Ok(false) ==>
        forall i :: k <= i < |pages| ==> NoImages(document, pages[i], contents)
    ensures ScanPages(document, pages, k, contents) == Ok(true) ==>
              exists i :: k <= i < |pages| && (contents(pages[i]) == Ok(true) || LeadsToImage(document, Page(pages[i])))
    decreases |pages| - k
  {
    hide NoImages, LeadsToImage, ScanPage;
    if k < |pages| {
      ScanIsSound(document, pages, k + 1, contents);
      if contents(pages[k]) == Ok(false) && ScanPage(document, pages[k], {}, 0) == Ok(false) {
        ClearPage(document, pages[k], contents);
      } else if contents(pages[k]) == Ok(false) && ScanPage(document, pages[k], {}, 0) == Ok(true) {
        PageLeads(document, pages[k], {}, 0);
      }
    }
  }

  // ---------------------------------------------------------------- the scan with its cache

  class ObjectSet {
    var ids: set<Id>

    constructor ()
      ensures ids == {}
    {
      ids := {};
    }

    method Insert(id: Id) returns (isNew: bool)
      modifies this
      ensures ids == old(ids) + {id} && isNew == (id !in old(ids))
    {
      isNew := id !in ids;
      ids := ids + {id};
    }
  }

  class ImageScanCache {
    var formInlineImages: map<Id, Result<bool, ()>>

    constructor ()
      ensures formInlineImages == map[]
    {
      formInlineImages := map[];
    }

    /** Every remembered answer is the one decoding would give again. */
    ghost predicate Faithful(document: Document)
      reads this
    {
      forall id :: id in formInlineImages ==>
          id in document && document[id].Stream? && formInlineImages[id] == document[id].inline
    }

    method FormStreamHasInlineImage(document: Document, stream: Object, objectId: Option<Id>)
      returns (r: Result<bool, ()>)
      requires stream.Stream? && Faithful(document)
      requires objectId.Some? ==> objectId.value in document && document[objectId.value] == stream
      modifies this
      ensures r == stream.inline && Faithful(document)
    {
      if objectId.Some? && objectId.value in formInlineImages {
        return formInlineImages[objectId.value];
      }
      r := stream.inline;
      if objectId.Some? {
        formInlineImages := formInlineImages[objectId.value := r];
      }
    }
  }

  method ResolveDictionary(document: Document, o: Object, seen: ObjectSet, depth: nat)
    returns (r: Result<seq<(string, Object)>, ()>)
    modifies seen
    ensures r == Resolve(document, o, old(seen.ids), depth)
    ensures r.Ok? ==> seen.ids == old(seen.ids)
    decreases MAX_RESOURCE_DEPTH + 1 - depth
  {
    if depth > MAX_RESOURCE_DEPTH {
      return Err(());
    }
    match o {
      case Reference(id) =>
        var isNew := seen.Insert(id);
        if !isNew || id !in document || depth + 1 > MAX_RESOURCE_DEPTH {
          return Err(());
        }
        r := ResolveDictionary(document, document[id], seen, depth + 1);
        seen.ids := seen.ids - {id};
      case Dictionary(entries) =>
        r := Ok(entries);
      case _ =>
        r := Err(());
    }
  }

  /** The scan with its cache answers as the scan without. */
  method ResourceObjectHasImages(document: Document, o: Object, seen: ObjectSet, depth: nat, cache: ImageScanCache)
    returns (r: Result<bool, ()>)
    requires cache.Faithful(document)
    modifies seen, cache
    ensures r == ScanResources(document, o, old(seen.ids), depth) && cache.Faithful(document)
    ensures r.Ok? ==> seen.ids == old(seen.ids)
    decreases MAX_RESOURCE_DEPTH + 1 - depth, 0, 0
  {
    if depth > MAX_RESOURCE_DEPTH {
      return Err(());
    }
    var resources := ResolveDictionary(document, o, seen, depth);
    if resources.Err? {
      return Err(());
    }
    var xobjects := Get(resources.value, "XObject");
    if xobjects.None? {
      return Ok(false);
    }
    if depth + 1 > MAX_RESOURCE_DEPTH {
      return Err(());
    }
    var entries := ResolveDictionary(document, xobjects.value, seen, depth + 1);
    if entries.Err? {
      return Err(());
    }
    for k := 0 to |entries.value|
      invariant cache.Faithful(document) && seen.ids == old(seen.ids)
      invariant ScanEntries(document, entries.value, k, old(seen.ids), depth + 1) ==
          ScanResources(document, o, old(seen.ids), depth)
    {
      r := ObjectHasImage(document, entries.value[k].1, seen, depth + 1, cache, None);
      if r != Ok(false) {
        return;
      }
    }
    r := Ok(false);
  }

  method ObjectHasImage(document: Document, o: Object, seen: ObjectSet, depth: nat, cache: ImageScanCache,
                        objectId: Option<Id>)
    returns (r: Result<bool, ()>)
    requires cache.Faithful(document)
    requires objectId.Some? ==> objectId.value in document && document[objectId.value] == o
    modifies seen, cache
    ensures r == ScanObject(document, o, old(seen.ids), depth) && cache.Faithful(document)
    ensures r.Ok? ==> seen.ids == old(seen.ids)
    decreases MAX_RESOURCE_DEPTH + 1 - depth, 0, 0
  {
    hide ScanResources;
    if depth > MAX_RESOURCE_DEPTH {
      return Err(());
    }
    match o {
      case Reference(id) =>
        var isNew := seen.Insert(id);
        if !isNew || id !in document || depth + 1 > MAX_RESOURCE_DEPTH {
          return Err(());
        }
        r := ObjectHasImage(document, document[id], seen, depth + 1, cache, Some(id));
        seen.ids := seen.ids - {id};
      case Stream(subtype, _, resources) =>
        if subtype == Image {
          return Ok(true);
        }
        if subtype == Form {
          r := cache.FormStreamHasInlineImage(document, o, objectId);
          if r != Ok(false) {
            return;
          }
          if resources.Some? {
            if depth + 1 > MAX_RESOURCE_DEPTH {
              return Err(());
            }
            r := ResourceObjectHasImages(document, resources.value, seen, depth + 1, cache);
            return;
          }
        }
        r := Ok(false);
      case _ =>
        r := Err(());
    }
  }

  method PageResourcesHaveImages(document: Document, page: Id, cache: ImageScanCache) returns (r: Result<bool, ()>)
    requires cache.Faithful(document)
    modifies cache
    ensures r == ScanPage(document, page, {}, 0) && cache.Faithful(document)
  {
    hide ScanResources;
    var seenPages := new ObjectSet();
    var pageId, depth := page, 0;
    while true
      invariant fresh(seenPages) && cache.Faithful(document)
      invariant ScanPage(document, pageId, seenPages.ids, depth) == ScanPage(document, page, {}, 0)
      decreases MAX_RESOURCE_DEPTH + 1 - depth
    {
      if depth > MAX_RESOURCE_DEPTH {
        return Err(());
      }
      var isNew := seenPages.Insert(pageId);
      if !isNew || pageId !in document || !document[pageId].Dictionary? {
        return Err(());
      }
      var resources := Get(document[pageId].entries, "Resources");
      if resources.Some? {
        var seen := new ObjectSet();
        r := ResourceObjectHasImages(document, resources.value, seen, depth, cache);
        return;
      }
      var parent := Get(document[pageId].entries, "Parent");
      if parent.None? || !parent.value.Reference? {
        return Ok(false);
      }
      pageId := parent.value.id;
      if depth + 1 > MAX_RESOURCE_DEPTH {
        return Err(());
      }
      depth := depth + 1;
    }
  }

  /** Scans all pages with one cache. */
  method HasPageImages(document: Document, pages: seq<Id>, contents: PageContents) returns (r: Result<bool, ()>)
    ensures r == ScanPages(document, pages, 0, contents)
    ensures r == Ok(false) ==> forall i :: 0 <= i < |pages| ==> NoImages(document, pages[i], contents)
    ensures r == Ok(true) ==>
        exists i :: 0 <= i < |pages| && (contents(pages[i]) == Ok(true) || LeadsToImage(document, Page(pages[i])))
  {
    hide ScanPage, NoImages, LeadsToImage;
    ScanIsSound(document, pages, 0, contents);
    var cache := new ImageScanCache();
    for k := 0 to |pages|
      invariant fresh(cache) && cache.Faithful(document)
      invariant ScanPages(document, pages, k, contents) == ScanPages(document, pages, 0, contents)
    {
      if contents(pages[k]) != Ok(false) {
        return contents(pages[k]);
      }
      r := PageResourcesHaveImages(document, pages[k], cache);
      if r != Ok(false) {
        return;
      }
    }
    r := Ok(false);
  }
}
