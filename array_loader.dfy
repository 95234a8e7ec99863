/** ArrayImageLoader: loads images into the views of a list.  A new request goes to the
    current registry and the queue, or, while the loader is paused, to the waiting
    registry, which `resume` replays.  The memory cache is an abstract map from URL to
    bitmap, the loaded positions a set. */
module ArrayLoader {
  import opened Lang
  import opened Requests

  /** `NullPointerException`. */
  datatype NullPointer = NullPointer

  /** The requests of `w` in the order `keys` visits them. */
  function Dispatched(w: map<ImageView, ImageRequest>, keys: seq<ImageView>): (rs: seq<ImageRequest>)
    requires forall j :: 0 <= j < |keys| ==> keys[j] in w
    ensures |rs| == |keys|
  {
    if keys == [] then []
    else Dispatched(w, keys[..|keys| - 1]) + [w[keys[|keys| - 1]]]
  }

  /** The request dispatched `j`-th is that of the `j`-th key. */
  lemma {:induction false} DispatchedAt(w: map<ImageView, ImageRequest>, keys: seq<ImageView>, j: nat)
    requires forall j :: 0 <= j < |keys| ==> keys[j] in w
    requires j < |keys|
    ensures Dispatched(w, keys)[j] == w[keys[j]]
    decreases |keys|
  {
    var init := keys[..|keys| - 1];
    if j < |init| {
      DispatchedAt(w, init, j);
    }
  }

  /** Replaying every key of `w` dispatches exactly the requests of `w`, once per key. */
  lemma DispatchedAll(w: map<ImageView, ImageRequest>, order: seq<ImageView>)
    requires Enumerates(order, w.Keys)
    ensures |Dispatched(w, order)| == |w|
    ensures forall k :: k in w ==> w[k] in Dispatched(w, order)
    ensures forall r :: r in Dispatched(w, order) ==> r in w.Values
  {
    var rs := Dispatched(w, order);
    forall k | k in w
      ensures w[k] in rs
    {
      var j :| 0 <= j < |order| && order[j] == k;
      DispatchedAt(w, order, j);
    }
    forall r | r in rs
      ensures r in w.Values
    {
      var j :| 0 <= j < |rs| && rs[j] == r;
      DispatchedAt(w, order, j);
    }
  }

  /** `base` after putting the entry of `w` for each key of `keys`, in order. */
  function Merge(base: map<ImageView, ImageRequest>, w: map<ImageView, ImageRequest>,
                 keys: seq<ImageView>): map<ImageView, ImageRequest>
    requires forall j :: 0 <= j < |keys| ==> keys[j] in w
  {
    if keys == [] then base
    else
      var last := keys[|keys| - 1];
      Merge(base, w, keys[..|keys| - 1])[last := w[last]]
  }

  /** A merged key holds the entry of `w` when `keys` names it, and that of `base` otherwise. */
  lemma {:induction false} MergeAt(base: map<ImageView, ImageRequest>, w: map<ImageView, ImageRequest>,
                                   keys: seq<ImageView>, k: ImageView)
    requires forall j :: 0 <= j < |keys| ==> keys[j] in w
    ensures k in Merge(base, w, keys) <==> k in base || k in keys
    ensures k in keys ==> Merge(base, w, keys)[k] == w[k]
    ensures k !in keys && k in base ==> Merge(base, w, keys)[k] == base[k]
    decreases |keys|
  {
    if keys != [] {
      var init := keys[..|keys| - 1];
      assert keys == init + [keys[|keys| - 1]];
      MergeAt(base, w, init, k);
    }
  }

  /** Merging every key of `w` is the map union `base + w`. */
  lemma MergeAll(base: map<ImageView, ImageRequest>, w: map<ImageView, ImageRequest>, order: seq<ImageView>)
    requires Enumerates(order, w.Keys)
    ensures Merge(base, w, order) == base + w
  {
    var m := Merge(base, w, order);
    forall k | k in m
      ensures k in base + w && m[k] == (base + w)[k]
    {
      MergeAt(base, w, order, k);
    }
    forall k | k in base + w
      ensures k in m
    {
      MergeAt(base, w, order, k);
    }
  }

  /** Replaying the key `order[i]` after those before it: it was not replayed yet, so it
      still holds its entry of `base`, and it extends the merge and the dispatch by one. */
  lemma ReplayStep(base: map<ImageView, ImageRequest>, w: map<ImageView, ImageRequest>,
                   order: seq<ImageView>, i: nat, queued: seq<ImageRequest>)
    requires Enumerates(order, w.Keys) && i < |order|
    ensures order[i] in Merge(base, w, order[..i]) <==> order[i] in base
    ensures order[i] in base ==> Merge(base, w, order[..i])[order[i]] == base[order[i]]
    ensures order[i] in base ==> base[order[i]] in Replaced(base, order)
    ensures Merge(base, w, order[..i + 1]) == Merge(base, w, order[..i])[order[i] := w[order[i]]]
    ensures queued + Dispatched(w, order[..i + 1]) == queued + Dispatched(w, order[..i]) + [w[order[i]]]
  {
    var v := order[i];
    assert v !in order[..i] by {
      forall j | 0 <= j < i { EnumeratesDistinct(order, w.Keys, j, i); }
    }
    assert order[..i + 1][..i] == order[..i];
    MergeAt(base, w, order[..i], v);
    if v in base {
      ReplacedHas(base, order, i);
    }
  }

  /** The current requests of `base` that replaying the views `keys` replaces. */
  ghost function Replaced(base: map<ImageView, ImageRequest>, keys: seq<ImageView>): set<ImageRequest>
  {
    if keys == [] then {}
    else
      var last := keys[|keys| - 1];
      Replaced(base, keys[..|keys| - 1]) + (if last in base then {base[last]} else {})
  }

  /** The current request of each replayed view that has one is replaced. */
  lemma {:induction false} ReplacedHas(base: map<ImageView, ImageRequest>, keys: seq<ImageView>, j: nat)
    requires j < |keys| && keys[j] in base
    ensures base[keys[j]] in Replaced(base, keys)
    decreases |keys|
  {
    if j < |keys| - 1 {
      var init := keys[..|keys| - 1];
      assert init[j] == keys[j];
      ReplacedHas(base, init, j);
    }
  }

  /** Only current requests are replaced. */
  lemma {:induction false} ReplacedWithin(base: map<ImageView, ImageRequest>, keys: seq<ImageView>)
    ensures Replaced(base, keys) <= base.Values
    decreases |keys|
  {
    if keys != [] {
      ReplacedWithin(base, keys[..|keys| - 1]);
    }
  }

  /** After a replay every current request is queued when every one before it was. */
  lemma ReplayQueued(base: map<ImageView, ImageRequest>, w: map<ImageView, ImageRequest>,
                     queued: seq<ImageRequest>, order: seq<ImageView>)
    requires Enumerates(order, w.Keys)
    requires forall v :: v in base ==> base[v] in queued
    ensures forall v :: v in base + w ==> (base + w)[v] in queued + Dispatched(w, order)
  {
    DispatchedAll(w, order);
  }

  /** In a valid loader no waiting request is among the current requests that `resume()`
      replaces (every current request is queued and no waiting one is), so the frame of
      `Resume` leaves the waiting requests, like every current request of a view that is
      not replayed, as they were. */
  lemma WaitingNotReplaced(loader: ArrayImageLoader, order: seq<ImageView>)
    requires loader.Valid()
    ensures forall v :: v in loader.waiting.entries ==>
      loader.waiting.entries[v] !in Replaced(loader.current.entries, order)
  {
    ReplacedWithin(loader.current.entries, order);
  }

  /** The loader and the state it keeps. */
  class ArrayImageLoader {
    const queue: RequestQueue
    const current: ImageRequestMap
    const waiting: ImageRequestMap
    const defaultResId: int
    var memoryCache: map<string, Bitmap>
    var loaded: set<int>
    var paused: bool

    /** The two registries are distinct; every current request has been added to the
        queue; a waiting request exists only while paused and has not been added to the
        queue, so no request is both current and waiting. */
    ghost predicate Valid()
      reads this, current, waiting, queue
    {
      current != waiting &&
      (forall v :: v in current.entries ==> current.entries[v] in queue.added) &&
      (!paused ==> waiting.entries == map[]) &&
      forall v :: v in waiting.entries ==> waiting.entries[v] !in queue.added
    }

    /** Constructs the loader over `queue`: empty registries and cache, not paused. */
    constructor (queue: RequestQueue, defaultResId: int)
      ensures Valid()
      ensures this.queue == queue && this.defaultResId == defaultResId
      ensures fresh(current) && fresh(waiting)
      ensures current.entries == map[] && waiting.entries == map[]
      ensures memoryCache == map[] && loaded == {} && !paused
    {
      this.queue := queue;
      this.defaultResId := defaultResId;
      current := new ImageRequestMap();
      waiting := new ImageRequestMap();
      memoryCache := map[];
      loaded := {};
      paused := false;
    }

    /** What a view at a position not yet loaded shows at first. */
    function Placeholder(): (d: Display)
      ensures defaultResId != 0 ==> d == DefaultImage(defaultResId)
      ensures defaultResId == 0 ==> d == Blank
    {
      if defaultResId != 0 then DefaultImage(defaultResId) else Blank
    }

    /** `loadBitmap(view, url, …, position)`: shows the placeholder when the position is not
        loaded; ignores an empty URL; otherwise tags the view and shows a cached bitmap, or
        issues a request for the view, into the waiting registry when paused and into the
        current registry and the queue otherwise, cancelling the request it replaces there. */
    method LoadBitmap(view: ImageView, url: Option<string>, position: int) returns (issued: ImageRequest?)
      requires Valid()
      modifies view, current, waiting, queue, if paused then waiting.Held(view) else current.Held(view)
      ensures Valid()
      ensures memoryCache == old(memoryCache) && loaded == old(loaded) && paused == old(paused)
      ensures view.shown == old(view.shown)
      ensures IsEmpty(url) ==>
        issued == null && view.urlTag == old(view.urlTag) && view.positionTag == old(view.positionTag) &&
        view.display == (if position in loaded then old(view.display) else Placeholder())
      ensures !IsEmpty(url) ==> view.urlTag == url && view.positionTag == Some(position)
      ensures !IsEmpty(url) && url.value in memoryCache ==>
        issued == null && view.display == Shows(memoryCache[url.value])
      ensures !IsEmpty(url) && url.value !in memoryCache ==>
        issued != null && fresh(issued) && issued.url == url.value && issued.target == view &&
        !issued.canceled && !issued.delivered &&
        view.display == (if position in loaded then old(view.display) else Placeholder())
      ensures issued == null ==>
        current.entries == old(current.entries) && waiting.entries == old(waiting.entries) &&
        queue.added == old(queue.added)
      ensures issued != null && paused ==>
        waiting.entries == old(waiting.entries)[view := issued] &&
        current.entries == old(current.entries) && queue.added == old(queue.added) &&
        (view in old(waiting.entries) ==> old(waiting.entries)[view].canceled)
      ensures issued != null && !paused ==>
        current.entries == old(current.entries)[view := issued] &&
        waiting.entries == old(waiting.entries) && queue.added == old(queue.added) + [issued] &&
        (view in old(current.entries) ==> old(current.entries)[view].canceled)
    {
      issued := null;
      if position !in loaded {
        view.display := Placeholder();
      }
      if IsEmpty(url) {
        return;
      }
      view.urlTag := url;
      view.positionTag := Some(position);
      if url.value in memoryCache {
        view.display := Shows(memoryCache[url.value]);
        return;
      }
      issued := Issue(view, url.value);
    }

    /** The end of `loadBitmap` on a cache miss: a new request for `url` bound to `view`,
        put into the waiting registry when paused, and into the current registry and the
        queue otherwise. */
    method Issue(view: ImageView, url: string) returns (issued: ImageRequest)
      requires Valid()
      modifies current, waiting, queue, if paused then waiting.Held(view) else current.Held(view)
      ensures Valid()
      ensures fresh(issued) && issued.url == url && issued.target == view && !issued.canceled && !issued.delivered
      ensures paused ==>
        waiting.entries == old(waiting.entries)[view := issued] &&
        current.entries == old(current.entries) && queue.added == old(queue.added) &&
        (view in old(waiting.entries) ==> old(waiting.entries)[view].canceled)
      ensures !paused ==>
        current.entries == old(current.entries)[view := issued] &&
        waiting.entries == old(waiting.entries) && queue.added == old(queue.added) + [issued] &&
        (view in old(current.entries) ==> old(current.entries)[view].canceled)
    {
      issued := new ImageRequest(url, view);
      if paused {
        var _ := waiting.Put(view, issued);
      } else {
        var _ := current.Put(view, issued);
        queue.Add(issued);
      }
    }

    /** `pause()`. */
    method Pause()
      requires Valid()
      modifies this
      ensures Valid()
      ensures paused && memoryCache == old(memoryCache) && loaded == old(loaded)
    {
      paused := true;
    }

    /** `resume()`: nothing unless paused with requests waiting; then every waiting
        request, visited in the order `order` of the waiting registry's keys, replaces (and
        cancels) the current request for its view and is added to the queue; the waiting
        registry is emptied and the loader is no longer paused. */
    method Resume(order: seq<ImageView>)
      requires Valid()
      requires Enumerates(order, waiting.entries.Keys)
      modifies this, current, waiting, queue, Replaced(current.entries, order)
      ensures Valid()
      ensures unchanged(this`memoryCache, this`loaded)
      ensures !old(paused) || old(waiting.entries) == map[] ==>
        paused == old(paused) && current.entries == old(current.entries) &&
        waiting.entries == old(waiting.entries) && queue.added == old(queue.added)
      ensures old(paused) && old(waiting.entries) != map[] ==>
        !paused && waiting.entries == map[] &&
        current.entries == old(current.entries) + old(waiting.entries) &&
        queue.added == old(queue.added) + Dispatched(old(waiting.entries), order)
      ensures old(paused) ==> forall v :: v in old(waiting.entries) && v in old(current.entries) ==>
        old(current.entries)[v].canceled
    {
      if paused && waiting.Size() != 0 {
        ResumeWaiting(order);
      }
    }

    /** `resume()` past its guard: the replay of the waiting registry, then emptying it and
        clearing the paused flag. */
    method ResumeWaiting(order: seq<ImageView>)
      requires Valid()
      requires Enumerates(order, waiting.entries.Keys)
      modifies this, current, waiting, queue, Replaced(current.entries, order)
      ensures Valid()
      ensures unchanged(this`memoryCache, this`loaded)
      ensures !paused && waiting.entries == map[]
      ensures current.entries == old(current.entries) + old(waiting.entries)
      ensures queue.added == old(queue.added) + Dispatched(old(waiting.entries), order)
      ensures forall v :: v in old(waiting.entries) && v in old(current.entries) ==>
        old(current.entries)[v].canceled
    {
      ghost var base, w := current.entries, waiting.entries;
      ghost var queued := queue.added;
      Replay(waiting.entries, order);
      EndResume(base, w, queued, order);
    }

    /** The end of `resume()`: with the waiting requests `w` replayed over the current
        registry `base`, the waiting registry is emptied and the paused flag cleared. */
    method EndResume(ghost base: map<ImageView, ImageRequest>, ghost w: map<ImageView, ImageRequest>,
                     ghost queued: seq<ImageRequest>, order: seq<ImageView>)
      requires current != waiting && Enumerates(order, w.Keys)
      requires forall v :: v in base ==> base[v] in queued
      requires current.entries == base + w && queue.added == queued + Dispatched(w, order)
      modifies this, waiting
      ensures Valid()
      ensures unchanged(this`memoryCache, this`loaded)
      ensures !paused && waiting.entries == map[]
    {
      ReplayQueued(base, w, queued, order);
      waiting.Clear();
      paused := false;
    }

    /** The loop of `resume()`: puts every waiting request `w` holds into the current
        registry and adds it to the queue, in the order `order`. */
    method Replay(w: map<ImageView, ImageRequest>, order: seq<ImageView>)
      requires Enumerates(order, w.Keys)
      modifies current, queue, Replaced(current.entries, order)
      ensures current.entries == old(current.entries) + w
      ensures queue.added == old(queue.added) + Dispatched(w, order)
      ensures forall v :: v in w && v in old(current.entries) ==> old(current.entries)[v].canceled
    {
      ghost var base, queued := current.entries, queue.added;
      ghost var replaced: set<ImageRequest> := {};
      var i := 0;
      while i < |order|
        invariant 0 <= i <= |order|
        invariant current.entries == Merge(base, w, order[..i])
        invariant queue.added == queued + Dispatched(w, order[..i])
        invariant forall j :: 0 <= j < i && order[j] in base ==> base[order[j]] in replaced
        invariant forall q :: q in replaced ==> q.canceled
      {
        replaced := ReplayTurn(base, w, order, i, queued, replaced);
        i := i + 1;
      }
      assert order[..i] == order;
      MergeAll(base, w, order);
    }

    /** Turn `i` of the loop of `resume()`, tracked against the registry `base` it started
        from: the view `order[i]` gets its waiting request, which is queued, and the current
        request it replaces joins the cancelled requests `replaced`. */
    method ReplayTurn(ghost base: map<ImageView, ImageRequest>, w: map<ImageView, ImageRequest>,
                      order: seq<ImageView>, i: nat, ghost queued: seq<ImageRequest>,
                      ghost replaced: set<ImageRequest>) returns (ghost replaced': set<ImageRequest>)
      requires Enumerates(order, w.Keys) && i < |order|
      requires current.entries == Merge(base, w, order[..i])
      requires queue.added == queued + Dispatched(w, order[..i])
      requires forall j :: 0 <= j < i && order[j] in base ==> base[order[j]] in replaced
      requires forall q :: q in replaced ==> q.canceled
      modifies current, queue, Replaced(base, order)
      ensures current.entries == Merge(base, w, order[..i + 1])
      ensures queue.added == queued + Dispatched(w, order[..i + 1])
      ensures forall j :: 0 <= j < i + 1 && order[j] in base ==> base[order[j]] in replaced'
      ensures forall q :: q in replaced' ==> q.canceled
    {
      var v := order[i];
      ReplayStep(base, w, order, i, queued);
      assert current.Held(v) <= Replaced(base, order);
      ReplayEntry(v, w[v], replaced);
      replaced' := if v in base then replaced + {base[v]} else replaced;
    }

    /** One turn of the loop of `resume()`: `r` replaces (and cancels) the current request
        for `v` and is added to the queue; the cancelled requests of `replaced` stay so. */
    method ReplayEntry(v: ImageView, r: ImageRequest, ghost replaced: set<ImageRequest>)
      requires forall q :: q in replaced ==> q.canceled
      modifies current, queue, current.Held(v)
      ensures current.entries == old(current.entries)[v := r]
      ensures queue.added == old(queue.added) + [r]
      ensures forall q :: q in replaced ==> q.canceled
      ensures v in old(current.entries) ==> old(current.entries)[v].canceled
    {
      var _ := current.Put(v, r);
      queue.Add(r);
    }

    /** `destroy()`: cancels and drops every current request (visited in the order `order`
        of the current registry's keys), empties the memory cache and forgets the loaded
        positions.  Waiting requests and the paused flag are left as they are. */
    method Destroy(order: seq<ImageView>)
      requires Valid()
      requires Enumerates(order, current.entries.Keys)
      modifies this, current, current.entries.Values
      ensures Valid()
      ensures current.entries == map[] && memoryCache == map[] && loaded == {} && paused == old(paused)
      ensures forall r :: r in old(current.entries.Values) ==> r.canceled && r.delivered == old(r.delivered)
    {
      current.EvictAll(order);
      memoryCache := map[];
      loaded := {};
    }

    /** `ResponseListener.onResponse(url, bitmap)` of the listener bound to `view`: caches the
        bitmap when the URL is not cached yet (a null one is refused with a
        NullPointerException); then, when the view still wants `url`, is shown and the
        bitmap is not null, displays it and marks the view's position loaded, a missing
        position tag failing with a NullPointerException. */
    method OnResponse(view: ImageView, url: string, bitmap: Bitmap?) returns (r: Result<(), NullPointer>)
      requires Valid()
      modifies this, view
      ensures Valid()
      ensures paused == old(paused)
      ensures view.urlTag == old(view.urlTag) && view.positionTag == old(view.positionTag) && view.shown == old(view.shown)
      ensures url !in old(memoryCache) && bitmap == null ==>
        r == Err(NullPointer) && memoryCache == old(memoryCache) && loaded == old(loaded) &&
        view.display == old(view.display)
      ensures url !in old(memoryCache) && bitmap != null ==> memoryCache == old(memoryCache)[url := bitmap]
      ensures url in old(memoryCache) ==> memoryCache == old(memoryCache)
      ensures (url in old(memoryCache) || bitmap != null) && !(view.urlTag == Some(url) && view.shown && bitmap != null) ==>
        r == Ok(()) && loaded == old(loaded) && view.display == old(view.display)
      ensures (url in old(memoryCache) || bitmap != null) && view.urlTag == Some(url) && view.shown && bitmap != null ==>
        view.display == Shows(bitmap) &&
        (view.positionTag.None? ==> r == Err(NullPointer) && loaded == old(loaded)) &&
        (view.positionTag.Some? ==> r == Ok(()) && loaded == old(loaded) + {view.positionTag.value})
    {
      if url !in memoryCache {
        if bitmap == null {
          return Err(NullPointer);
        }
        memoryCache := memoryCache[url := bitmap];
      }
      if view.urlTag == Some(url) && view.shown && bitmap != null {
        view.display := Shows(bitmap);
        if view.positionTag.None? {
          return Err(NullPointer);
        }
        loaded := loaded + {view.positionTag.value};
      }
      return Ok(());
    }
  }
}
