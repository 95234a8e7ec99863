/** The objects the image loaders work with, and ImageRequestMap: the registry from
    an ImageView to the request loading into it, which cancels the request it replaces. */
module Requests {
  import opened Lang

  /** A decoded image; only its identity matters here. */
  class Bitmap {
    constructor () {}
  }

  /** What an ImageView displays. */
  datatype Display = Blank | DefaultImage(resId: int) | Shows(bitmap: Bitmap)

  /** `setImageBitmap(b)` and CrossFadeDrawable.setBitmap: a null bitmap shows nothing. */
  function ShowBitmap(b: Bitmap?): (d: Display)
    ensures b == null <==> d == Blank
    ensures b != null ==> d == Shows(b)
  {
    if b == null then Blank else Shows(b)
  }

  /** An ImageView: the URL and position tags ArrayImageLoader puts on it, whether it is
      shown, and what it displays.  Keys of a registry by identity. */
  class ImageView {
    var urlTag: Option<string>
    var positionTag: Option<int>
    var shown: bool
    var display: Display

    constructor (shown: bool)
      ensures urlTag == None && positionTag == None && this.shown == shown && display == Blank
    {
      urlTag := None;
      positionTag := None;
      this.shown := shown;
      display := Blank;
    }
  }

  /** An ImageRequest for `url`, whose response goes to the listener bound to `target`
      (null when the loader itself listens), with Volley's cancel and delivered flags.
      `cancelCalls` counts the calls of `cancel()`. */
  class ImageRequest {
    const url: string
    const target: ImageView?
    var canceled: bool
    var delivered: bool
    ghost var cancelCalls: nat

    constructor (url: string, target: ImageView?)
      ensures this.url == url && this.target == target
      ensures !canceled && !delivered && cancelCalls == 0
    {
      this.url := url;
      this.target := target;
      canceled := false;
      delivered := false;
      cancelCalls := 0;
    }

    /** `Request.cancel()`. */
    method Cancel()
      modifies this
      ensures canceled && cancelCalls == old(cancelCalls) + 1 && delivered == old(delivered)
    {
      canceled := true;
      cancelCalls := cancelCalls + 1;
    }
  }

  /** The RequestQueue: the requests added to it, in order. */
  class RequestQueue {
    var added: seq<ImageRequest>

    constructor ()
      ensures added == []
    {
      added := [];
    }

    /** `add(request)`. */
    method Add(r: ImageRequest)
      modifies this
      ensures added == old(added) + [r]
    {
      added := added + [r];
    }
  }

  /** `ImageRequestMap`: a HashMap from view to request. */
  class ImageRequestMap {
    var entries: map<ImageView, ImageRequest>

    /** Both constructors: an empty map (the capacity is only a sizing hint). */
    constructor ()
      ensures entries == map[]
    {
      entries := map[];
    }

    /** `get(key)`: the request for `key`, or null. */
    function Get(key: ImageView): (r: ImageRequest?)
      reads this
      ensures r != null <==> key in entries
      ensures r != null ==> r == entries[key]
    {
      if key in entries then entries[key] else null
    }

    /** The request `put(key, …)` replaces, as a set. */
    function Held(key: ImageView): (held: set<ImageRequest>)
      reads this
      ensures held == if key in entries then {entries[key]} else {}
    {
      if key in entries then {entries[key]} else {}
    }

    /** `size()`: the number of views that have a request. */
    function Size(): (n: nat)
      reads this
      ensures n == |entries.Keys| && (n == 0 <==> entries == map[])
    {
      |entries|
    }

    /** `entryRemoved(oldValue)`: cancel it. */
    method EntryRemoved(oldValue: ImageRequest)
      modifies oldValue
      ensures oldValue.canceled && oldValue.cancelCalls == old(oldValue.cancelCalls) + 1
      ensures oldValue.delivered == old(oldValue.delivered)
    {
      oldValue.Cancel();
    }

    /** `put(key, value)`: installs `value` and returns the request it replaces, which is
        cancelled exactly once, even when it is `value` itself; a new key cancels nothing. */
    method Put(key: ImageView, value: ImageRequest) returns (previous: ImageRequest?)
      modifies this, Held(key)
      ensures entries == old(entries)[key := value]
      ensures previous == old(Get(key))
      ensures previous != null ==>
        previous.canceled && previous.cancelCalls == old(previous.cancelCalls) + 1 &&
        previous.delivered == old(previous.delivered)
    {
      previous := Get(key);
      entries := entries[key := value];
      if previous != null {
        EntryRemoved(previous);
      }
    }

    /** `clear()`: drops every entry, cancelling nothing. */
    method Clear()
      modifies this
      ensures entries == map[]
    {
      entries := map[];
    }

    /** `evictAll()`: cancels every request held, in the iteration order `order` of the
        map's values, then drops them all. */
    method EvictAll(order: seq<ImageView>)
      requires Enumerates(order, entries.Keys)
      modifies this, entries.Values
      ensures entries == map[]
      ensures forall r :: r in old(entries.Values) ==>
        r.canceled && r.cancelCalls > old(r.cancelCalls) && r.delivered == old(r.delivered)
    {
      var i := 0;
      while i < |order|
        invariant 0 <= i <= |order|
        invariant entries == old(entries)
        invariant forall j :: 0 <= j < i ==>
          entries[order[j]].canceled && entries[order[j]].cancelCalls > old(entries[order[j]].cancelCalls)
        invariant forall r :: r in old(entries.Values) ==>
          r.delivered == old(r.delivered) && r.cancelCalls >= old(r.cancelCalls)
      {
        EntryRemoved(entries[order[i]]);
        i := i + 1;
      }
      forall r | r in old(entries.Values)
        ensures r.canceled && r.cancelCalls > old(r.cancelCalls)
      {
        var k :| k in old(entries) && old(entries)[k] == r;
        var j :| 0 <= j < |order| && order[j] == k;
      }
      entries := map[];
    }
  }
}
