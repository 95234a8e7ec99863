/** AbsListViewPauseOnScrollListener and RecyclerViewPauseOnScrollListener: they pause an
    ArrayImageLoader while a list scrolls and resume it when the list comes to rest.  Their
    flags are final, so each callback is a function of the flags and the new scroll state
    that picks the call to make on the loader. */
module PauseOnScroll {
  import opened Lang
  import opened Requests
  import opened ArrayLoader

  /** `AbsListView.OnScrollListener` scroll states. */
  const SCROLL_STATE_IDLE: int32 := 0
  const SCROLL_STATE_TOUCH_SCROLL: int32 := 1
  const SCROLL_STATE_FLING: int32 := 2

  /** `RecyclerView` scroll states. */
  const RECYCLER_STATE_IDLE: int32 := 0
  const RECYCLER_STATE_DRAGGING: int32 := 1
  const RECYCLER_STATE_SETTLING: int32 := 2

  /** The call made on the ArrayImageLoader: `pause()`, `resume()` or none. */
  datatype LoaderCall = CallPause | CallResume | NoCall

  /** Whether the loader is paused after `call`, from whether it was `paused` and whether
      `nothingWaiting` (its waiting registry is empty): `pause()` sets the flag; `resume()`
      clears it, except that with nothing waiting it returns before touching it. */
  function PausedAfter(call: LoaderCall, paused: bool, nothingWaiting: bool): bool {
    match call
    case CallPause => true
    case CallResume => paused && nothingWaiting
    case NoCall => paused
  }

  /** Makes `call` on `loader`; `order` is the iteration order of its waiting registry
      that `resume()` would replay in. */
  method Apply(loader: ArrayImageLoader, call: LoaderCall, order: seq<ImageView>)
    requires loader.Valid()
    requires Enumerates(order, loader.waiting.entries.Keys)
    modifies loader, loader.current, loader.waiting, loader.queue, Replaced(loader.current.entries, order)
    ensures loader.Valid()
    ensures loader.paused == PausedAfter(call, old(loader.paused), old(loader.waiting.entries) == map[])
    ensures call != CallResume ==> unchanged(loader.current, loader.waiting, loader.queue)
    ensures call != CallResume ==> unchanged(loader.current.entries.Values, loader.waiting.entries.Values)
  {
    match call
    case CallPause => loader.Pause();
    case CallResume => loader.Resume(order);
    case NoCall =>
  }

  /** The switch both listeners share: idle resumes; touch scrolling pauses when
      `pauseOnScroll`, flinging when `pauseOnFling`, and otherwise each resumes; nothing
      is done for any other state, nor at all when neither flag is set. */
  function LoaderCallFor(pauseOnScroll: bool, pauseOnFling: bool, state: int32,
                         idle: int32, scroll: int32, fling: int32): (c: LoaderCall)
    requires idle != scroll && idle != fling && scroll != fling
    ensures c == CallPause <==> (state == scroll && pauseOnScroll) || (state == fling && pauseOnFling)
    ensures c == CallResume <==>
      (pauseOnScroll || pauseOnFling) &&
      (state == idle || (state == scroll && !pauseOnScroll) || (state == fling && !pauseOnFling))
  {
    if !pauseOnFling && !pauseOnScroll then NoCall
    else if state == idle then CallResume
    else if state == scroll then (if pauseOnScroll then CallPause else CallResume)
    else if state == fling then (if pauseOnFling then CallPause else CallResume)
    else NoCall
  }

  // ---------------------------------------------------------------------
  // AbsListViewPauseOnScrollListener

  /** The listener's final fields; the external listener only matters as null or not. */
  datatype AbsListViewListener = AbsListViewListener(pauseOnScroll: bool, pauseOnFling: bool, hasExternal: bool)

  /** The two-argument constructor: no pause while touch scrolling, pause while flinging. */
  function DefaultAbsListViewListener(hasExternal: bool): (l: AbsListViewListener)
    ensures !l.pauseOnScroll && l.pauseOnFling && l.hasExternal == hasExternal
  {
    AbsListViewListener(false, true, hasExternal)
  }

  /** What `onScrollStateChanged` does: a call on the loader, then whether the external
      listener hears of the state change. */
  datatype Reaction = Reaction(call: LoaderCall, notify: bool)

  /** `onScrollStateChanged(view, scrollState)`: with neither flag set it returns at once,
      telling nobody; otherwise it makes the call the state asks for, if any, and then
      passes the state on to a non-null external listener. */
  function AbsOnScrollStateChanged(l: AbsListViewListener, scrollState: int32): (r: Reaction)
    ensures !l.pauseOnScroll && !l.pauseOnFling ==> r == Reaction(NoCall, false)
    ensures r.notify <==> l.hasExternal && (l.pauseOnScroll || l.pauseOnFling)
    ensures (l.pauseOnScroll || l.pauseOnFling) && scrollState == SCROLL_STATE_IDLE ==> r.call == CallResume
    ensures scrollState == SCROLL_STATE_TOUCH_SCROLL && (l.pauseOnScroll || l.pauseOnFling) ==>
      r.call == if l.pauseOnScroll then CallPause else CallResume
    ensures scrollState == SCROLL_STATE_FLING && (l.pauseOnScroll || l.pauseOnFling) ==>
      r.call == if l.pauseOnFling then CallPause else CallResume
    ensures scrollState !in {SCROLL_STATE_IDLE, SCROLL_STATE_TOUCH_SCROLL, SCROLL_STATE_FLING} ==> r.call == NoCall
  {
    if !l.pauseOnFling && !l.pauseOnScroll then Reaction(NoCall, false)
    else
      Reaction(LoaderCallFor(l.pauseOnScroll, l.pauseOnFling, scrollState,
                             SCROLL_STATE_IDLE, SCROLL_STATE_TOUCH_SCROLL, SCROLL_STATE_FLING),
               l.hasExternal)
  }

  /** `onScrollStateChanged` run against `loader`: the call the state asks for is made on
      it, and the result says whether the external listener is told. */
  method AbsScrollStateChanged(l: AbsListViewListener, loader: ArrayImageLoader, scrollState: int32,
                               order: seq<ImageView>) returns (notify: bool)
    requires loader.Valid()
    requires Enumerates(order, loader.waiting.entries.Keys)
    modifies loader, loader.current, loader.waiting, loader.queue, Replaced(loader.current.entries, order)
    ensures loader.Valid()
    ensures notify == AbsOnScrollStateChanged(l, scrollState).notify
    ensures loader.paused ==
      PausedAfter(AbsOnScrollStateChanged(l, scrollState).call, old(loader.paused), old(loader.waiting.entries) == map[])
  {
    var r := AbsOnScrollStateChanged(l, scrollState);
    Apply(loader, r.call, order);
    notify := r.notify;
  }

  /** `onScroll(view, …)`: forwarded whenever there is an external listener, whatever
      the flags. */
  function AbsOnScroll(l: AbsListViewListener): (forward: bool)
    ensures forward <==> l.hasExternal
  {
    l.hasExternal
  }

  // ---------------------------------------------------------------------
  // RecyclerViewPauseOnScrollListener

  /** The listener's final fields. */
  datatype RecyclerViewListener = RecyclerViewListener(pauseOnScroll: bool, pauseOnFling: bool)

  /** The one-argument constructor: no pause while dragging, pause while settling. */
  function DefaultRecyclerViewListener(): (l: RecyclerViewListener)
    ensures !l.pauseOnScroll && l.pauseOnFling
  {
    RecyclerViewListener(false, true)
  }

  /** `onScrollStateChanged(recyclerView, newState)`: the call on the loader. */
  function RecyclerOnScrollStateChanged(l: RecyclerViewListener, newState: int32): (c: LoaderCall)
    ensures !l.pauseOnScroll && !l.pauseOnFling ==> c == NoCall
    ensures (l.pauseOnScroll || l.pauseOnFling) && newState == RECYCLER_STATE_IDLE ==> c == CallResume
    ensures newState == RECYCLER_STATE_DRAGGING && (l.pauseOnScroll || l.pauseOnFling) ==>
      c == if l.pauseOnScroll then CallPause else CallResume
    ensures newState == RECYCLER_STATE_SETTLING && (l.pauseOnScroll || l.pauseOnFling) ==>
      c == if l.pauseOnFling then CallPause else CallResume
    ensures newState !in {RECYCLER_STATE_IDLE, RECYCLER_STATE_DRAGGING, RECYCLER_STATE_SETTLING} ==> c == NoCall
  {
    LoaderCallFor(l.pauseOnScroll, l.pauseOnFling, newState,
                  RECYCLER_STATE_IDLE, RECYCLER_STATE_DRAGGING, RECYCLER_STATE_SETTLING)
  }

  /** `onScrollStateChanged` run against `loader`. */
  method RecyclerScrollStateChanged(l: RecyclerViewListener, loader: ArrayImageLoader, newState: int32,
                                    order: seq<ImageView>)
    requires loader.Valid()
    requires Enumerates(order, loader.waiting.entries.Keys)
    modifies loader, loader.current, loader.waiting, loader.queue, Replaced(loader.current.entries, order)
    ensures loader.Valid()
    ensures loader.paused ==
      PausedAfter(RecyclerOnScrollStateChanged(l, newState), old(loader.paused), old(loader.waiting.entries) == map[])
  {
    Apply(loader, RecyclerOnScrollStateChanged(l, newState), order);
  }

  // ---------------------------------------------------------------------
  // Properties

  /** The two listeners, built with the same flags, make the same call on the loader for
      the same state. */
  lemma ListenersAgree(pauseOnScroll: bool, pauseOnFling: bool, hasExternal: bool, state: int32)
    ensures AbsOnScrollStateChanged(AbsListViewListener(pauseOnScroll, pauseOnFling, hasExternal), state).call ==
            RecyclerOnScrollStateChanged(RecyclerViewListener(pauseOnScroll, pauseOnFling), state)
  {
  }

  /** With the default flags the loader ends up paused exactly when the list flings, or
      when it was already paused with nothing waiting: touch scrolling and coming to rest
      call `resume()`, which then returns without clearing the flag. */
  lemma DefaultPausesOnFling(hasExternal: bool, state: int32, paused: bool, nothingWaiting: bool)
    requires state in {SCROLL_STATE_IDLE, SCROLL_STATE_TOUCH_SCROLL, SCROLL_STATE_FLING}
    ensures PausedAfter(AbsOnScrollStateChanged(DefaultAbsListViewListener(hasExternal), state).call,
                        paused, nothingWaiting) <==>
            state == SCROLL_STATE_FLING || (paused && nothingWaiting)
    ensures PausedAfter(RecyclerOnScrollStateChanged(DefaultRecyclerViewListener(), state),
                        paused, nothingWaiting) <==>
            state == RECYCLER_STATE_SETTLING || (paused && nothingWaiting)
  {
  }

  /** Whenever a flag is set, coming to rest leaves the loader running if requests were
      waiting or it was not paused, and leaves it paused if it was paused with nothing
      waiting, so a request made afterwards waits for the next `resume()`. */
  lemma IdleResumes(l: AbsListViewListener, r: RecyclerViewListener, paused: bool, nothingWaiting: bool)
    requires l.pauseOnScroll || l.pauseOnFling
    requires r.pauseOnScroll || r.pauseOnFling
    ensures PausedAfter(AbsOnScrollStateChanged(l, SCROLL_STATE_IDLE).call, paused, nothingWaiting) <==>
            paused && nothingWaiting
    ensures PausedAfter(RecyclerOnScrollStateChanged(r, RECYCLER_STATE_IDLE), paused, nothingWaiting) <==>
            paused && nothingWaiting
  {
  }

  /** With neither flag set the listeners never change whether the loader is paused. */
  lemma NoFlagsNoEffect(l: AbsListViewListener, r: RecyclerViewListener, state: int32, paused: bool,
                        nothingWaiting: bool)
    requires !l.pauseOnScroll && !l.pauseOnFling
    requires !r.pauseOnScroll && !r.pauseOnFling
    ensures PausedAfter(AbsOnScrollStateChanged(l, state).call, paused, nothingWaiting) == paused
    ensures PausedAfter(RecyclerOnScrollStateChanged(r, state), paused, nothingWaiting) == paused
  {
  }
}
