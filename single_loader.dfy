/** SingleImageLoader: loads one image into one ImageView.  The latest `load` wins: it
    cancels the request before it, and a response is shown only if it is for the URL
    asked for last. */
module SingleLoader {
  import opened Lang
  import opened Requests

  /** One call the loader makes on its LoadListener. */
  datatype LoadEvent = Started | Succeeded(bitmap: Bitmap?)

  /** A LoadListener: the calls of `onStart` and `onSuccess` it received, in order. */
  class LoadListener {
    var events: seq<LoadEvent>

    constructor ()
      ensures events == []
    {
      events := [];
    }

    /** `onStart()`. */
    method OnStart()
      modifies this
      ensures events == old(events) + [Started]
    {
      events := events + [Started];
    }

    /** `onSuccess(bitmap)`. */
    method OnSuccess(bitmap: Bitmap?)
      modifies this
      ensures events == old(events) + [Succeeded(bitmap)]
    {
      events := events + [Succeeded(bitmap)];
    }
  }

  /** `DEFAULT_IMAGE_TTL`: one day, in milliseconds. */
  const DEFAULT_IMAGE_TTL: int64 := 1 * 24 * 3600 * 1000

  class SingleImageLoader {
    const queue: RequestQueue
    const view: ImageView
    const listener: LoadListener?
    var requestUrl: Option<string>
    var request: ImageRequest?
    var defaultTtl: int64
    var crossFade: bool
    /** Every request this loader has made, oldest first. */
    ghost var issued: seq<ImageRequest>

    /** The current request is the last one made, for the current URL and answered to the
        loader itself; every request made before it has been cancelled. */
    ghost predicate Valid()
      reads this, issued
    {
      (request == null <==> issued == []) &&
      (request == null ==> requestUrl.None?) &&
      (request != null ==>
        request == issued[|issued| - 1] && requestUrl == Some(request.url) && request.target == null) &&
      forall i :: 0 <= i < |issued| - 1 ==> issued[i].canceled
    }

    /** Both constructors: no URL and no request yet, a TTL of one day, no cross fade. */
    constructor (queue: RequestQueue, view: ImageView, listener: LoadListener?)
      ensures Valid()
      ensures this.queue == queue && this.view == view && this.listener == listener
      ensures requestUrl == None && request == null && issued == []
      ensures defaultTtl == 86_400_000 && !crossFade
    {
      this.queue := queue;
      this.view := view;
      this.listener := listener;
      requestUrl := None;
      request := null;
      defaultTtl := DEFAULT_IMAGE_TTL;
      crossFade := false;
      issued := [];
    }

    /** `setDefaultImageTTL(ttl)`. */
    method SetDefaultImageTtl(ttl: int64)
      modifies this
      ensures defaultTtl == ttl
      ensures requestUrl == old(requestUrl) && request == old(request) && crossFade == old(crossFade)
      ensures issued == old(issued)
    {
      defaultTtl := ttl;
    }

    /** `setCrossFadeEnabled(enabled)`. */
    method SetCrossFadeEnabled(enabled: bool)
      modifies this
      ensures crossFade == enabled
      ensures requestUrl == old(requestUrl) && request == old(request) && defaultTtl == old(defaultTtl)
      ensures issued == old(issued)
    {
      crossFade := enabled;
    }

    /** `getRequestUrl()`. */
    function GetRequestUrl(): (url: Option<string>)
      reads this
      ensures Valid() ==> (url.Some? <==> request != null)
    {
      requestUrl
    }

    /** The current request, as a set: the one `load` may cancel. */
    function Held(): (held: set<ImageRequest>)
      reads this
      ensures held == if request == null then {} else {request}
    {
      if request == null then {} else {request}
    }

    /** `load` ignores `url` while a request for it is still waiting for its response. */
    predicate StillLoading(url: Option<string>)
      reads this, request
    {
      url == requestUrl && request != null && !request.delivered
    }

    /** The requests this loader made that are not cancelled. */
    ghost function Live(): (live: set<ImageRequest>)
      reads this, issued
      ensures Valid() ==> live <= Held()
      ensures forall r :: r in live ==> !r.canceled && r in issued
    {
      set i | 0 <= i < |issued| && !issued[i].canceled :: issued[i]
    }

    /** `load(url, …)`: a null or empty URL, or the URL of a request whose response has
        not been delivered yet, changes nothing.  Otherwise the current request, if any,
        is cancelled, `url` becomes the current URL, a new request for it answered to the
        loader becomes current, `onStart` goes to the listener, and the request is queued. */
    method Load(url: Option<string>)
      requires Valid()
      modifies this, queue, listener, Held()
      ensures Valid()
      ensures defaultTtl == old(defaultTtl) && crossFade == old(crossFade)
      ensures IsEmpty(url) || old(StillLoading(url)) ==>
        unchanged(this, queue) && (listener != null ==> unchanged(listener)) &&
        (old(request) != null ==> unchanged(old(request)))
      ensures !IsEmpty(url) && !old(StillLoading(url)) ==>
        requestUrl == url && fresh(request) &&
        request.url == url.value && request.target == null && !request.canceled && !request.delivered &&
        issued == old(issued) + [request] &&
        queue.added == old(queue.added) + [request] &&
        (old(request) != null ==> old(request).canceled) &&
        (listener != null ==> listener.events == old(listener.events) + [Started])
    {
      if IsEmpty(url) {
        return;
      }
      if url == requestUrl && request != null && !request.delivered {
        return;
      }
      if request != null {
        request.Cancel();
      }
      requestUrl := url;
      request := new ImageRequest(url.value, null);
      issued := issued + [request];
      if listener != null {
        listener.OnStart();
      }
      queue.Add(request);
    }

    /** `onResponse(url, bitmap)`: a response for any URL other than the current one
        (null only matching null) is ignored; otherwise the view shows the bitmap, faded in
        or not, and `onSuccess` goes to the listener. */
    method OnResponse(url: Option<string>, bitmap: Bitmap?)
      modifies view, listener
      ensures view.urlTag == old(view.urlTag) && view.positionTag == old(view.positionTag)
      ensures view.shown == old(view.shown)
      ensures url != requestUrl ==> unchanged(view) && (listener != null ==> unchanged(listener))
      ensures url == requestUrl ==>
        view.display == ShowBitmap(bitmap) &&
        (listener != null ==> listener.events == old(listener.events) + [Succeeded(bitmap)])
    {
      if url != requestUrl {
        return;
      }
      view.display := ShowBitmap(bitmap);
      if listener != null {
        listener.OnSuccess(bitmap);
      }
    }
  }
}
