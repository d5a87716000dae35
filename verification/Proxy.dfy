/** The proxying request handler: callbacks from the client, the connector and the origin. */
module Proxy {
  import opened Wrappers
  import opened Bytes
  import opened Cache

  datatype Verb = GET | OtherVerb

  datatype Request = Request(verb: Verb, url: string)

  datatype Response = Response(status: int, headers: seq<(string, string)>, body: Bytes)

  /** The fields of a handler. */
  datatype Handler = Handler(request: Option<Request>, contentBody: Option<Bytes>, contentHeaders: Option<Headers>,
                             clientTerminated: bool, originTxn: bool)

  const NEW_HANDLER := Handler(None, None, None, false, false)

  /** The callbacks a handler can receive. */
  datatype Event =
    | OnRequest(req: Request, resolves: bool)   // `resolves`: whether the origin's address could be set up
    | OnBody(body: Bytes)
    | OnEOM
    | RequestComplete
    | OnError
    | ConnectSuccess
    | ConnectError
    | OriginOnHeaders(headers: Headers)
    | OriginOnBody(chunk: Bytes)
    | OriginOnEOM
    | OriginOnError
    | OriginDetach
    | OriginOnEgressPaused
    | OriginOnEgressResumed

  /** The calls a handler makes, in order. */
  datatype Effect =
    | Respond(response: Response)               // downstream: a whole response with its end
    | PauseIngress | ResumeIngress | AbortDownstream
    | Connect
    | OriginSendHeaders | OriginSendBody(body: Bytes) | OriginSendEOM | OriginSendAbort | OriginPause | OriginResume
    | Store(url: string, content: Bytes, headers: Headers)
    | Delete

  function FromCache(r: CachedRoute): Response {
    Response(200,
             [("Content-Type", Header(r.headers, "Content-Type")),
              ("Cache-Control", Header(r.headers, "Cache-Control")),
              ("ETag", Header(r.headers, "ETag")),
              ("Expires", Header(r.headers, "Expires")),
              ("Last-Modified", Header(r.headers, "Last-Modified"))],
             r.content)
  }

  function FromOrigin(headers: Headers, body: Bytes): Response {
    Response(200, [("Content-Type", Header(headers, "Content-Type"))], body)
  }

  const BAD_GATEWAY := Response(503, [], [])

  function Shutdown(h: Handler): seq<Effect> {
    if h.clientTerminated && !h.originTxn then [Delete] else []
  }

  /** What a handler does on a callback; `cached` is the cache's answer for the request's address. */
  function React(h: Handler, cached: Option<CachedRoute>, ev: Event): (Handler, seq<Effect>) {
    match ev
    case OnRequest(req, resolves) =>
      (h.(request := Some(req)),
       if req.verb == GET && cached.Some? then [Respond(FromCache(cached.value))]
       else if !resolves then [Respond(BAD_GATEWAY)]
       else [PauseIngress, Connect])
    case OnBody(body) => (h, if h.originTxn then [OriginSendBody(body)] else [])
    case OnEOM => (h, if h.originTxn then [OriginSendEOM] else [])
    case RequestComplete =>
      var done := h.(clientTerminated := true);
      (done,
       (if h.request.Some? && h.request.value.verb == GET && h.contentBody.Some? && h.contentHeaders.Some?
        then [Store(h.request.value.url, h.contentBody.value, h.contentHeaders.value)] else [])
       + Shutdown(done))
    case OnError =>
      var done := h.(clientTerminated := true);
      (done, (if h.originTxn then [OriginSendAbort] else []) + Shutdown(done))
    case ConnectSuccess => (h.(originTxn := true), [OriginSendHeaders, ResumeIngress])
    case ConnectError => (h, if !h.clientTerminated then [Respond(BAD_GATEWAY)] else Shutdown(h))
    case OriginOnHeaders(headers) => (if h.clientTerminated then h else h.(contentHeaders := Some(headers)), [])
    case OriginOnBody(chunk) =>
      (if h.clientTerminated then h
       else h.(contentBody := Some(if h.contentBody.Some? then h.contentBody.value + chunk else chunk)), [])
    case OriginOnEOM =>
      (h, if !h.clientTerminated && h.contentHeaders.Some? && h.contentBody.Some?
          then [Respond(FromOrigin(h.contentHeaders.value, h.contentBody.value))] else [])
    case OriginOnError => (h, if !h.clientTerminated then [AbortDownstream] else [])
    case OriginDetach =>
      var detached := h.(originTxn := false);
      (detached, Shutdown(detached))
    case OriginOnEgressPaused => (h, if !h.clientTerminated && h.originTxn then [OriginPause] else [])
    case OriginOnEgressResumed => (h, if !h.clientTerminated && h.originTxn then [OriginResume] else [])
  }

  function Stores(routes: Routes, effects: seq<Effect>, sha: Bytes -> string): Routes {
    if effects == [] then routes
    else
      var rest := Stores(routes, effects[..|effects| - 1], sha);
      match effects[|effects| - 1]
      case Store(url, content, headers) => Insert(rest, url, content, headers, sha)
      case _ => rest
  }

  class ProxyHandler {
    var request: Option<Request>
    var contentBody: Option<Bytes>
    var contentHeaders: Option<Headers>
    var clientTerminated: bool
    var originTxn: bool
    const cache: ContentCache
    ghost var calls: seq<Effect>    // the calls made so far

    ghost function State(): Handler
      reads this
    {
      Handler(request, contentBody, contentHeaders, clientTerminated, originTxn)
    }

    constructor (cache: ContentCache)
      ensures State() == NEW_HANDLER && calls == [] && this.cache == cache
    {
      request, contentBody, contentHeaders, clientTerminated, originTxn := None, None, None, false, false;
      this.cache, calls := cache, [];
    }

    /** What every callback establishes: the state and the calls are those of the reaction. */
    twostate predicate Reacts(ev: Event, cached: Option<CachedRoute>)
      reads this
    {
      && State() == React(old(State()), cached, ev).0
      && calls == old(calls) + React(old(State()), cached, ev).1
    }

    method CheckForShutdown() returns (deleted: bool)
      modifies this`calls
      ensures calls == old(calls) + Shutdown(State())
      ensures deleted <==> clientTerminated && !originTxn
    {
      if clientTerminated && !originTxn {
        calls := calls + [Delete];
        return true;
      }
      deleted := false;
    }

    method AbortDownstreamIfOpen()
      modifies this`calls
      ensures calls == old(calls) + if clientTerminated then [] else [AbortDownstream]
    {
      if !clientTerminated {
        calls := calls + [AbortDownstream];
      }
    }

    method OnRequest(req: Request, resolves: bool)
      modifies this
      ensures Reacts(Event.OnRequest(req, resolves), if req.url in cache.routes then
        Some(cache.routes[req.url]) else None)
    {
      request := Some(req);
      if req.verb == GET {
        var cachedRoute := cache.GetCachedRoute(req.url);
        if cachedRoute.Some? {
          calls := calls + [Respond(FromCache(cachedRoute.value))];
          return;
        }
      }
      if !resolves {
        calls := calls + [Respond(BAD_GATEWAY)];
        return;
      }
      calls := calls + [PauseIngress];
      calls := calls + [Connect];
    }

    method OnBody(body: Bytes)
      modifies this
      ensures Reacts(Event.OnBody(body), None)
    {
      if originTxn {
        calls := calls + [OriginSendBody(body)];
      }
    }

    method OnEOM()
      modifies this
      ensures Reacts(Event.OnEOM, None)
    {
      if originTxn {
        calls := calls + [OriginSendEOM];
      }
    }

    method RequestComplete()
      requires request.Some? && cache.Valid()
      modifies this, cache
      ensures Reacts(Event.RequestComplete, None) && cache.Valid()
      ensures cache.routes == Stores(old(cache.routes), React(old(State()), None, Event.RequestComplete).1, cache.sha)
    {
      ghost var routes := cache.routes;
      if request.value.verb == GET && contentBody.Some? && contentHeaders.Some? {
        var _ := cache.AddCachedRoute(request.value.url, contentBody.value, contentHeaders.value);
        calls := calls + [Store(request.value.url, contentBody.value, contentHeaders.value)];
      }
      clientTerminated := true;
      var _ := CheckForShutdown();
      StoresOne(routes, old(State()), cache.sha);
    }

    method OnError()
      modifies this
      ensures Reacts(Event.OnError, None)
    {
      clientTerminated := true;
      if originTxn {
        calls := calls + [OriginSendAbort];
      }
      var _ := CheckForShutdown();
    }

    method ConnectSuccess()
      modifies this
      ensures Reacts(Event.ConnectSuccess, None)
    {
      originTxn := true;
      calls := calls + [OriginSendHeaders];
      calls := calls + [ResumeIngress];
    }

    method ConnectError()
      modifies this
      ensures Reacts(Event.ConnectError, None)
    {
      if !clientTerminated {
        calls := calls + [Respond(BAD_GATEWAY)];
      } else {
        AbortDownstreamIfOpen();
        var _ := CheckForShutdown();
      }
    }

    method OriginOnHeadersComplete(msg: Headers)
      modifies this
      ensures Reacts(OriginOnHeaders(msg), None)
    {
      if clientTerminated { return; }
      contentHeaders := Some(msg);
    }

    method OriginOnBody(chain: Bytes)
      modifies this
      ensures Reacts(Event.OriginOnBody(chain), None)
    {
      if clientTerminated { return; }
      if contentBody.Some? {
        contentBody := Some(contentBody.value + chain);
      } else {
        contentBody := Some(chain);
      }
    }

    method OriginOnEOM()
      modifies this
      ensures Reacts(Event.OriginOnEOM, None)
    {
      if !clientTerminated && contentHeaders.Some? && contentBody.Some? {
        calls := calls + [Respond(FromOrigin(contentHeaders.value, contentBody.value))];
      }
    }

    method OriginOnError()
      modifies this
      ensures Reacts(Event.OriginOnError, None)
    {
      AbortDownstreamIfOpen();
    }

    method OriginDetachTransaction()
      modifies this
      ensures Reacts(OriginDetach, None)
    {
      originTxn := false;
      var _ := CheckForShutdown();
    }

    method OriginOnEgressPaused()
      modifies this
      ensures Reacts(Event.OriginOnEgressPaused, None)
    {
      if !clientTerminated && originTxn {
        calls := calls + [OriginPause];
      }
    }

    method OriginOnEgressResumed()
      modifies this
      ensures Reacts(Event.OriginOnEgressResumed, None)
    {
      if !clientTerminated && originTxn {
        calls := calls + [OriginResume];
      }
    }
  }

  /** The cache operation among the calls of a completed request. */
  lemma {:induction false} StoresOne(routes: Routes, h: Handler, sha: Bytes -> string)
    ensures Stores(routes, React(h, None, Event.RequestComplete).1, sha) ==
      if h.request.Some? && h.request.value.verb == GET && h.contentBody.Some? && h.contentHeaders.Some?
      then Insert(routes, h.request.value.url, h.contentBody.value, h.contentHeaders.value, sha) else routes
  {
    var effects := React(h, None, Event.RequestComplete).1;
    assert Stores(routes, [], sha) == routes;
    if |effects| > 0 {
      var first := [effects[0]];
      assert first[..0] == [];
      assert Stores(routes, first, sha) == match effects[0] case Store(u, c, hd) =>
          Insert(routes, u, c, hd, sha) case _ => routes;
      assert |effects| == 1 ==> effects == first;
      assert |effects| == 2 ==> effects[..1] == first;
    }
  }
}
