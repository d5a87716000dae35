/**
 * Any number of handlers sharing one cache, their callbacks interleaved in any order the server
 * library allows. What it allows is stated here as an assumption on the environment.
 */
module ProxyRuns {
  import opened Wrappers
  import opened Bytes
  import opened Cache
  import opened Proxy

  /** What the environment of one handler has seen and done. */
  datatype Env = Env(
    requested: bool,                 // the request has been delivered
    connecting: bool,                // the connector still owes an answer
    attached: bool,                  // an origin transaction exists
    originDone: bool,                // the origin's message has ended or failed
    ended: bool,                     // the client is done with the handler, either way
    headed: bool,                    // the origin has delivered headers
    chunks: seq<Bytes>,              // every body chunk the origin has delivered
    responses: seq<Response>,        // every whole response handed to the client
    calls: seq<Effect>,              // every call the handler has made
    deletions: nat)

  const NEW_ENV := Env(false, false, false, false, false, false, [], [], [], 0)

  /**
   * The server library's promises. The request comes first and once; the connector answers a connect
   * once, unless the handler is gone; origin callbacks come while the transaction exists, its headers
   * and body before its end or failure, its detachment as an event of its own; the client ends a
   * handler once, by an error or, after it has been given a whole response, by completion.
   */
  predicate Allowed(e: Env, ev: Event) {
    match ev
    case OnRequest(_, _) => !e.requested
    case OnBody(_) => e.requested && !e.ended
    case OnEOM => e.requested && !e.ended
    case RequestComplete => e.requested && !e.ended && e.responses != []
    case OnError => e.requested && !e.ended
    case ConnectSuccess => e.connecting
    case ConnectError => e.connecting
    case OriginOnHeaders(_) => e.attached && !e.originDone
    case OriginOnBody(_) => e.attached && !e.originDone
    case OriginOnEOM => e.attached && !e.originDone
    case OriginOnError => e.attached
    case OriginDetach => e.attached
    case OriginOnEgressPaused => e.attached
    case OriginOnEgressResumed => e.attached
  }

  ghost function Responses(effects: seq<Effect>): seq<Response> {
    if effects == [] then []
    else
      var last := effects[|effects| - 1];
      Responses(effects[..|effects| - 1]) + if last.Respond? then [last.response] else []
  }

  ghost function Deletions(effects: seq<Effect>): nat {
    if effects == [] then 0 else Deletions(effects[..|effects| - 1]) + if effects[|effects| - 1].Delete? then 1 else 0
  }

  predicate BringsHeaders(ev: Event) { ev.OriginOnHeaders? }

  predicate EndsClient(ev: Event) { ev.RequestComplete? || ev.OnError? }

  /** The environment after a callback and the calls made in it; a deleted handler's connector is gone too. */
  ghost function Observe(e: Env, ev: Event, effects: seq<Effect>): Env {
    var deletions := e.deletions + Deletions(effects);
    Env(e.requested || ev.OnRequest?,
        deletions == 0 && if Connect in effects then true else e.connecting && !ev.ConnectSuccess? && !ev.ConnectError?,
        (e.attached || ev.ConnectSuccess?) && !ev.OriginDetach?,
        e.originDone || ev.OriginOnEOM? || ev.OriginOnError?,
        e.ended || EndsClient(ev),
        e.headed || BringsHeaders(ev),
        e.chunks + (if ev.OriginOnBody? then [ev.chunk] else []),
        e.responses + Responses(effects),
        e.calls + effects,
        deletions)
  }

  datatype Client = Client(h: Handler, env: Env)

  datatype World = World(clients: seq<Client>, cache: Routes)

  function Lookup(cache: Routes, ev: Event): Option<CachedRoute> {
    if ev.OnRequest? && ev.req.url in cache then Some(cache[ev.req.url]) else None
  }

  ghost function Step(w: World, i: nat, ev: Event, sha: Bytes -> string): World
    requires i < |w.clients|
  {
    var c := w.clients[i];
    var (h, effects) := React(c.h, Lookup(w.cache, ev), ev);
    World(w.clients[i := Client(h, Observe(c.env, ev, effects))], Stores(w.cache, effects, sha))
  }

  type Schedule = seq<(nat, Event)>

  /** A schedule the environment allows. */
  ghost predicate Possible(w: World, run: Schedule, sha: Bytes -> string)
    decreases |run|
  {
    run == [] ||
    (run[0].0 < |w.clients| && Allowed(w.clients[run[0].0].env, run[0].1) &&
     Possible(Step(w, run[0].0, run[0].1, sha), run[1..], sha))
  }

  ghost function Run(w: World, run: Schedule, sha: Bytes -> string): World
    requires Possible(w, run, sha)
    decreases |run|
  {
    if run == [] then w else Run(Step(w, run[0].0, run[0].1, sha), run[1..], sha)
  }

  /** Before any callback: idle handlers and an empty cache. */
  ghost predicate Initial(w: World) {
    w.cache == map[] && forall i :: 0 <= i < |w.clients| ==> w.clients[i] == Client(NEW_HANDLER, NEW_ENV)
  }

  /** Who is still there: the handler agrees with its environment, and is deleted exactly when both are gone. */
  ghost predicate Lifetime(c: Client) {
    var h, e := c.h, c.env;
    && h.originTxn == e.attached && h.clientTerminated == e.ended && h.request.Some? == e.requested
    && e.deletions == (if e.ended && !e.attached then 1 else 0)
    && (e.connecting ==> e.requested && Untouched(c))
    && (!e.requested ==> Untouched(c))
  }

  /** Neither client nor origin has got or given anything yet. */
  ghost predicate Untouched(c: Client) {
    && !c.env.attached && !c.env.ended && !c.env.originDone
    && c.env.responses == [] && c.env.chunks == [] && c.h.contentBody.None?
  }

  /** What has been collected is what the origin sent, and only that is answered. */
  ghost predicate Collected(c: Client) {
    var h, e := c.h, c.env;
    && (e.attached && !e.originDone ==> e.responses == [])
    && |e.responses| <= 1
    && (!e.ended ==> h.contentBody == if e.chunks == [] then None else Some(Flatten(e.chunks)))
    && (!e.ended ==> h.contentHeaders.Some? == e.headed)
    && (!e.ended && e.responses != [] && h.contentBody.Some? ==>
          e.originDone && h.contentHeaders.Some?
          && e.responses == [FromOrigin(h.contentHeaders.value, h.contentBody.value)])
  }

  /** What one handler and its environment always satisfy. */
  ghost predicate ClientInv(c: Client) {
    Lifetime(c) && Collected(c)
  }

  /** The calls of one allowed callback respect who is still there. */
  lemma {:induction false} CallsAreSafe(c: Client, cached: Option<CachedRoute>, ev: Event)
    requires ClientInv(c) && Allowed(c.env, ev)
    ensures var effects := React(c.h, cached, ev).1;
      forall k :: 0 <= k < |effects| ==> SafeCall(c.env, ev, effects[k])
  {
  }

  predicate SafeCall(e: Env, ev: Event, call: Effect) {
    && (IsOriginCall(call) ==> (e.attached || ev.ConnectSuccess?) && !ev.OriginDetach?)
    && (IsClientCall(call) ==> !e.ended && !ev.RequestComplete? && !ev.OnError?)
  }

  predicate IsOriginCall(x: Effect) {
    || x.OriginSendHeaders? || x.OriginSendBody? || x.OriginSendEOM? || x.OriginSendAbort?
    || x.OriginPause? || x.OriginResume?
  }

  predicate IsClientCall(x: Effect) {
    x.Respond? || x.PauseIngress? || x.ResumeIngress? || x.AbortDownstream?
  }

  /** No callback reaches a deleted handler. */
  lemma DeletedIsFinal(c: Client, ev: Event)
    requires ClientInv(c) && c.env.deletions > 0
    ensures !Allowed(c.env, ev)
  {
  }

  /** No callback makes more than two calls; a response comes first, a deletion last. */
  lemma ReactShape(h: Handler, cached: Option<CachedRoute>, ev: Event)
    ensures var effects := React(h, cached, ev).1;
      |effects| <= 2 && (|effects| == 2 ==> !effects[1].Respond? && !effects[0].Delete? && effects[0] != Connect)
  {
  }

  /** The responses and deletions among so few calls. */
  lemma {:induction false} Tally(effects: seq<Effect>)
    requires |effects| <= 2 && (|effects| == 2 ==> !effects[1].Respond? && !effects[0].Delete? && effects[0] != Connect)
    ensures Responses(effects) == (if effects != [] && effects[0].Respond? then [effects[0].response] else [])
    ensures Deletions(effects) == (if effects != [] && effects[|effects| - 1].Delete? then 1 else 0)
    ensures Connect in effects <==> effects != [] && effects[|effects| - 1] == Connect
  {
    assert Responses([]) == [] && Deletions([]) == 0;
    if |effects| > 0 {
      var first := [effects[0]];
      assert first[..0] == [];
      assert Responses(first) == if effects[0].Respond? then [effects[0].response] else [];
      assert Deletions(first) == if effects[0].Delete? then 1 else 0;
      if |effects| == 1 { assert effects == first; } else { assert effects[..1] == first; }
    }
  }

  /** What the environment records of a callback, with the few calls made in it spelled out. */
  lemma {:induction false} ObserveIs(c: Client, cached: Option<CachedRoute>, ev: Event)
    ensures var effects := React(c.h, cached, ev).1;
      var n := |effects|;
      var e, deletions := c.env, c.env.deletions + if n != 0 && effects[n - 1].Delete? then 1 else 0;
      Observe(e, ev, effects) ==
        Env(e.requested || ev.OnRequest?,
            deletions == 0
            && ((n != 0 && effects[n - 1] == Connect) || (e.connecting && !ev.ConnectSuccess? && !ev.ConnectError?)),
            (e.attached || ev.ConnectSuccess?) && !ev.OriginDetach?,
            e.originDone || ev.OriginOnEOM? || ev.OriginOnError?,
            e.ended || EndsClient(ev), e.headed || BringsHeaders(ev),
            if ev.OriginOnBody? then e.chunks + [ev.chunk] else e.chunks,
            if n != 0 && effects[0].Respond? then e.responses + [effects[0].response] else e.responses,
            e.calls + effects, deletions)
  {
    hide React, Responses, Deletions;
    ReactShape(c.h, cached, ev);
    Tally(React(c.h, cached, ev).1);
    assert c.env.chunks + [] == c.env.chunks && c.env.responses + [] == c.env.responses;
  }

  lemma {:induction false} LifetimeStep(c: Client, cached: Option<CachedRoute>, ev: Event)
    requires ClientInv(c) && Allowed(c.env, ev)
    ensures var (h, effects) := React(c.h, cached, ev); Lifetime(Client(h, Observe(c.env, ev, effects)))
  {
    hide Observe, Flatten;
    ObserveIs(c, cached, ev);
  }

  lemma {:induction false} CollectedChunk(c: Client, cached: Option<CachedRoute>, ev: Event)
    requires ClientInv(c) && Allowed(c.env, ev) && ev.OriginOnBody?
    ensures var (h, effects) := React(c.h, cached, ev); Collected(Client(h, Observe(c.env, ev, effects)))
  {
    hide Observe, Flatten;
    ObserveIs(c, cached, ev);
    FlattenAppend(c.env.chunks, ev.chunk);
    FlattenOne(ev.chunk);
    assert c.env.chunks == [] ==> c.env.chunks + [ev.chunk] == [ev.chunk];
  }

  lemma {:induction false} CollectedOther(c: Client, cached: Option<CachedRoute>, ev: Event)
    requires ClientInv(c) && Allowed(c.env, ev) && !ev.OriginOnBody?
    ensures var (h, effects) := React(c.h, cached, ev); Collected(Client(h, Observe(c.env, ev, effects)))
  {
    hide Observe, Flatten, FromCache, FromOrigin;
    ObserveIs(c, cached, ev);
  }

  lemma {:induction false} CollectedStep(c: Client, cached: Option<CachedRoute>, ev: Event)
    requires ClientInv(c) && Allowed(c.env, ev)
    ensures var (h, effects) := React(c.h, cached, ev); Collected(Client(h, Observe(c.env, ev, effects)))
  {
    hide *;
    if ev.OriginOnBody? {
      CollectedChunk(c, cached, ev);
    } else {
      CollectedOther(c, cached, ev);
    }
  }

  /** One allowed callback keeps what a handler always satisfies. */
  lemma {:induction false} ClientStep(c: Client, cached: Option<CachedRoute>, ev: Event)
    requires ClientInv(c) && Allowed(c.env, ev)
    ensures var (h, effects) := React(c.h, cached, ev); ClientInv(Client(h, Observe(c.env, ev, effects)))
  {
    hide React, Observe;
    LifetimeStep(c, cached, ev);
    CollectedStep(c, cached, ev);
  }

  lemma FlattenOne(chunk: Bytes)
    ensures Flatten([chunk]) == chunk
  {
    assert Flatten([]) == [];
  }

  /** The handler's own origin reply is over, and `body` is all of it, in order. */
  ghost predicate OwnReply(c: Client, body: Bytes) {
    c.env.originDone && c.env.chunks != [] && body == Flatten(c.env.chunks)
  }

  /** The handler asked the origin for `u` and `body` is all the origin sent. */
  ghost predicate Fetched(c: Client, u: string, body: Bytes) {
    c.h.request == Some(Request(GET, u)) && OwnReply(c, body)
  }

  /** The handler that filled a route: it fetched these bytes and gave them to its own client. */
  ghost predicate Filled(c: Client, u: string, route: CachedRoute) {
    Fetched(c, u, route.content) && c.env.ended && c.env.responses == [FromOrigin(route.headers, route.content)]
  }

  ghost predicate RouteInv(w: World, u: string, sha: Bytes -> string)
    requires u in w.cache
  {
    && w.cache[u].url == u && w.cache[u].sha256 == sha(w.cache[u].content)
    && exists i :: 0 <= i < |w.clients| && Filled(w.clients[i], u, w.cache[u])
  }

  /**
   * A successful answer to a GET carries bytes fetched from the origin for the same address; to any other
   * request, the reply the origin gave to that very request.
   */
  ghost predicate AnswerInv(w: World, i: nat)
    requires i < |w.clients|
  {
    var c := w.clients[i];
    c.env.responses != [] && c.env.responses[0].status == 200 ==>
      c.h.request.Some? &&
      if c.h.request.value.verb == GET then HasSource(w, c.h.request.value.url, c.env.responses[0].body)
      else OwnReply(c, c.env.responses[0].body)
  }

  ghost predicate HasSource(w: World, u: string, body: Bytes) {
    exists j :: 0 <= j < |w.clients| && Fetched(w.clients[j], u, body)
  }

  ghost predicate Inv(w: World, sha: Bytes -> string) {
    && (forall i :: 0 <= i < |w.clients| ==> ClientInv(w.clients[i]))
    && (forall u :: u in w.cache ==> RouteInv(w, u, sha))
    && (forall i :: 0 <= i < |w.clients| ==> AnswerInv(w, i))
  }

  /** What has been fetched or filled stays so, whatever happens next. */
  lemma {:induction false} FetchedStays(c: Client, cached: Option<CachedRoute>, ev: Event)
    requires ClientInv(c) && Allowed(c.env, ev)
    ensures var (h, effects) := React(c.h, cached, ev);
      var c' := Client(h, Observe(c.env, ev, effects));
      && (forall body :: OwnReply(c, body) ==> OwnReply(c', body))
      && (forall u, body :: Fetched(c, u, body) ==> Fetched(c', u, body))
      && (forall u, route :: Filled(c, u, route) ==> Filled(c', u, route))
  {
    hide Observe, Flatten;
    ObserveIs(c, cached, ev);
  }

  /** A completed request that caches anything has been answered with just that. */
  lemma {:induction false} CompletionIsFilled(c: Client, cached: Option<CachedRoute>, sha: Bytes -> string)
    requires ClientInv(c) && Allowed(c.env, RequestComplete)
    requires c.h.request.value.verb == GET && c.h.contentBody.Some? && c.h.contentHeaders.Some?
    ensures var (h, effects) := React(c.h, cached, RequestComplete);
      var url := c.h.request.value.url;
      Filled(Client(h, Observe(c.env, RequestComplete, effects)), url, MakeRoute(url, c.h.contentBody.value,
          c.h.contentHeaders.value, sha))
  {
    hide Observe, Flatten;
    ObserveIs(c, cached, RequestComplete);
  }

  /** A store is made only by the completion of a request whose handler has filled the route. */
  lemma {:induction false} StoresAreFilled(c: Client, cached: Option<CachedRoute>, ev: Event, routes: Routes,
        sha: Bytes -> string)
    requires ClientInv(c) && Allowed(c.env, ev)
    ensures var (h, effects) := React(c.h, cached, ev);
      var c' := Client(h, Observe(c.env, ev, effects));
      var routes' := Stores(routes, effects, sha);
      forall u :: u in routes' ==>
        if u in routes then routes'[u] == routes[u]
        else routes'[u].url == u && routes'[u].sha256 == sha(routes'[u].content) && Filled(c', u, routes'[u])
    ensures forall u :: u in routes ==> u in Stores(routes, React(c.h, cached, ev).1, sha)
  {
    hide Filled, Stores, Observe;
    if ev.RequestComplete? {
      StoresOne(routes, c.h, sha);
      if c.h.request.Some? && c.h.request.value.verb == GET && c.h.contentBody.Some? && c.h.contentHeaders.Some? {
        CompletionIsFilled(c, cached, sha);
      }
    } else {
      NoStores(routes, React(c.h, cached, ev).1, sha);
    }
  }

  lemma {:induction false} NoStores(routes: Routes, effects: seq<Effect>, sha: Bytes -> string)
    requires forall k :: 0 <= k < |effects| ==> !effects[k].Store?
    ensures Stores(routes, effects, sha) == routes
  {
    if effects != [] {
      NoStores(routes, effects[..|effects| - 1], sha);
    }
  }

  /** The answer given in a callback, if any: from the cache, from the handler's own fetch, or an error. */
  lemma {:induction false} AnswerOrigin(c: Client, cached: Option<CachedRoute>, ev: Event)
    requires ClientInv(c) && Allowed(c.env, ev)
    ensures var (h, effects) := React(c.h, cached, ev);
      var e' := Observe(c.env, ev, effects);
      || e'.responses == c.env.responses
      || e'.responses == [BAD_GATEWAY]
      || (ev.OnRequest? && ev.req.verb == GET && cached.Some? && e'.responses == [FromCache(cached.value)])
      || (ev.OriginOnEOM? && c.h.contentBody == Some(Flatten(c.env.chunks)) && c.env.chunks != [] &&
          c.h.contentHeaders.Some?
          && e'.responses == [FromOrigin(c.h.contentHeaders.value, c.h.contentBody.value)])
  {
    hide Observe, Flatten;
    ObserveIs(c, cached, ev);
  }

  /** One step of the whole system. */
  lemma {:induction false} InvStep(w: World, i: nat, ev: Event, sha: Bytes -> string)
    requires Inv(w, sha) && i < |w.clients| && Allowed(w.clients[i].env, ev)
    ensures Inv(Step(w, i, ev, sha), sha)
    ensures forall u :: u in w.cache ==> u in Step(w, i, ev, sha).cache && Step(w, i, ev, sha).cache[u] == w.cache[u]
  {
    hide React, Observe, ClientInv, Fetched, Filled, AnswerInv, Stores, Allowed;
    var c, cached := w.clients[i], Lookup(w.cache, ev);
    var w' := Step(w, i, ev, sha);
    ClientStep(c, cached, ev);
    FetchedStays(c, cached, ev);
    StoresAreFilled(c, cached, ev, w.cache, sha);
    forall u | u in w'.cache ensures RouteInv(w', u, sha) {
      if u in w.cache {
        assert RouteInv(w, u, sha);
        var j :| 0 <= j < |w.clients| && Filled(w.clients[j], u, w.cache[u]);
        assert Filled(w'.clients[j], u, w'.cache[u]);
      } else {
        assert Filled(w'.clients[i], u, w'.cache[u]);
      }
    }
    forall k | 0 <= k < |w'.clients| ensures AnswerInv(w', k) {
      AnswerStep(w, i, ev, sha, k);
    }
  }

  lemma {:induction false} SourceStays(w: World, i: nat, ev: Event, sha: Bytes -> string, u: string, body: Bytes)
    requires Inv(w, sha) && i < |w.clients| && Allowed(w.clients[i].env, ev) && HasSource(w, u, body)
    ensures HasSource(Step(w, i, ev, sha), u, body)
  {
    hide React, Observe, ClientInv, Fetched, Stores, Allowed;
    FetchedStays(w.clients[i], Lookup(w.cache, ev), ev);
    var j :| 0 <= j < |w.clients| && Fetched(w.clients[j], u, body);
    assert Fetched(Step(w, i, ev, sha).clients[j], u, body);
  }

  lemma {:induction false} AnswerStep(w: World, i: nat, ev: Event, sha: Bytes -> string, k: nat)
    requires Inv(w, sha) && i < |w.clients| && k < |w.clients| && Allowed(w.clients[i].env, ev)
    ensures AnswerInv(Step(w, i, ev, sha), k)
  {
    hide React, Observe, ClientInv, Stores, Allowed, HasSource;
    var c := w.clients[k];
    assert AnswerInv(w, k);
    if k == i {
      OwnAnswer(w, i, ev, sha);
    } else if c.env.responses != [] && c.env.responses[0].status == 200 && c.h.request.value.verb == GET {
      SourceStays(w, i, ev, sha, c.h.request.value.url, c.env.responses[0].body);
    }
  }

  /** A request is there once it has been delivered, and is not replaced. */
  lemma {:induction false} RequestStays(c: Client, cached: Option<CachedRoute>, ev: Event)
    requires ClientInv(c) && Allowed(c.env, ev)
    ensures var (h, effects) := React(c.h, cached, ev);
      var e := Observe(c.env, ev, effects);
      && h.request.Some?
      && (!ev.OnRequest? ==> h.request == c.h.request)
      && (ev.OnRequest? ==> h.request == Some(ev.req) && c.env.responses == [])
      && (ev.OriginOnEOM? ==> e.originDone && e.chunks == c.env.chunks)
  {
    hide Observe, Flatten;
    ObserveIs(c, cached, ev);
  }

  /** The handler's own answer, when it has just been given or was there before. */
  lemma {:induction false} OwnAnswer(w: World, i: nat, ev: Event, sha: Bytes -> string)
    requires Inv(w, sha) && i < |w.clients| && Allowed(w.clients[i].env, ev)
    ensures AnswerInv(Step(w, i, ev, sha), i)
  {
    hide Stores, HasSource, Observe, React, Flatten;
    var c, cached := w.clients[i], Lookup(w.cache, ev);
    var w' := Step(w, i, ev, sha);
    var c' := w'.clients[i];
    AnswerOrigin(c, cached, ev);
    FetchedStays(c, cached, ev);
    assert AnswerInv(w, i);
    RequestStays(c, cached, ev);
    if c'.env.responses != [] && c'.env.responses[0].status == 200 && c'.h.request.value.verb == GET {
      var u, body := c'.h.request.value.url, c'.env.responses[0].body;
      if c'.env.responses == c.env.responses {
        SourceStays(w, i, ev, sha, u, body);
      } else if ev.OnRequest? {
        CachedHasSource(w, u, sha);
        SourceStays(w, i, ev, sha, u, body);
      } else {
        OwnSource(w', i, u, body);
      }
    }
  }

  lemma CachedHasSource(w: World, u: string, sha: Bytes -> string)
    requires Inv(w, sha) && u in w.cache
    ensures HasSource(w, u, w.cache[u].content)
  {
    assert RouteInv(w, u, sha);
  }

  lemma OwnSource(w: World, i: nat, u: string, body: Bytes)
    requires i < |w.clients| && Fetched(w.clients[i], u, body)
    ensures HasSource(w, u, body)
  {
  }

  /** In every run the environment allows, from idle handlers and an empty cache. */
  lemma {:induction false} InvRun(w: World, run: Schedule, sha: Bytes -> string)
    requires Inv(w, sha) && Possible(w, run, sha)
    ensures Inv(Run(w, run, sha), sha)
    ensures |Run(w, run, sha).clients| == |w.clients|
    ensures forall u :: u in w.cache ==> u in Run(w, run, sha).cache && Run(w, run, sha).cache[u] == w.cache[u]
    decreases |run|
  {
    hide Inv, Allowed;
    if run != [] {
      InvStep(w, run[0].0, run[0].1, sha);
      InvRun(Step(w, run[0].0, run[0].1, sha), run[1..], sha);
    }
  }

  lemma InitialInv(w: World, sha: Bytes -> string)
    requires Initial(w)
    ensures Inv(w, sha)
  {
  }

  /**
   * Cache coherence. After any run: every cached address holds, under its own hash, the ordered
   * concatenation of all origin chunks of one GET for that address, which is what that GET's client
   * was sent; and running on never changes or drops a route.
   */
  lemma {:induction false} CacheCoherence(w: World, run: Schedule, more: Schedule, sha: Bytes -> string, u: string)
    requires Initial(w) && Possible(w, run, sha) && Possible(Run(w, run, sha), more, sha)
    requires u in Run(w, run, sha).cache
    ensures var now, later := Run(w, run, sha), Run(Run(w, run, sha), more, sha);
      && now.cache[u].url == u && now.cache[u].sha256 == sha(now.cache[u].content)
      && u in later.cache && later.cache[u] == now.cache[u]
      && exists i :: 0 <= i < |now.clients| && Filled(now.clients[i], u, now.cache[u])
  {
    hide Run, Possible, Filled, ClientInv, AnswerInv;
    InitialInv(w, sha);
    InvRun(w, run, sha);
    InvRun(Run(w, run, sha), more, sha);
    assert RouteInv(Run(w, run, sha), u, sha);
  }

  /**
   * Every successful answer to a GET, from the cache or not, is the concatenation of all chunks of one origin
   * reply for its address; to any other request, of the reply to that very request, never cached content.
   */
  lemma {:induction false} AnswersComeFromOrigin(w: World, run: Schedule, sha: Bytes -> string, i: nat)
    requires Initial(w) && Possible(w, run, sha) && i < |w.clients|
    ensures |Run(w, run, sha).clients| == |w.clients| && AnswerInv(Run(w, run, sha), i)
  {
    hide Run, Possible, AnswerInv, ClientInv;
    InitialInv(w, sha);
    InvRun(w, run, sha);
  }

  /**
   * Handler lifetime. After any run a handler has been deleted once if its client has ended and it has
   * no origin transaction, and not at all otherwise; it has answered at most once; and once it is
   * deleted the environment has no callback left for it.
   */
  lemma {:induction false} HandlerLifetime(w: World, run: Schedule, sha: Bytes -> string, i: nat)
    requires Initial(w) && Possible(w, run, sha) && i < |w.clients|
    ensures |Run(w, run, sha).clients| == |w.clients|
    ensures var e := Run(w, run, sha).clients[i].env;
      && e.deletions == (if e.ended && !e.attached then 1 else 0)
      && |e.responses| <= 1
      && (e.deletions == 1 ==> forall ev :: !Allowed(e, ev))
  {
    hide Run, Possible, AnswerInv;
    InitialInv(w, sha);
    InvRun(w, run, sha);
    var c := Run(w, run, sha).clients[i];
    assert ClientInv(c);
    forall ev ensures c.env.deletions == 1 ==> !Allowed(c.env, ev) {
      if c.env.deletions == 1 { DeletedIsFinal(c, ev); }
    }
  }

  /**
   * After any run, the next callback calls the origin only while its transaction exists and the client
   * only before it has ended.
   */
  lemma {:induction false} CallsAreSafeInEveryRun(w: World, run: Schedule, sha: Bytes -> string, i: nat, ev: Event)
    requires Initial(w) && Possible(w, run, sha) && i < |w.clients|
    ensures |Run(w, run, sha).clients| == |w.clients|
    ensures var now := Run(w, run, sha); var c := now.clients[i];
      Allowed(c.env, ev) ==>
        forall k :: 0 <= k < |React(c.h, Lookup(now.cache, ev), ev).1| ==>
          SafeCall(c.env, ev, React(c.h, Lookup(now.cache, ev), ev).1[k])
  {
    hide Run, Possible, AnswerInv, React, Allowed, SafeCall;
    InitialInv(w, sha);
    InvRun(w, run, sha);
    var now := Run(w, run, sha);
    assert ClientInv(now.clients[i]);
    if Allowed(now.clients[i].env, ev) {
      CallsAreSafe(now.clients[i], Lookup(now.cache, ev), ev);
    }
  }

  /** Handler `i` has had a callback of this kind. */
  ghost predicate Occurs(run: Schedule, i: nat, kind: Event -> bool) {
    exists m :: 0 <= m < |run| && run[m].0 == i && kind(run[m].1)
  }

  /** The body chunks the origin has delivered to handler `i`, in order. */
  function ChunksOf(run: Schedule, i: nat): seq<Bytes> {
    if run == [] then []
    else (if run[0].0 == i && run[0].1.OriginOnBody? then [run[0].1.chunk] else []) + ChunksOf(run[1..], i)
  }

  lemma {:induction false} OccursFirst(run: Schedule, i: nat, kind: Event -> bool)
    requires run != []
    ensures Occurs(run, i, kind) <==> (run[0].0 == i && kind(run[0].1)) || Occurs(run[1..], i, kind)
  {
    if m :| 0 < m < |run| && run[m].0 == i && kind(run[m].1) {
      assert run[1..][m - 1] == run[m];
    }
    if m :| 0 <= m < |run[1..]| && run[1..][m].0 == i && kind(run[1..][m].1) {
      assert run[m + 1] == run[1..][m];
    }
  }

  /** The environment's records are those of the run. */
  lemma {:induction false} RunRecords(w: World, run: Schedule, sha: Bytes -> string, i: nat)
    requires Possible(w, run, sha) && i < |w.clients|
    ensures |Run(w, run, sha).clients| == |w.clients|
    ensures var e, e' := w.clients[i].env, Run(w, run, sha).clients[i].env;
      && (e'.headed <==> e.headed || Occurs(run, i, BringsHeaders))
      && (e'.ended <==> e.ended || Occurs(run, i, EndsClient))
      && e'.chunks == e.chunks + ChunksOf(run, i)
    decreases |run|
  {
    hide React, Stores, Allowed, Responses, Deletions, Occurs;
    if run == [] {
      NothingOccurs(i, BringsHeaders);
      NothingOccurs(i, EndsClient);
    } else {
      var w' := Step(w, run[0].0, run[0].1, sha);
      OccursFirst(run, i, BringsHeaders);
      OccursFirst(run, i, EndsClient);
      RunRecords(w', run[1..], sha, i);
    }
  }

  lemma NothingOccurs(i: nat, kind: Event -> bool)
    ensures !Occurs([], i, kind)
  {
  }

  /** A run is a run of its first part and then of its second. */
  lemma {:induction false} RunInParts(w: World, a: Schedule, b: Schedule, sha: Bytes -> string)
    requires Possible(w, a + b, sha)
    ensures Possible(w, a, sha) && Possible(Run(w, a, sha), b, sha)
    ensures Run(w, a + b, sha) == Run(Run(w, a, sha), b, sha)
    decreases |a|
  {
    hide Step, Allowed;
    if a == [] {
      assert a + b == b;
    } else {
      assert (a + b)[1..] == a[1..] + b;
      RunInParts(Step(w, a[0].0, a[0].1, sha), a[1..], b, sha);
    }
  }

  lemma {:induction false} SettledStep(c: Client, cached: Option<CachedRoute>, ev: Event)
    requires ClientInv(c) && Allowed(c.env, ev) && c.env.originDone
    ensures var e' := Observe(c.env, ev, React(c.h, cached, ev).1); e'.originDone && e'.responses == c.env.responses
  {
    hide Observe, Flatten;
    ObserveIs(c, cached, ev);
  }

  /** Once the origin's reply is over, nothing more is answered. */
  lemma {:induction false} SettledRun(w: World, run: Schedule, sha: Bytes -> string, i: nat)
    requires Inv(w, sha) && Possible(w, run, sha) && i < |w.clients| && w.clients[i].env.originDone
    ensures |Run(w, run, sha).clients| == |w.clients|
    ensures Run(w, run, sha).clients[i].env.responses == w.clients[i].env.responses
    decreases |run|
  {
    hide ClientInv, React, Observe, Stores, AnswerInv, Allowed;
    if run != [] {
      var (k, ev) := run[0];
      InvStep(w, k, ev, sha);
      if k == i {
        SettledStep(w.clients[i], Lookup(w.cache, ev), ev);
      }
      SettledRun(Step(w, k, ev, sha), run[1..], sha, i);
    }
  }

  /** What the end of the reply does. */
  lemma {:induction false} EomStep(c: Client)
    requires ClientInv(c) && Allowed(c.env, OriginOnEOM)
    ensures var e' := Observe(c.env, OriginOnEOM, React(c.h, None, OriginOnEOM).1);
      && e'.originDone
      && if !c.env.ended && c.env.headed && c.env.chunks != []
         then e'.responses == [FromOrigin(c.h.contentHeaders.value, Flatten(c.env.chunks))] else e'.responses == []
  {
    hide Observe, Flatten;
    ObserveIs(c, None, OriginOnEOM);
  }

  /**
   * Answering. In any run in which the origin's reply to a handler comes to its end, that handler
   * answers, now or ever, exactly if before that end its client was still there, headers had come, and
   * at least one chunk of a body; and the answer is all chunks in order.
   */
  lemma {:induction false} ReplyIsAnsweredIff(w: World, before: Schedule, more: Schedule, sha: Bytes -> string, i: nat)
    requires Initial(w) && i < |w.clients| && Possible(w, before + ([(i, OriginOnEOM)] + more), sha)
    ensures var last := Run(w, before + ([(i, OriginOnEOM)] + more), sha);
      && |last.clients| == |w.clients|
      && (last.clients[i].env.responses != [] <==>
          Occurs(before, i, BringsHeaders) && ChunksOf(before, i) != [] && !Occurs(before, i, EndsClient))
      && (last.clients[i].env.responses != [] ==> last.clients[i].env.responses[0].body == Flatten(ChunksOf(before, i)))
  {
    hide Run, Possible, ClientInv, React, Observe, Stores, AnswerInv, Allowed, Occurs, ChunksOf, Flatten;
    var rest := [(i, OriginOnEOM)] + more;
    RunInParts(w, before, rest, sha);
    InitialInv(w, sha);
    InvRun(w, before, sha);
    RunRecords(w, before, sha, i);
    var now := Run(w, before, sha);
    assert [] + ChunksOf(before, i) == ChunksOf(before, i);
    assert rest[1..] == more && rest[0] == (i, OriginOnEOM);
    RunFirst(now, rest, sha);
    EomStep(now.clients[i]);
    InvStep(now, i, OriginOnEOM, sha);
    SettledRun(Step(now, i, OriginOnEOM, sha), more, sha, i);
  }

  lemma RunFirst(w: World, run: Schedule, sha: Bytes -> string)
    requires Possible(w, run, sha) && run != []
    ensures run[0].0 < |w.clients| && Allowed(w.clients[run[0].0].env, run[0].1)
    ensures Possible(Step(w, run[0].0, run[0].1, sha), run[1..], sha)
    ensures Run(w, run, sha) == Run(Step(w, run[0].0, run[0].1, sha), run[1..], sha)
  {
  }

  /** A reply is over, nothing of a body has come, and nothing has been answered. */
  ghost predicate EmptyReply(c: Client) {
    c.env.originDone && c.env.chunks == [] && c.env.responses == []
  }

  /** An origin reply without a body is never answered: its client waits until it gives up. */
  lemma {:induction false} EmptyReplyIsNeverAnswered(w: World, run: Schedule, sha: Bytes -> string, i: nat)
    requires Inv(w, sha) && Possible(w, run, sha) && i < |w.clients| && EmptyReply(w.clients[i])
    ensures |Run(w, run, sha).clients| == |w.clients| && EmptyReply(Run(w, run, sha).clients[i])
    decreases |run|
  {
    hide Inv, React, Observe, Stores, EmptyReply;
    if run != [] {
      var (k, ev) := run[0];
      var w' := Step(w, k, ev, sha);
      if k == i {
        EmptyReplyStep(w, i, ev, sha);
      }
      InvStep(w, k, ev, sha);
      EmptyReplyIsNeverAnswered(w', run[1..], sha, i);
    }
  }

  ghost function Next(c: Client, ev: Event): Client {
    var (h, effects) := React(c.h, None, ev); Client(h, Observe(c.env, ev, effects))
  }

  lemma StoresOnCompletion(h: Handler, cached: Option<CachedRoute>, ev: Event)
    requires !ev.RequestComplete?
    ensures forall k :: 0 <= k < |React(h, cached, ev).1| ==> !React(h, cached, ev).1[k].Store?
  {
  }

  /** A handler on its own, with nothing cached. */
  ghost predicate Alone(c: Client, run: Schedule, last: Client, sha: Bytes -> string) {
    Possible(World([c], map[]), run, sha) && Run(World([c], map[]), run, sha) == World([last], map[])
  }

  lemma {:induction false} AloneStep(c: Client, ev: Event, run: Schedule, last: Client, sha: Bytes -> string)
    requires Allowed(c.env, ev) && !ev.RequestComplete? && Alone(Next(c, ev), run, last, sha)
    ensures Alone(c, [(0, ev)] + run, last, sha)
  {
    hide Observe, Allowed, React, Stores;
    var w := World([c], map[]);
    StoresOnCompletion(c.h, None, ev);
    NoStores(map[], React(c.h, None, ev).1, sha);
    assert [c][0 := Next(c, ev)] == [Next(c, ev)];
    assert Step(w, 0, ev, sha) == World([Next(c, ev)], map[]);
    assert ([(0, ev)] + run)[1..] == run;
  }

  /** A GET that misses the cache and has its transaction. */
  ghost predicate Connected(c: Client, req: Request) {
    && c.h == NEW_HANDLER.(request := Some(req), originTxn := true)
    && c.env == NEW_ENV.(requested := true, attached := true, calls := c.env.calls)
  }

  lemma {:induction false} GetsConnected(req: Request) returns (c1: Client, c2: Client)
    requires req.verb == GET
    ensures c1 == Next(Client(NEW_HANDLER, NEW_ENV), OnRequest(req, true)) && Allowed(c1.env, ConnectSuccess)
    ensures c2 == Next(c1, ConnectSuccess) && Connected(c2, req)
  {
    hide Observe;
    ObserveIs(Client(NEW_HANDLER, NEW_ENV), None, OnRequest(req, true));
    c1 := Next(Client(NEW_HANDLER, NEW_ENV), OnRequest(req, true));
    ObserveIs(c1, None, ConnectSuccess);
    c2 := Next(c1, ConnectSuccess);
  }

  /** Its reply has headers and ends. */
  lemma {:induction false} HeadersOnly(c2: Client, req: Request, headers: Headers) returns (c3: Client, c4: Client)
    requires Connected(c2, req)
    ensures Allowed(c2.env, OriginOnHeaders(headers))
    ensures c3 == Next(c2, OriginOnHeaders(headers)) && Allowed(c3.env, OriginOnEOM)
    ensures c4 == Next(c3, OriginOnEOM) && EmptyReply(c4) && !c4.env.ended
  {
    hide Observe;
    ObserveIs(c2, None, OriginOnHeaders(headers));
    c3 := Next(c2, OriginOnHeaders(headers));
    ObserveIs(c3, None, OriginOnEOM);
    c4 := Next(c3, OriginOnEOM);
  }

  /** It happens: a GET whose reply has headers and ends, with its client still there. */
  lemma {:induction false} EmptyReplyHappens(req: Request, headers: Headers, sha: Bytes -> string)
      returns (last: Client)
    requires req.verb == GET
    ensures Initial(World([Client(NEW_HANDLER, NEW_ENV)], map[]))
    ensures Alone(Client(NEW_HANDLER, NEW_ENV),
                  [(0, OnRequest(req, true)), (0, ConnectSuccess), (0, OriginOnHeaders(headers)), (0, OriginOnEOM)],
                  last, sha)
    ensures EmptyReply(last) && !last.env.ended
  {
    hide Alone, Next, EmptyReply;
    var c1, c2 := GetsConnected(req);
    var c3, c4 := HeadersOnly(c2, req, headers);
    last := c4;
    AloneEnd(last, sha);
    var run3: Schedule := [(0, OriginOnEOM)];
    AloneStep(c3, OriginOnEOM, [], last, sha);
    assert run3 == run3 + [];
    var run2 := [(0, OriginOnHeaders(headers))] + run3;
    AloneStep(c2, OriginOnHeaders(headers), run3, last, sha);
    var run1 := [(0, ConnectSuccess)] + run2;
    AloneStep(c1, ConnectSuccess, run2, last, sha);
    AloneStep(Client(NEW_HANDLER, NEW_ENV), OnRequest(req, true), run1, last, sha);
    assert [(0, OnRequest(req, true))] + run1 ==
           [(0, OnRequest(req, true)), (0, ConnectSuccess), (0, OriginOnHeaders(headers)), (0, OriginOnEOM)];
  }

  lemma AloneEnd(c: Client, sha: Bytes -> string)
    ensures Alone(c, [], c, sha)
  {
  }

  lemma {:induction false} EmptyReplyStep(w: World, i: nat, ev: Event, sha: Bytes -> string)
    requires Inv(w, sha) && i < |w.clients| && Allowed(w.clients[i].env, ev) && EmptyReply(w.clients[i])
    ensures EmptyReply(Step(w, i, ev, sha).clients[i])
  {
    hide Stores, Observe, Flatten;
    var c, cached := w.clients[i], Lookup(w.cache, ev);
    assert ClientInv(c);
    ObserveIs(c, cached, ev);
  }
}
