/**
 * What handlers do and what the cache holds, told by the history of callbacks alone: no statement here
 * speaks of a handler's fields.
 */
module ProxyHistory {
  import opened Wrappers
  import opened Bytes
  import opened Cache
  import opened Proxy
  import opened ProxyRuns

  /** The request delivered to handler `i`. */
  function RequestOf(run: Schedule, i: nat): Option<Request> {
    if run == [] then None
    else
      var (k, ev) := run[|run| - 1];
      if k == i && ev.OnRequest? then Some(ev.req) else RequestOf(run[..|run| - 1], i)
  }

  /** The headers the origin delivered last to handler `i`. */
  function HeadersOf(run: Schedule, i: nat): Option<Headers> {
    if run == [] then None
    else
      var (k, ev) := run[|run| - 1];
      if k == i && ev.OriginOnHeaders? then Some(ev.headers) else HeadersOf(run[..|run| - 1], i)
  }

  /** Handler `i` has an origin transaction. */
  predicate Attached(run: Schedule, i: nat) {
    run != [] &&
    var (k, ev) := run[|run| - 1];
    if k == i && ev.ConnectSuccess? then true
    else if k == i && ev.OriginDetach? then false
    else Attached(run[..|run| - 1], i)
  }

  ghost predicate Ended(run: Schedule, i: nat) { Occurs(run, i, EndsClient) }

  /** An answer from the cache: the route's content under the headers it was stored with. */
  predicate CachedAnswer(r: Response, route: CachedRoute) {
    && r.status == 200 && r.body == route.content && |r.headers| == 5
    && r.headers[0].0 == "Content-Type" && r.headers[1].0 == "Cache-Control" && r.headers[2].0 == "ETag"
    && r.headers[3].0 == "Expires" && r.headers[4].0 == "Last-Modified"
    && forall k :: 0 <= k < 5 ==> FieldOf(r.headers[k], route.headers)
  }

  /** An answer with the origin's own reply. */
  predicate OriginAnswer(r: Response, headers: Headers, body: Bytes) {
    && r.status == 200 && r.body == body
    && |r.headers| == 1 && r.headers[0].0 == "Content-Type" && FieldOf(r.headers[0], headers)
  }

  /** A header field copied, empty if it was not there. */
  predicate FieldOf(field: (string, string), headers: Headers) {
    if field.0 in headers then field.1 == headers[field.0] else field.1 == ""
  }

  predicate Apology(r: Response) { r.status == 503 && r.body == [] && r.headers == [] }

  /** The request can be served from the cache. */
  predicate Hit(req: Request, cache: Routes) { req.verb == GET && req.url in cache }

  /** The reasons for each call: what has happened to handler `i` before, and what happens to it now. */
  ghost predicate Due(run: Schedule, i: nat, ev: Event, cache: Routes, call: Effect) {
    match call
    case Respond(r) =>
      || (ev.OnRequest? && Hit(ev.req, cache) && CachedAnswer(r, cache[ev.req.url]))
      || (ev.OnRequest? && !Hit(ev.req, cache) && !ev.resolves && Apology(r))
      || (ev.ConnectError? && !Ended(run, i) && Apology(r))
      || (ev.OriginOnEOM? && !Ended(run, i) && HeadersOf(run, i).Some? && ChunksOf(run, i) != []
          && OriginAnswer(r, HeadersOf(run, i).value, Flatten(ChunksOf(run, i))))
    case PauseIngress => ev.OnRequest? && !Hit(ev.req, cache) && ev.resolves
    case Connect => ev.OnRequest? && !Hit(ev.req, cache) && ev.resolves
    case ResumeIngress => ev.ConnectSuccess?
    case AbortDownstream => ev.OriginOnError? && !Ended(run, i)
    case OriginSendHeaders => ev.ConnectSuccess?
    case OriginSendBody(body) => ev == OnBody(body) && Attached(run, i)
    case OriginSendEOM => ev.OnEOM? && Attached(run, i)
    case OriginSendAbort => ev.OnError? && Attached(run, i)
    case OriginPause => ev.OriginOnEgressPaused? && !Ended(run, i)
    case OriginResume => ev.OriginOnEgressResumed? && !Ended(run, i)
    case Store(url, content, headers) =>
      && ev.RequestComplete? && RequestOf(run, i) == Some(Request(GET, url)) && ChunksOf(run, i) != []
      && content == Flatten(ChunksOf(run, i)) && HeadersOf(run, i) == Some(headers)
    case Delete => if EndsClient(ev) then !Attached(run, i) else ev.OriginDetach? && Ended(run, i)
  }

  /** A handler's fields are determined by its history. */
  ghost predicate Recorded(c: Client, run: Schedule, i: nat) {
    && c.h.request == RequestOf(run, i)
    && c.env.attached == Attached(run, i)
    && c.env.ended == Ended(run, i)
    && c.env.chunks == ChunksOf(run, i)
    && (!c.env.ended ==> c.h.contentHeaders == HeadersOf(run, i))
  }

  /** The last callback of a run. */
  lemma {:induction false} RunLast(w: World, run: Schedule, i: nat, ev: Event, sha: Bytes -> string)
    requires Possible(w, run + [(i, ev)], sha)
    ensures Possible(w, run, sha) && i < |Run(w, run, sha).clients| && Allowed(Run(w, run, sha).clients[i].env, ev)
    ensures Run(w, run + [(i, ev)], sha) == Step(Run(w, run, sha), i, ev, sha)
  {
    hide Step, Allowed;
    RunInParts(w, run, [(i, ev)], sha);
    RunFirst(Run(w, run, sha), [(i, ev)], sha);
    assert [(i, ev)][1..] == [];
  }

  lemma {:induction false} FieldsStep(c: Client, cached: Option<CachedRoute>, ev: Event)
    requires ClientInv(c) && Allowed(c.env, ev)
    ensures var (h, effects) := React(c.h, cached, ev);
      var e := Observe(c.env, ev, effects);
      && h.request == (if ev.OnRequest? then Some(ev.req) else c.h.request)
      && e.attached == (if ev.ConnectSuccess? then true else if ev.OriginDetach? then false else c.env.attached)
      && (c.env.ended ==> e.ended)
      && (!e.ended ==> h.contentHeaders == if ev.OriginOnHeaders? then Some(ev.headers) else c.h.contentHeaders)
  {
    hide Observe, Flatten;
    ObserveIs(c, cached, ev);
  }

  lemma HistoryStep(run: Schedule, k: nat, ev: Event, i: nat)
    ensures var run' := run + [(k, ev)];
      && RequestOf(run', i) == (if k == i && ev.OnRequest? then Some(ev.req) else RequestOf(run, i))
      && HeadersOf(run', i) == (if k == i && ev.OriginOnHeaders? then Some(ev.headers) else HeadersOf(run, i))
      && Attached(run', i) == (if k == i && ev.ConnectSuccess? then true else if k == i && ev.OriginDetach? then false
                               else Attached(run, i))
  {
    assert (run + [(k, ev)])[..|run|] == run;
  }

  /** From idle handlers on, fields and history agree. */
  lemma {:induction false} RecordedRun(w: World, run: Schedule, sha: Bytes -> string, i: nat)
    requires Initial(w) && Possible(w, run, sha) && i < |w.clients|
    ensures |Run(w, run, sha).clients| == |w.clients| && Recorded(Run(w, run, sha).clients[i], run, i)
    ensures Inv(Run(w, run, sha), sha) && ClientInv(Run(w, run, sha).clients[i])
    decreases |run|
  {
    hide Run, Possible, React, Observe, Stores, Allowed, Occurs, ChunksOf, ClientInv, RequestOf, HeadersOf, Attached,
      AnswerInv, RouteInv;
    InitialInv(w, sha);
    InvRun(w, run, sha);
    RunRecords(w, run, sha, i);
    assert [] + ChunksOf(run, i) == ChunksOf(run, i);
    if run == [] {
      RunNothing(w, i, sha);
    } else {
      var before := run[..|run| - 1];
      var (k, ev) := run[|run| - 1];
      assert run == before + [(k, ev)];
      RunLast(w, before, k, ev, sha);
      RecordedRun(w, before, sha, i);
      HistoryStep(before, k, ev, i);
      var now := Run(w, before, sha);
      if k == i {
        FieldsStep(now.clients[i], Lookup(now.cache, ev), ev);
      }
    }
  }

  lemma RunNothing(w: World, i: nat, sha: Bytes -> string)
    requires Initial(w) && i < |w.clients|
    ensures Possible(w, [], sha) && Run(w, [], sha) == w
    ensures Recorded(w.clients[i], [], i)
  {
  }

  /** In one callback, each call is made exactly if it is due. */
  lemma {:induction false} DueStep(c: Client, run: Schedule, i: nat, ev: Event, cache: Routes, call: Effect)
    requires ClientInv(c) && Allowed(c.env, ev) && Recorded(c, run, i)
    ensures call in React(c.h, Lookup(cache, ev), ev).1 <==> Due(run, i, ev, cache, call)
  {
    hide Flatten, Occurs, ChunksOf, RequestOf, HeadersOf, Attached, CachedAnswer, OriginAnswer, FromCache, FromOrigin;
    if call.Respond? {
      if ev.OnRequest? && ev.req.url in cache {
        CachedAnswerIs(call.response, cache[ev.req.url]);
      } else if ev.OriginOnEOM? && HeadersOf(run, i).Some? {
        OriginAnswerIs(call.response, HeadersOf(run, i).value, Flatten(ChunksOf(run, i)));
      }
    }
  }

  lemma CachedAnswerIs(r: Response, route: CachedRoute)
    ensures CachedAnswer(r, route) <==> r == FromCache(route)
  {
    if CachedAnswer(r, route) {
      assert forall k :: 0 <= k < 5 ==> r.headers[k] == FromCache(route).headers[k];
      assert r.headers == FromCache(route).headers;
    }
  }

  lemma OriginAnswerIs(r: Response, headers: Headers, body: Bytes)
    ensures OriginAnswer(r, headers, body) <==> r == FromOrigin(headers, body)
  {
    if OriginAnswer(r, headers, body) {
      assert r.headers == FromOrigin(headers, body).headers;
    }
  }

  /** The calls of one callback come in this order. */
  predicate Ordered(made: seq<Effect>) {
    || |made| <= 1
    || (|made| == 2 && ((made[0] == PauseIngress && made[1] == Connect)
                        || (made[0] == OriginSendHeaders && made[1] == ResumeIngress)
                        || (made[0] != Delete && made[1] == Delete)))
  }

  lemma {:induction false} OrderStep(h: Handler, cached: Option<CachedRoute>, ev: Event)
    ensures Ordered(React(h, cached, ev).1)
  {
  }

  /**
   * Every call has its reason. After any run, the next callback of any handler makes exactly the calls
   * that are due by the history of that handler and the cache's content.
   */
  lemma {:induction false} CallsTellHistory(w: World, run: Schedule, sha: Bytes -> string, i: nat, ev: Event)
    returns (made: seq<Effect>)
    requires Initial(w) && i < |w.clients| && Possible(w, run + [(i, ev)], sha)
    ensures Possible(w, run, sha)
    ensures |Run(w, run, sha).clients| == |Run(w, run + [(i, ev)], sha).clients| == |w.clients|
    ensures Run(w, run + [(i, ev)], sha).clients[i].env.calls == Run(w, run, sha).clients[i].env.calls + made
    ensures forall call :: call in made <==> Due(run, i, ev, Run(w, run, sha).cache, call)
    ensures Ordered(made)
  {
    hide Run, Possible, React, Stores, Allowed, Due, Recorded, ClientInv, Ordered;
    RunLast(w, run, i, ev, sha);
    RecordedRun(w, run, sha, i);
    var now := Run(w, run, sha);
    var c := now.clients[i];
    made := React(c.h, Lookup(now.cache, ev), ev).1;
    OrderStep(c.h, Lookup(now.cache, ev), ev);
    forall call ensures call in made <==> Due(run, i, ev, now.cache, call) {
      DueStep(c, run, i, ev, now.cache, call);
    }
  }

  /**
   * Serving a request. A GET for a cached address is answered at once, from the cache; any other request
   * goes to the origin, whatever its address, unless the origin's own address is unusable.
   */
  lemma {:induction false} RequestIsServed(w: World, run: Schedule, sha: Bytes -> string, i: nat, req: Request,
        resolves: bool)
    returns (made: seq<Effect>)
    requires Initial(w) && i < |w.clients| && Possible(w, run + [(i, OnRequest(req, resolves))], sha)
    ensures Possible(w, run, sha)
    ensures |Run(w, run, sha).clients| == |Run(w, run + [(i, OnRequest(req, resolves))], sha).clients| == |w.clients|
    ensures Run(w, run + [(i, OnRequest(req, resolves))], sha).clients[i].env.calls ==
            Run(w, run, sha).clients[i].env.calls + made
    ensures made == [PauseIngress, Connect] <==> (req.verb != GET || req.url !in Run(w, run, sha).cache) && resolves
    ensures req.verb == GET && req.url in Run(w, run, sha).cache ==>
      |made| == 1 && made[0].Respond? && CachedAnswer(made[0].response, Run(w, run, sha).cache[req.url])
    ensures (req.verb != GET || req.url !in Run(w, run, sha).cache) && !resolves ==>
      |made| == 1 && made[0].Respond? && Apology(made[0].response)
  {
    hide Run, Possible, CachedAnswer, FromCache;
    made := CallsTellHistory(w, run, sha, i, OnRequest(req, resolves));
    var cache := Run(w, run, sha).cache;
    forall k | 0 <= k < |made| ensures Due(run, i, OnRequest(req, resolves), cache, made[k]) {
      assert made[k] in made;
    }
    if Hit(req, cache) {
      CachedAnswerIs(FromCache(cache[req.url]), cache[req.url]);
      assert Due(run, i, OnRequest(req, resolves), cache, Respond(FromCache(cache[req.url])));
      OnlyOne(made);
    } else if resolves {
      assert Due(run, i, OnRequest(req, resolves), cache, Connect);
      assert Due(run, i, OnRequest(req, resolves), cache, PauseIngress);
    } else {
      assert Due(run, i, OnRequest(req, resolves), cache, Respond(BAD_GATEWAY));
      OnlyOne(made);
    }
  }

  lemma OnlyOne(made: seq<Effect>)
    requires Ordered(made) && made != [] && forall k :: 0 <= k < |made| ==> made[k].Respond?
    ensures |made| == 1
  {
  }

  /** Step `m` of a run completes a GET of `u` for which the origin has delivered some content. */
  ghost predicate Fills(run: Schedule, m: nat, u: string) {
    && m < |run| && run[m].1.RequestComplete?
    && RequestOf(run[..m], run[m].0) == Some(Request(GET, u)) && ChunksOf(run[..m], run[m].0) != []
  }

  /** The route holds what had been delivered by step `m`. */
  ghost predicate FilledBy(route: CachedRoute, run: Schedule, m: nat, u: string, sha: Bytes -> string) {
    && Fills(run, m, u)
    && route.url == u && route.sha256 == sha(route.content)
    && route.content == Flatten(ChunksOf(run[..m], run[m].0))
    && HeadersOf(run[..m], run[m].0) == Some(route.headers)
  }

  /** The cache operation among a callback's calls, spelled out. */
  lemma {:induction false} CacheStep(c: Client, run: Schedule, i: nat, ev: Event, cache: Routes, sha: Bytes -> string)
    requires ClientInv(c) && Allowed(c.env, ev) && Recorded(c, run, i)
    ensures var cache' := Stores(cache, React(c.h, Lookup(cache, ev), ev).1, sha);
      if ev.RequestComplete? && RequestOf(run, i).Some? && RequestOf(run, i).value.verb == GET && ChunksOf(run, i) != []
      then
        var u := RequestOf(run, i).value.url;
        HeadersOf(run, i).Some? && u in cache' && cache'.Keys == cache.Keys + {u}
        && (forall v :: v in cache ==> cache'[v] == cache[v])
        && (u !in cache ==>
              var content := Flatten(ChunksOf(run, i));
              cache'[u] == CachedRoute(u, content, HeadersOf(run, i).value, sha(content)))
      else cache' == cache
  {
    hide Flatten, ChunksOf, RequestOf, HeadersOf, Attached, Occurs, Stores;
    if ev.RequestComplete? {
      StoresOne(cache, c.h, sha);
    } else {
      NoStores(cache, React(c.h, Lookup(cache, ev), ev).1, sha);
    }
  }

  lemma FillsLast(run: Schedule, x: (nat, Event), u: string)
    ensures Fills(run + [x], |run|, u) <==>
            x.1.RequestComplete? && RequestOf(run, x.0) == Some(Request(GET, u)) && ChunksOf(run, x.0) != []
    ensures forall m :: 0 <= m < |run| ==> (Fills(run + [x], m, u) <==> Fills(run, m, u))
    ensures (run + [x])[..|run|] == run
  {
    assert (run + [x])[..|run|] == run;
    forall m | 0 <= m < |run| ensures Fills(run + [x], m, u) <==> Fills(run, m, u) {
      assert (run + [x])[..m] == run[..m];
    }
  }

  /**
   * The cache tells the history. After any run, an address is cached exactly if some GET for it has
   * completed for which the origin had delivered content; and then it holds what the first such GET was
   * given. So it is cached from the first such completion on, and for ever.
   */
  lemma {:induction false} CacheTellsHistory(w: World, run: Schedule, sha: Bytes -> string, u: string)
    requires Initial(w) && Possible(w, run, sha)
    ensures var cache := Run(w, run, sha).cache;
      && (u in cache <==> exists m :: 0 <= m < |run| && Fills(run, m, u))
      && (u in cache ==> exists m :: 0 <= m < |run| && FilledBy(cache[u], run, m, u, sha)
                                     && forall k :: 0 <= k < m ==> !Fills(run, k, u))
    decreases |run|
  {
    hide Run, Possible, React, Stores, Allowed, Recorded, ClientInv, RequestOf, HeadersOf, ChunksOf, Flatten, Fills,
      Observe;
    if run == [] {
      CacheNothing(w, sha);
    } else {
      var before := run[..|run| - 1];
      var (i, ev) := run[|run| - 1];
      assert run == before + [(i, ev)];
      RunLast(w, before, i, ev, sha);
      CacheTellsHistory(w, before, sha, u);
      SameClients(w, before, sha);
      RecordedRun(w, before, sha, i);
      var now := Run(w, before, sha);
      CacheStep(now.clients[i], before, i, ev, now.cache, sha);
      FillsLast(before, (i, ev), u);
      if u in now.cache {
        var m :| 0 <= m < |before| && FilledBy(now.cache[u], before, m, u, sha)
                 && forall k :: 0 <= k < m ==> !Fills(before, k, u);
        assert run[..m] == before[..m];
        assert FilledBy(Run(w, run, sha).cache[u], run, m, u, sha);
      } else if u in Run(w, run, sha).cache {
        assert FilledBy(Run(w, run, sha).cache[u], run, |before|, u, sha);
      }
    }
  }

  lemma CacheNothing(w: World, sha: Bytes -> string)
    requires Initial(w)
    ensures Possible(w, [], sha) && Run(w, [], sha).cache == map[]
  {
  }

  lemma SameClients(w: World, run: Schedule, sha: Bytes -> string)
    requires Initial(w) && Possible(w, run, sha)
    ensures |Run(w, run, sha).clients| == |w.clients|
  {
    InitialInv(w, sha);
    InvRun(w, run, sha);
  }

  predicate IsRelay(call: Effect) { call.OriginSendHeaders? || call.OriginSendBody? || call.OriginSendEOM? }

  /** What a handler has sent to the origin of its client's request. */
  function Relays(calls: seq<Effect>): seq<Effect> {
    if calls == [] then []
    else
      var last := calls[|calls| - 1];
      Relays(calls[..|calls| - 1]) + if IsRelay(last) then [last] else []
  }

  /** What the client of handler `i` has given it while it was connected to the origin. */
  function Given(run: Schedule, i: nat): seq<Effect> {
    if run == [] then []
    else
      var before := run[..|run| - 1];
      var (k, ev) := run[|run| - 1];
      Given(before, i) +
      if k != i then []
      else if ev.ConnectSuccess? then [OriginSendHeaders]
      else if ev.OnBody? && Attached(before, i) then [OriginSendBody(ev.body)]
      else if ev.OnEOM? && Attached(before, i) then [OriginSendEOM]
      else []
  }

  lemma {:induction false} RelaysAppend(a: seq<Effect>, b: seq<Effect>)
    requires |b| <= 2
    ensures Relays(a + b) == Relays(a) + Relays(b)
  {
    assert Relays([]) == [];
    if |b| == 0 {
      assert a + b == a;
    } else {
      var b' := b[..|b| - 1];
      RelaysAppend(a, b');
      assert (a + b)[..|a + b| - 1] == a + b';
    }
  }

  lemma {:induction false} RelayStep(c: Client, run: Schedule, i: nat, cached: Option<CachedRoute>, ev: Event)
    requires ClientInv(c) && Recorded(c, run, i)
    ensures |React(c.h, cached, ev).1| <= 2
    ensures Relays(React(c.h, cached, ev).1) ==
      if ev.ConnectSuccess? then [OriginSendHeaders]
      else if ev.OnBody? && Attached(run, i) then [OriginSendBody(ev.body)]
      else if ev.OnEOM? && Attached(run, i) then [OriginSendEOM]
      else []
  {
    hide Flatten, ChunksOf, RequestOf, HeadersOf, Attached, Occurs, Relays;
    ReactShape(c.h, cached, ev);
    FewRelays(React(c.h, cached, ev).1);
  }

  lemma {:induction false} FewRelays(made: seq<Effect>)
    requires |made| <= 2
    ensures Relays(made) == (if |made| > 0 && IsRelay(made[0]) then [made[0]] else [])
                          + (if |made| > 1 && IsRelay(made[1]) then [made[1]] else [])
  {
    assert Relays([]) == [];
    if |made| > 0 {
      var first := [made[0]];
      assert first[..0] == [];
      assert Relays(first) == if IsRelay(made[0]) then [made[0]] else [];
      if |made| == 1 { assert made == first; } else { assert made[..1] == first; }
    }
  }

  /**
   * The request reaches the origin. After any run, what a handler has sent to the origin is the request's
   * headers and then, in order, every piece of its body and its end that came while the origin was there.
   */
  lemma {:induction false} RequestIsRelayed(w: World, run: Schedule, sha: Bytes -> string, i: nat)
    requires Initial(w) && Possible(w, run, sha) && i < |w.clients|
    ensures |Run(w, run, sha).clients| == |w.clients|
    ensures Relays(Run(w, run, sha).clients[i].env.calls) == Given(run, i)
    decreases |run|
  {
    hide Run, Possible, React, Stores, Allowed, Recorded, ClientInv, Relays, Attached;
    SameClients(w, run, sha);
    if run == [] {
      RunNothing(w, i, sha);
      RelaysAppend([], []);
      NoRelays();
    } else {
      var before := run[..|run| - 1];
      var (k, ev) := run[|run| - 1];
      assert run == before + [(k, ev)];
      RunLast(w, before, k, ev, sha);
      RequestIsRelayed(w, before, sha, i);
      RecordedRun(w, before, sha, i);
      var now := Run(w, before, sha);
      if k == i {
        RelayStep(now.clients[i], before, i, Lookup(now.cache, ev), ev);
        RelaysAppend(now.clients[i].env.calls, React(now.clients[i].h, Lookup(now.cache, ev), ev).1);
      }
    }
  }

  lemma NoRelays()
    ensures Relays([]) == []
  {
  }
}
