/** The shared content cache: routes are added once and never replaced. */
module Cache {
  import opened Wrappers
  import opened Bytes

  type Headers = map<string, string>

  function Header(h: Headers, name: string): string { if name in h then h[name] else "" }

  /** A cached reply; the hash is computed when the route is made. */
  datatype CachedRoute = CachedRoute(url: string, content: Bytes, headers: Headers, sha256: string)

  type Routes = map<string, CachedRoute>

  function MakeRoute(url: string, content: Bytes, headers: Headers, sha: Bytes -> string): CachedRoute {
    CachedRoute(url, content, headers, sha(content))
  }

  /** Insertion leaves an existing route alone. */
  function Insert(routes: Routes, url: string, content: Bytes, headers: Headers, sha: Bytes -> string): Routes {
    if url in routes then routes else routes[url := MakeRoute(url, content, headers, sha)]
  }

  class ContentCache {
    var routes: Routes
    const sha: Bytes -> string

    /** Every route is filed under its own address with the hash of its own content. */
    ghost predicate Valid()
      reads this
    {
      forall u :: u in routes ==> routes[u].url == u && routes[u].sha256 == sha(routes[u].content)
    }

    constructor (sha: Bytes -> string)
      ensures Valid() && routes == map[] && this.sha == sha
    {
      routes := map[];
      this.sha := sha;
    }

    method GetCachedRoute(url: string) returns (r: Option<CachedRoute>)
      ensures r == if url in routes then Some(routes[url]) else None
    {
      r := if url in routes then Some(routes[url]) else None;
    }

    method AddCachedRoute(url: string, chain: Bytes, headers: Headers) returns (added: bool)
      requires Valid()
      modifies this
      ensures Valid() && added == (url !in old(routes))
      ensures routes.Keys == old(routes).Keys + {url}
      ensures added ==> routes[url] == CachedRoute(url, chain, headers, sha(chain))
      ensures forall u :: u in old(routes) ==> routes[u] == old(routes)[u]
      ensures routes == Insert(old(routes), url, chain, headers, sha)
    {
      var newEntry := MakeRoute(url, chain, headers, sha);
      if url in routes {
        return false;
      }
      routes := routes[url := newEntry];
      added := true;
    }

    /** Visits the routes in any order and pairs each address with its hash. */
    method GetAssetHashMap() returns (hashes: map<string, string>)
      requires Valid()
      ensures hashes.Keys == routes.Keys
      ensures forall u :: u in routes ==> hashes[u] == sha(routes[u].content)
    {
      hashes := map[];
      var left := routes.Keys;
      while left != {}
        invariant left <= routes.Keys && hashes.Keys == routes.Keys - left
        invariant forall u :: u in hashes ==> hashes[u] == sha(routes[u].content)
        decreases left
      {
        var u :| u in left;
        hashes := hashes[u := routes[u].sha256];
        left := left - {u};
      }
    }
  }
}
