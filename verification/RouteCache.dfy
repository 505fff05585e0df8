/** Calculated routes, filed under a string key and served until they expire. */
module RouteCaching {
  import opened GoTypes
  import opened Keys
  import opened Graphs

  datatype Route = Route(from: Int32, to: Int32, path: seq<Int32>, latency: Int64, hops: Int32, createdAt: int)

  datatype CachedRoute = CachedRoute(route: Route, expiresAt: int)

  type Cache = map<Bytes, CachedRoute>

  /** Every route is filed under the key of its own ends. */
  ghost predicate Filed(c: Cache) {
    forall k :: k in c ==> k == CacheKey(c[k].route.from, c[k].route.to)
  }

  function CacheSet(c: Cache, ttl: nat, r: Route, now: int): Cache {
    c[CacheKey(r.from, r.to) := CachedRoute(r, now + ttl)]
  }

  /** Served up to and including the moment of expiry. */
  function CacheGet(c: Cache, from: Int32, to: Int32, now: int): Option<Route> {
    var key := CacheKey(from, to);
    if key !in c || now > c[key].expiresAt then None else Some(c[key].route)
  }

  function DropPeer(c: Cache, peer: Int32): Cache {
    map k | k in c && peer !in c[k].route.path :: c[k]
  }

  /** The string-keyed cache is a cache on pairs: a new route is served for its pair and no other. */
  lemma CacheByPair(c: Cache, ttl: nat, r: Route, setAt: int, from: Int32, to: Int32, now: int)
    requires Filed(c)
    ensures Filed(CacheSet(c, ttl, r, setAt))
    ensures CacheGet(CacheSet(c, ttl, r, setAt), from, to, now) ==
      if from != r.from || to != r.to then CacheGet(c, from, to, now)
      else if now <= setAt + ttl then Some(r) else None
  {
    CacheKeyInjective(from, to, r.from, r.to);
  }

  /** What the cache serves for a pair is a route between that pair. */
  lemma ServedForPair(c: Cache, from: Int32, to: Int32, now: int)
    requires Filed(c) && CacheGet(c, from, to, now).Some?
    ensures CacheGet(c, from, to, now).value.from == from && CacheGet(c, from, to, now).value.to == to
  {
    var r := CacheGet(c, from, to, now).value;
    CacheKeyInjective(from, to, r.from, r.to);
  }

  /** The listing leaves a route out one tick before lookups stop serving it. */
  lemma ListedOneTickLess(c: Cache, r: Route, now: int)
    requires Filed(c)
    ensures (exists k :: k in c && c[k].route == r && now < c[k].expiresAt) <==>
      CacheGet(c, r.from, r.to, now + 1) == Some(r)
  {
    if CacheGet(c, r.from, r.to, now + 1) == Some(r) {
      assert CacheKey(r.from, r.to) in c;
    }
  }

  /** `c` is what deleting the first `i` of `keys` leaves of `was`. */
  ghost predicate DeletedSoFar(was: Cache, c: Cache, keys: seq<Bytes>, i: nat)
    requires i <= |keys|
  {
    c == was - Firsts(keys, i) && |c| + i == |was|
  }

  ghost function Firsts(keys: seq<Bytes>, i: nat): set<Bytes>
    requires i <= |keys|
  {
    set j | 0 <= j < i :: keys[j]
  }

  lemma DeleteOne(was: Cache, c: Cache, keys: seq<Bytes>, i: nat)
    requires i < |keys| && NoRepeats(keys) && DeletedSoFar(was, c, keys, i) && keys[i] in was
    ensures DeletedSoFar(was, c - {keys[i]}, keys, i + 1)
  {
    assert Firsts(keys, i + 1) == Firsts(keys, i) + {keys[i]};
    assert keys[i] !in Firsts(keys, i);
    assert keys[i] in c;
    OneFewer(c, keys[i]);
    assert was - (Firsts(keys, i) + {keys[i]}) == c - {keys[i]};
  }

  lemma OneFewer(c: Cache, key: Bytes)
    requires key in c
    ensures |c - {key}| + 1 == |c|
  {
    assert (c - {key}).Keys == c.Keys - {key};
  }

  lemma AllDeleted(was: Cache, c: Cache, keys: seq<Bytes>, peer: Int32)
    requires DeletedSoFar(was, c, keys, |keys|)
    requires forall k :: k in keys <==> k in was && peer in was[k].route.path
    ensures c == DropPeer(was, peer)
  {
    assert forall k :: k in keys <==> k in Firsts(keys, |keys|);
  }

  class RouteCache {
    var routes: Cache
    const ttl: nat

    constructor (ttl: nat)
      ensures routes == map[] && this.ttl == ttl && Filed(routes)
    {
      routes := map[];
      this.ttl := ttl;
    }

    method Set(route: Route, now: int)
      requires Filed(routes)
      modifies this
      ensures routes == CacheSet(old(routes), ttl, route, now) && Filed(routes)
    {
      var key := CacheKey(route.from, route.to);
      routes := routes[key := CachedRoute(route, now + ttl)];
    }

    method Get(from: Int32, to: Int32, now: int) returns (r: Option<Route>)
      ensures r == CacheGet(routes, from, to, now)
    {
      var key := CacheKey(from, to);
      if key !in routes {
        return None;
      }
      var cached := routes[key];
      if now > cached.expiresAt {
        return None;
      }
      return Some(cached.route);
    }

    method Invalidate() returns (count: nat)
      modifies this
      ensures routes == map[] && count == |old(routes)|
    {
      count := |routes|;
      routes := map[];
    }

    /** Exactly the routes through the peer go, and the count is how many went. */
    method InvalidatePeer(peer: Int32) returns (count: nat)
      modifies this
      ensures routes == DropPeer(old(routes), peer)
      ensures |routes| + count == |old(routes)|
    {
      var keysToDelete := KeysThrough(peer);
      ghost var was := routes;
      for i := 0 to |keysToDelete|
        invariant DeletedSoFar(was, routes, keysToDelete, i)
      {
        DeleteOne(was, routes, keysToDelete, i);
        routes := routes - {keysToDelete[i]};
      }
      AllDeleted(was, routes, keysToDelete, peer);
      count := |keysToDelete|;
    }

    /** The keys of the routes whose path holds the peer, each once. */
    method KeysThrough(peer: Int32) returns (keys: seq<Bytes>)
      ensures NoRepeats(keys)
      ensures forall k :: k in keys <==> k in routes && peer in routes[k].route.path
    {
      keys := [];
      var rest := routes.Keys;
      while rest != {}
        invariant rest <= routes.Keys && NoRepeats(keys)
        invariant forall k :: k in keys <==> k in routes && k !in rest && peer in routes[k].route.path
      {
        var key :| key in rest;
        rest := rest - {key};
        var through := Holds(routes[key].route.path, peer);
        if through {
          keys := keys + [key];
        }
      }
    }

    static method Holds(path: seq<Int32>, peer: Int32) returns (found: bool)
      ensures found <==> peer in path
    {
      for i := 0 to |path|
        invariant peer !in path[..i]
      {
        if path[i] == peer {
          return true;
        }
      }
      return false;
    }

    method Size() returns (n: nat)
      ensures n == |routes|
    {
      n := |routes|;
    }

    /** The routes still before their expiry, in arbitrary order, one for each such entry. */
    method Entries(now: int) returns (listed: seq<Route>)
      requires Filed(routes)
      ensures NoRepeats(listed)
      ensures forall r: Route :: r in listed <==> CacheGet(routes, r.from, r.to, now + 1) == Some(r)
    {
      listed := [];
      var rest := routes.Keys;
      while rest != {}
        invariant rest <= routes.Keys && NoRepeats(listed)
        invariant forall r: Route :: r in listed ==> CacheKey(r.from, r.to) !in rest
        invariant forall r: Route :: r in listed ==> CacheGet(routes, r.from, r.to, now + 1) == Some(r)
        invariant forall k :: k in routes && k !in rest && now < routes[k].expiresAt ==> routes[k].route in listed
      {
        var key :| key in rest;
        rest := rest - {key};
        if now < routes[key].expiresAt {
          listed := listed + [routes[key].route];
        }
      }
      forall r: Route | CacheGet(routes, r.from, r.to, now + 1) == Some(r)
        ensures r in listed
      {
        assert CacheKey(r.from, r.to) in routes;
      }
    }
  }
}
