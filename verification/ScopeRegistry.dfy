/**
 The cache of tenant-scope handlers of the MCP gateway: the two critical sections of handlerFor
 and the sweep of idle scopes, as functions on the two maps and as methods that update them.

 A handler is foreign code; here it is an identity and the tenant list it was built for.
*/
module ScopeRegistry {
  import opened TenantScope

  datatype Handler = Handler(id: nat, tenants: seq<string>)

  /** The two maps under the registry's mutex. */
  datatype Table = Table(handlers: map<string, Handler>, lastAccess: map<string, real>)

  /** How long a scope may stay unused, and how many may be cached. */
  datatype Limits = Limits(ttl: real, max: nat)

  /** What the first critical section leads to. */
  datatype Reservation = Hit(handler: Handler) | NoRoom | MustBuild

  /** What a request ends with. */
  datatype Outcome = Served(handler: Handler) | TooManyScopes | LoadFailed

  // ---- Idle sweep ----

  ghost predicate IsStale(lastAccess: map<string, real>, key: string, now: real, ttl: real) {
    key in lastAccess && now - lastAccess[key] > ttl
  }

  function Stale(lastAccess: map<string, real>, now: real, ttl: real): (keys: set<string>)
    ensures forall key :: key in keys <==> IsStale(lastAccess, key, now, ttl)
  {
    set key | key in lastAccess && now - lastAccess[key] > ttl
  }

  function Sweep(t: Table, now: real, ttl: real): Table {
    if ttl <= 0.0 then t
    else
      var stale := Stale(t.lastAccess, now, ttl);
      Table(t.handlers - stale, t.lastAccess - stale)
  }

  /** What evictIdleScopes reports: some entry was older than the TTL. */
  predicate SweepReports(t: Table, now: real, ttl: real) {
    ttl > 0.0 && Stale(t.lastAccess, now, ttl) != {}
  }

  // ---- The two critical sections of handlerFor ----

  function Reserve(t: Table, key: string, limits: Limits, sweepAt: real, stampAt: real): (Table, Reservation) {
    if key in t.handlers then
      (t.(lastAccess := t.lastAccess[key := stampAt]), Hit(t.handlers[key]))
    else if |t.handlers| >= limits.max && !SweepReports(t, sweepAt, limits.ttl) then
      (t, NoRoom)
    else
      var swept := if |t.handlers| >= limits.max then Sweep(t, sweepAt, limits.ttl) else t;
      (swept.(lastAccess := swept.lastAccess[key := stampAt]), MustBuild)
  }

  function Publish(t: Table, key: string, limits: Limits, candidate: Handler): (Table, Outcome) {
    if key in t.handlers then (t, Served(t.handlers[key]))
    else if |t.handlers| >= limits.max then (t, TooManyScopes)
    else (t.(handlers := t.handlers[key := candidate]), Served(candidate))
  }

  class StreamableTenantRegistry {
    const limits: Limits
    var handlers: map<string, Handler>
    var lastAccess: map<string, real>

    function Contents(): Table
      reads this
    {
      Table(handlers, lastAccess)
    }

    constructor (limits: Limits)
      ensures this.limits == limits && Contents() == Table(map[], map[])
    {
      this.limits := limits;
      handlers := map[];
      lastAccess := map[];
    }

    /** The range loop over lastAccess, in any order, deleting as it goes. */
    method EvictIdleScopes(now: real) returns (evicted: bool)
      modifies this
      ensures Contents() == Sweep(old(Contents()), now, limits.ttl)
      ensures evicted <==> SweepReports(old(Contents()), now, limits.ttl)
    {
      if limits.ttl <= 0.0 {
        return false;
      }
      evicted := false;
      var todo := lastAccess.Keys;
      ghost var done: set<string> := {};
      while todo != {}
        invariant todo !! done && todo + done == old(lastAccess).Keys
        invariant lastAccess == old(lastAccess) - (done * Stale(old(lastAccess), now, limits.ttl))
        invariant handlers == old(handlers) - (done * Stale(old(lastAccess), now, limits.ttl))
        invariant evicted <==> done * Stale(old(lastAccess), now, limits.ttl) != {}
        decreases todo
      {
        var key :| key in todo;
        todo := todo - {key};
        done := done + {key};
        if now - lastAccess[key] > limits.ttl {
          handlers := handlers - {key};
          lastAccess := lastAccess - {key};
          evicted := true;
        }
      }
      assert done * Stale(old(lastAccess), now, limits.ttl) == Stale(old(lastAccess), now, limits.ttl);
    }

    /** From taking the mutex to releasing it before the manifests are loaded. */
    method ReserveScope(tenants: seq<string>, sweepAt: real, stampAt: real) returns (r: Reservation)
      modifies this
      ensures (Contents(), r) == Reserve(old(Contents()), Join(tenants), limits, sweepAt, stampAt)
    {
      var key := Join(tenants);
      if key in handlers {
        lastAccess := lastAccess[key := stampAt];
        return Hit(handlers[key]);
      }
      if |handlers| >= limits.max {
        var freed := EvictIdleScopes(sweepAt);
        if !freed {
          assert Stale(lastAccess, sweepAt, limits.ttl) == {} || limits.ttl <= 0.0;
          assert Contents() == old(Contents());
          return NoRoom;
        }
      }
      lastAccess := lastAccess[key := stampAt];
      return MustBuild;
    }

    /** From taking the mutex again, with a freshly built handler, to the end. */
    method PublishScope(candidate: Handler) returns (o: Outcome)
      modifies this`handlers
      ensures (Contents(), o) == Publish(old(Contents()), Join(candidate.tenants), limits, candidate)
    {
      var key := Join(candidate.tenants);
      if key in handlers {
        return Served(handlers[key]);
      }
      if |handlers| >= limits.max {
        return TooManyScopes;
      }
      handlers := handlers[key := candidate];
      return Served(candidate);
    }
  }

  // ---- What the sweep does and does not do ----

  /** The sweep removes exactly the entries older than the TTL, from both maps. */
  lemma SweepRemovesExactlyTheStale(t: Table, now: real, ttl: real)
    requires ttl > 0.0
    ensures var t' := Sweep(t, now, ttl);
            && (forall key :: key in t'.handlers <==> key in t.handlers && !IsStale(t.lastAccess, key, now, ttl))
            && (forall key :: key in t'.lastAccess <==> key in t.lastAccess && !IsStale(t.lastAccess, key, now, ttl))
            && (forall key | key in t'.handlers :: t'.handlers[key] == t.handlers[key])
  {
  }

  /**
   The documented result of the sweep is that at least one slot was freed. The exact condition for
   that is that some stale entry belongs to a cached handler; entries left by failed loads do not.
  */
  lemma SweepFreesSlotIff(t: Table, now: real, ttl: real)
    ensures |Sweep(t, now, ttl).handlers| < |t.handlers|
            <==> ttl > 0.0 && exists key | key in t.handlers :: IsStale(t.lastAccess, key, now, ttl)
  {
    if ttl > 0.0 {
      if key :| key in t.handlers && IsStale(t.lastAccess, key, now, ttl) {
        StaleHandlerFreed(t, now, ttl, key);
      } else {
        NothingFreed(t, now, ttl);
      }
    }
  }

  lemma StaleHandlerFreed(t: Table, now: real, ttl: real, key: string)
    requires ttl > 0.0 && key in t.handlers && IsStale(t.lastAccess, key, now, ttl)
    ensures |Sweep(t, now, ttl).handlers| < |t.handlers|
  {
    SweepRemovesExactlyTheStale(t, now, ttl);
    FewerHandlers(Sweep(t, now, ttl).handlers, t.handlers, key);
  }

  lemma NothingFreed(t: Table, now: real, ttl: real)
    requires ttl > 0.0 && forall key | key in t.handlers :: !IsStale(t.lastAccess, key, now, ttl)
    ensures Sweep(t, now, ttl).handlers == t.handlers
  {
    SweepRemovesExactlyTheStale(t, now, ttl);
  }

  lemma FewerHandlers(some: map<string, Handler>, all: map<string, Handler>, missing: string)
    requires some.Keys <= all.Keys && missing in all && missing !in some
    ensures |some| < |all|
  {
    SubsetCount(some.Keys, all.Keys - {missing});
    assert |some| == |some.Keys| && |all| == |all.Keys|;
  }

  lemma {:induction false} SubsetCount<T>(a: set<T>, b: set<T>)
    requires a <= b
    ensures |a| <= |b|
  {
    if a != {} {
      var x :| x in a;
      SubsetCount(a - {x}, b - {x});
    }
  }

  /** A sweep that reports success and frees no handler slot: the stale entry was left by a failed load. */
  lemma SweepReportsWithoutFreeing()
    ensures var t := Table(map["b" := Handler(0, ["b"])], map["a" := 0.0, "b" := 10.0]);
            SweepReports(t, 10.0, 5.0) && |Sweep(t, 10.0, 5.0).handlers| == |t.handlers| == 1
  {
    var t := Table(map["b" := Handler(0, ["b"])], map["a" := 0.0, "b" := 10.0]);
    assert IsStale(t.lastAccess, "a", 10.0, 5.0);
    assert "a" in Stale(t.lastAccess, 10.0, 5.0);
    assert !IsStale(t.lastAccess, "b", 10.0, 5.0);
    assert Sweep(t, 10.0, 5.0).handlers == t.handlers;
  }
}
