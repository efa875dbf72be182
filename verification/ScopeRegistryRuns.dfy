/**
 Concurrent requests to the scope registry. Each request is a small program counter: it has yet to
 arrive, it is loading manifests without the mutex, or it is finished. A run interleaves the
 critical sections of any number of requests in any order, on a clock that does not go back.
*/
module ScopeRegistryRuns {
  import opened TenantScope
  import opened ScopeRegistry

  datatype Request = Loading(tenants: seq<string>, since: real) | Finished(tenants: seq<string>, outcome: Outcome)

  datatype System = System(table: Table, now: real, nextId: nat, requests: map<nat, Request>)

  /** One atomic step: the first critical section, a failed load, or a finished load and the second critical section. */
  datatype Step =
    | Arrive(request: nat, tenants: seq<string>, sweepAt: real, stampAt: real)
    | Fail(request: nat, at: real)
    | Complete(request: nat, at: real)

  ghost predicate IsLoading(s: System, request: nat) {
    request in s.requests && s.requests[request].Loading?
  }

  ghost predicate Enabled(s: System, step: Step) {
    match step
    case Arrive(request, tenants, sweepAt, stampAt) =>
      request !in s.requests && tenants != [] && AllValid(tenants) && s.now <= sweepAt <= stampAt
    case Fail(request, at) => IsLoading(s, request) && s.now <= at
    case Complete(request, at) => IsLoading(s, request) && s.now <= at
  }

  function Arrived(tenants: seq<string>, since: real, r: Reservation): Request {
    match r
    case Hit(handler) => Finished(tenants, Served(handler))
    case NoRoom => Finished(tenants, TooManyScopes)
    case MustBuild => Loading(tenants, since)
  }

  /** The handler a finished load proposes: new, and built for the request's own tenants. */
  function Candidate(s: System, request: nat): Handler
    requires IsLoading(s, request)
  {
    Handler(s.nextId, s.requests[request].tenants)
  }

  function After(limits: Limits, s: System, step: Step): System
    requires Enabled(s, step)
  {
    match step
    case Arrive(request, tenants, sweepAt, stampAt) =>
      var (table, r) := Reserve(s.table, Join(tenants), limits, sweepAt, stampAt);
      System(table, stampAt, s.nextId, s.requests[request := Arrived(tenants, stampAt, r)])
    case Fail(request, at) =>
      System(s.table, at, s.nextId, s.requests[request := Finished(s.requests[request].tenants, LoadFailed)])
    case Complete(request, at) =>
      var tenants := s.requests[request].tenants;
      var (table, outcome) := Publish(s.table, Join(tenants), limits, Candidate(s, request));
      System(table, at, s.nextId + 1, s.requests[request := Finished(tenants, outcome)])
  }

  ghost predicate Initial(s: System) {
    s.table == Table(map[], map[]) && s.requests == map[]
  }

  ghost predicate StepAt(limits: Limits, states: seq<System>, steps: seq<Step>, i: nat) {
    && i < |steps| && i + 1 < |states|
    && Enabled(states[i], steps[i]) && states[i + 1] == After(limits, states[i], steps[i])
  }

  ghost predicate IsRun(limits: Limits, states: seq<System>, steps: seq<Step>) {
    && |states| == |steps| + 1 && Initial(states[0]) && limits.max >= 1
    && forall i | 0 <= i < |steps| :: StepAt(limits, states, steps, i)
  }

  // ---- Capacity, and the right handler for every request ----

  /** Every cached handler was built for the tenants its key spells out. */
  ghost predicate KeysSpellTenants(t: Table) {
    forall key | key in t.handlers :: AllValid(t.handlers[key].tenants) && Join(t.handlers[key].tenants) == key
  }

  /** Whoever was served was served by a handler built for exactly its own tenant list. */
  ghost predicate OwnHandler(r: Request) {
    && AllValid(r.tenants)
    && (r.Finished? && r.outcome.Served? ==> r.outcome.handler.tenants == r.tenants)
  }

  ghost predicate Safe(limits: Limits, s: System) {
    && |s.table.handlers| <= limits.max
    && KeysSpellTenants(s.table)
    && forall request | request in s.requests :: OwnHandler(s.requests[request])
  }

  /** The handler found under the key of a tenant list was built for that list. */
  lemma FoundIsOwn(t: Table, tenants: seq<string>)
    requires KeysSpellTenants(t) && AllValid(tenants) && Join(tenants) in t.handlers
    ensures t.handlers[Join(tenants)].tenants == tenants
  {
    JoinInjective(t.handlers[Join(tenants)].tenants, tenants);
  }

  lemma SweepTakesAway(t: Table, now: real, ttl: real)
    ensures |Sweep(t, now, ttl).handlers| <= |t.handlers| && SomeOf(Sweep(t, now, ttl), t)
  {
    var swept := Sweep(t, now, ttl);
    SubsetCount(swept.handlers.Keys, t.handlers.Keys);
    assert |swept.handlers| == |swept.handlers.Keys|;
  }

  lemma ReserveHandlers(t: Table, key: string, limits: Limits, sweepAt: real, stampAt: real)
    ensures var (t', r) := Reserve(t, key, limits, sweepAt, stampAt);
            && (t'.handlers == t.handlers || t'.handlers == Sweep(t, sweepAt, limits.ttl).handlers)
            && (r.Hit? ==> key in t.handlers && r.handler == t.handlers[key])
  {
  }

  /** The first critical section publishes nothing; a hit gives what is in the map. */
  lemma ReserveTakesAway(t: Table, key: string, limits: Limits, sweepAt: real, stampAt: real)
    ensures var (t', r) := Reserve(t, key, limits, sweepAt, stampAt);
            && |t'.handlers| <= |t.handlers| && SomeOf(t', t)
            && (r.Hit? ==> key in t.handlers && r.handler == t.handlers[key])
  {
    ReserveHandlers(t, key, limits, sweepAt, stampAt);
    SweepTakesAway(t, sweepAt, limits.ttl);
  }

  ghost predicate SomeOf(t': Table, t: Table) {
    forall key | key in t'.handlers :: key in t.handlers && t'.handlers[key] == t.handlers[key]
  }

  lemma SomeSpellTenants(t': Table, t: Table)
    requires KeysSpellTenants(t) && SomeOf(t', t)
    ensures KeysSpellTenants(t')
  {
  }

  lemma ReserveSafe(limits: Limits, t: Table, tenants: seq<string>, sweepAt: real, stampAt: real)
    requires |t.handlers| <= limits.max && KeysSpellTenants(t) && AllValid(tenants)
    ensures var (t', r) := Reserve(t, Join(tenants), limits, sweepAt, stampAt);
            && |t'.handlers| <= limits.max && KeysSpellTenants(t')
            && OwnHandler(Arrived(tenants, stampAt, r))
  {
    var key := Join(tenants);
    var (t', r) := Reserve(t, key, limits, sweepAt, stampAt);
    ReserveTakesAway(t, key, limits, sweepAt, stampAt);
    SomeSpellTenants(t', t);
    ArrivedOwn(t, key, tenants, stampAt, r);
  }

  lemma ArrivedOwn(t: Table, key: string, tenants: seq<string>, since: real, r: Reservation)
    requires KeysSpellTenants(t) && AllValid(tenants) && key == Join(tenants)
    requires r.Hit? ==> key in t.handlers && r.handler == t.handlers[key]
    ensures OwnHandler(Arrived(tenants, since, r))
  {
    if r.Hit? {
      FoundIsOwn(t, tenants);
    }
  }

  lemma PublishSafe(limits: Limits, t: Table, candidate: Handler)
    requires |t.handlers| <= limits.max && KeysSpellTenants(t) && AllValid(candidate.tenants)
    ensures var (t', o) := Publish(t, Join(candidate.tenants), limits, candidate);
            && |t'.handlers| <= limits.max && KeysSpellTenants(t')
            && OwnHandler(Finished(candidate.tenants, o))
  {
    var key := Join(candidate.tenants);
    if key in t.handlers {
      JoinInjective(t.handlers[key].tenants, candidate.tenants);
    } else if |t.handlers| < limits.max {
      var t' := Publish(t, key, limits, candidate).0;
      assert t'.handlers.Keys == t.handlers.Keys + {key};
      assert |t'.handlers.Keys| <= |t.handlers.Keys| + 1;
    }
  }

  lemma StepSafe(limits: Limits, s: System, step: Step)
    requires Safe(limits, s) && Enabled(s, step)
    ensures Safe(limits, After(limits, s, step))
  {
    match step
    case Arrive(request, tenants, sweepAt, stampAt) => ReserveSafe(limits, s.table, tenants, sweepAt, stampAt);
    case Fail(request, at) =>
    case Complete(request, at) => PublishSafe(limits, s.table, Candidate(s, request));
  }

  /**
   In every interleaving at most max handlers are cached, each under the key of its own tenants,
   and a request is only ever served by a handler built for exactly its own tenant list.
  */
  lemma {:induction false} EveryInterleavingSafe(limits: Limits, states: seq<System>, steps: seq<Step>, i: nat)
    requires IsRun(limits, states, steps) && i <= |steps|
    ensures Safe(limits, states[i])
  {
    if i > 0 {
      EveryInterleavingSafe(limits, states, steps, i - 1);
      assert StepAt(limits, states, steps, i - 1);
      StepSafe(limits, states[i - 1], steps[i - 1]);
    }
  }

  // ---- Eviction ----

  /**
   A handler that is cached at one point of a run and not at a later one has left in between in the sweep
   of a request that found no room, when the last recorded access to its key was older than the TTL.
  */
  lemma {:induction false} OnlyIdleScopesEvicted(limits: Limits, states: seq<System>, steps: seq<Step>, i: nat,
                                                 j: nat, key: string)
      returns (m: nat)
    requires IsRun(limits, states, steps) && i <= j <= |steps|
    requires key in states[i].table.handlers && key !in states[j].table.handlers
    ensures i <= m < j && steps[m].Arrive? && limits.ttl > 0.0
    ensures key in states[m].table.handlers && |states[m].table.handlers| >= limits.max
    ensures IsStale(states[m].table.lastAccess, key, steps[m].sweepAt, limits.ttl)
  {
    m := j - 1;
    assert StepAt(limits, states, steps, m);
    if key !in states[m].table.handlers {
      m := OnlyIdleScopesEvicted(limits, states, steps, i, m, key);
    }
  }

  // ---- Stability of the cached handler ----

  lemma StepKeepsHandler(limits: Limits, s: System, step: Step, key: string)
    requires Enabled(s, step) && key in s.table.handlers && key in After(limits, s, step).table.handlers
    ensures After(limits, s, step).table.handlers[key] == s.table.handlers[key]
  {
  }

  /** While a key stays cached its handler never changes, whatever duplicate builds finish meanwhile. */
  lemma {:induction false} CachedHandlerStable(limits: Limits, states: seq<System>, steps: seq<Step>, i: nat, j: nat,
                                               key: string)
    requires IsRun(limits, states, steps) && i <= j <= |steps|
    requires forall m | i <= m <= j :: key in states[m].table.handlers
    ensures states[j].table.handlers[key] == states[i].table.handlers[key]
  {
    if i < j {
      CachedHandlerStable(limits, states, steps, i, j - 1, key);
      assert StepAt(limits, states, steps, j - 1);
      StepKeepsHandler(limits, states[j - 1], steps[j - 1], key);
    }
  }

  /** The request has finished in step i, with this outcome. */
  ghost predicate EndsAt(states: seq<System>, i: nat, request: nat, outcome: Outcome) {
    && i + 1 < |states|
    && (request in states[i].requests ==> states[i].requests[request].Loading?)
    && request in states[i + 1].requests && states[i + 1].requests[request].Finished?
    && states[i + 1].requests[request].outcome == outcome
  }

  /** The step in which a request is given its handler. */
  ghost predicate ServedAt(states: seq<System>, i: nat, request: nat, handler: Handler) {
    EndsAt(states, i, request, Served(handler))
  }

  /** The handler returned is the one in the map, under the request's key, at the end of its last critical section. */
  lemma ServedHandlerIsCached(limits: Limits, states: seq<System>, steps: seq<Step>, i: nat, request: nat,
                              handler: Handler)
    requires IsRun(limits, states, steps) && ServedAt(states, i, request, handler)
    ensures var key := Join(states[i + 1].requests[request].tenants);
            key in states[i + 1].table.handlers && states[i + 1].table.handlers[key] == handler
  {
    assert StepAt(limits, states, steps, i);
  }

  /** Two requests for one key get different handlers only if the key was evicted in between. */
  lemma DifferentHandlersMeanEviction(limits: Limits, states: seq<System>, steps: seq<Step>,
                                      i: nat, j: nat, r1: nat, r2: nat, h1: Handler, h2: Handler)
    requires IsRun(limits, states, steps) && i <= j
    requires ServedAt(states, i, r1, h1) && ServedAt(states, j, r2, h2)
    requires Join(states[i + 1].requests[r1].tenants) == Join(states[j + 1].requests[r2].tenants)
    requires h1 != h2
    ensures exists m | i < m <= j :: Join(states[i + 1].requests[r1].tenants) !in states[m].table.handlers
  {
    var key := Join(states[i + 1].requests[r1].tenants);
    ServedHandlerIsCached(limits, states, steps, i, r1, h1);
    ServedHandlerIsCached(limits, states, steps, j, r2, h2);
    if forall m | i < m <= j :: key in states[m].table.handlers {
      CachedHandlerStable(limits, states, steps, i + 1, j + 1, key);
    }
  }

  // ---- Every cached scope has a recorded access ----

  /** Every cached handler has a recorded access, so a sweep can one day remove it. */
  ghost predicate AllTracked(t: Table) {
    t.handlers.Keys <= t.lastAccess.Keys
  }

  /** No manifest load of the run lasts longer than d. */
  ghost predicate LoadWithin(states: seq<System>, steps: seq<Step>, d: real, i: nat) {
    i < |steps| && i < |states| && steps[i].Complete? && IsLoading(states[i], steps[i].request)
    ==> steps[i].at - states[i].requests[steps[i].request].since <= d
  }

  ghost predicate LoadsWithin(states: seq<System>, steps: seq<Step>, d: real) {
    forall i | 0 <= i < |steps| :: LoadWithin(states, steps, d, i)
  }

  /** A load begun within the TTL still has its timestamp. */
  ghost predicate Guarded(ttl: real, s: System, r: Request) {
    r.Loading? ==>
      && r.since <= s.now
      && (ttl <= 0.0 || s.now - r.since <= ttl ==>
            Join(r.tenants) in s.table.lastAccess && s.table.lastAccess[Join(r.tenants)] >= r.since)
  }

  ghost predicate LoadsGuarded(ttl: real, s: System) {
    && (forall key | key in s.table.lastAccess :: s.table.lastAccess[key] <= s.now)
    && (forall request | request in s.requests :: Guarded(ttl, s, s.requests[request]))
  }

  lemma ReserveKeepsGuard(limits: Limits, s: System, step: Step, request: nat)
    requires step.Arrive? && Enabled(s, step) && LoadsGuarded(limits.ttl, s) && request in s.requests
    ensures Guarded(limits.ttl, After(limits, s, step), s.requests[request])
  {
    var r, s' := s.requests[request], After(limits, s, step);
    assert Guarded(limits.ttl, s, r);
    if r.Loading? && (limits.ttl <= 0.0 || s'.now - r.since <= limits.ttl) {
      var key := Join(r.tenants);
      assert !IsStale(s.table.lastAccess, key, step.sweepAt, limits.ttl) || limits.ttl <= 0.0;
    }
  }

  lemma ReserveKeepsGuards(limits: Limits, s: System, step: Step)
    requires step.Arrive? && Enabled(s, step) && LoadsGuarded(limits.ttl, s)
    ensures LoadsGuarded(limits.ttl, After(limits, s, step))
  {
    var s' := After(limits, s, step);
    forall request | request in s'.requests
      ensures Guarded(limits.ttl, s', s'.requests[request])
    {
      if request != step.request {
        ReserveKeepsGuard(limits, s, step, request);
      }
    }
  }

  lemma StepKeepsGuards(limits: Limits, s: System, step: Step)
    requires Enabled(s, step) && LoadsGuarded(limits.ttl, s)
    ensures LoadsGuarded(limits.ttl, After(limits, s, step))
  {
    if step.Arrive? {
      ReserveKeepsGuards(limits, s, step);
    } else {
      var s' := After(limits, s, step);
      forall request | request in s'.requests
        ensures Guarded(limits.ttl, s', s'.requests[request])
      {
        if request != step.request {
          assert Guarded(limits.ttl, s, s.requests[request]);
        }
      }
    }
  }

  lemma StepKeepsTracked(limits: Limits, s: System, step: Step)
    requires Enabled(s, step) && LoadsGuarded(limits.ttl, s) && AllTracked(s.table)
    requires step.Complete? ==> limits.ttl <= 0.0 || step.at - s.requests[step.request].since <= limits.ttl
    ensures AllTracked(After(limits, s, step).table)
  {
    if step.Complete? {
      assert Guarded(limits.ttl, s, s.requests[step.request]);
    }
  }

  lemma {:induction false} ShortLoadsTracked(limits: Limits, states: seq<System>, steps: seq<Step>, d: real, i: nat)
    requires IsRun(limits, states, steps) && i <= |steps| && LoadsWithin(states, steps, d)
    requires limits.ttl <= 0.0 || d <= limits.ttl
    ensures LoadsGuarded(limits.ttl, states[i]) && AllTracked(states[i].table)
  {
    if i > 0 {
      ShortLoadsTracked(limits, states, steps, d, i - 1);
      assert StepAt(limits, states, steps, i - 1) && LoadWithin(states, steps, d, i - 1);
      StepKeepsGuards(limits, states[i - 1], steps[i - 1]);
      StepKeepsTracked(limits, states[i - 1], steps[i - 1]);
    }
  }

  /**
   With this TTL, whatever the capacity, loads of at most d never leave a cached handler without a recorded
   access.
  */
  ghost predicate AlwaysTracked(ttl: real, d: real) {
    forall max: nat, states: seq<System>, steps: seq<Step>, i: nat |
      IsRun(Limits(ttl, max), states, steps) && LoadsWithin(states, steps, d) && i <= |steps| ::
      AllTracked(states[i].table)
  }

  /**
   The run that fails when loads may last d > ttl, with room for one scope: "a" starts loading, "b"
   is cached, "c" arrives after d and sweeps out both timestamps, and then "a" is published.
  */
  function SlowSteps(d: real): seq<Step> {
    [Arrive(0, ["a"], 0.0, 0.0), Arrive(1, ["b"], 0.0, 0.0), Complete(1, 0.0), Arrive(2, ["c"], d, d), Complete(0, d)]
  }

  function SlowState(d: real, k: nat): System
    requires k <= 5
  {
    var a, b, c := Loading(["a"], 0.0), Loading(["b"], 0.0), Loading(["c"], d);
    var hb := Handler(0, ["b"]);
    var ha := Handler(1, ["a"]);
    if k == 0 then System(Table(map[], map[]), 0.0, 0, map[])
    else if k == 1 then System(Table(map[], map["a" := 0.0]), 0.0, 0, map[0 := a])
    else if k == 2 then System(Table(map[], map["a" := 0.0, "b" := 0.0]), 0.0, 0, map[0 := a, 1 := b])
    else if k == 3 then
      System(Table(map["b" := hb], map["a" := 0.0, "b" := 0.0]), 0.0, 1,
             map[0 := a, 1 := Finished(["b"], Served(hb))])
    else if k == 4 then
      System(Table(map[], map["c" := d]), d, 1, map[0 := a, 1 := Finished(["b"], Served(hb)), 2 := c])
    else
      System(Table(map["a" := ha], map["c" := d]), d, 2,
             map[0 := Finished(["a"], Served(ha)), 1 := Finished(["b"], Served(hb)), 2 := c])
  }

  lemma SlowArrivals(ttl: real, d: real)
    requires 0.0 < ttl < d
    ensures Enabled(SlowState(d, 0), SlowSteps(d)[0])
            && After(Limits(ttl, 1), SlowState(d, 0), SlowSteps(d)[0]) == SlowState(d, 1)
    ensures Enabled(SlowState(d, 1), SlowSteps(d)[1])
            && After(Limits(ttl, 1), SlowState(d, 1), SlowSteps(d)[1]) == SlowState(d, 2)
  {
  }

  lemma SlowSweep(ttl: real, d: real)
    requires 0.0 < ttl < d
    ensures Enabled(SlowState(d, 3), SlowSteps(d)[3])
            && After(Limits(ttl, 1), SlowState(d, 3), SlowSteps(d)[3]) == SlowState(d, 4)
  {
    var s := SlowState(d, 3);
    assert |s.table.handlers| == 1;
    assert IsStale(s.table.lastAccess, "a", d, ttl) && IsStale(s.table.lastAccess, "b", d, ttl);
    assert Stale(s.table.lastAccess, d, ttl) == {"a", "b"};
    var swept := Sweep(s.table, d, ttl);
    assert swept == Table(map[], map[]);
    assert Reserve(s.table, "c", Limits(ttl, 1), d, d) == (Table(map[], map["c" := d]), MustBuild);
  }

  lemma SlowFirst(ttl: real, d: real)
    requires 0.0 < ttl < d
    ensures Enabled(SlowState(d, 2), SlowSteps(d)[2])
            && After(Limits(ttl, 1), SlowState(d, 2), SlowSteps(d)[2]) == SlowState(d, 3)
  {
  }

  lemma SlowLast(ttl: real, d: real)
    requires 0.0 < ttl < d
    ensures Enabled(SlowState(d, 4), SlowSteps(d)[4])
            && After(Limits(ttl, 1), SlowState(d, 4), SlowSteps(d)[4]) == SlowState(d, 5)
  {
  }

  lemma SlowLoadRun(ttl: real, d: real)
    requires 0.0 < ttl < d
    ensures var states := seq(6, k requires 0 <= k < 6 => SlowState(d, k));
            IsRun(Limits(ttl, 1), states, SlowSteps(d)) && LoadsWithin(states, SlowSteps(d), d)
    ensures !AllTracked(SlowState(d, 5).table)
  {
    var states := seq(6, k requires 0 <= k < 6 => SlowState(d, k));
    SlowArrivals(ttl, d);
    SlowFirst(ttl, d);
    SlowLast(ttl, d);
    SlowSweep(ttl, d);
    forall i | 0 <= i < 5
      ensures StepAt(Limits(ttl, 1), states, SlowSteps(d), i)
    {
      assert states[i] == SlowState(d, i) && states[i + 1] == SlowState(d, i + 1);
    }
    assert "a" in SlowState(d, 5).table.handlers;
  }

  /**
   The exact condition: no cached scope is ever without a recorded access, in any interleaving with loads of at
   most d, if and only if idle eviction is off or no load may outlast the TTL.
  */
  lemma AlwaysTrackedIff(ttl: real, d: real)
    ensures AlwaysTracked(ttl, d) <==> ttl <= 0.0 || d <= ttl
  {
    if ttl <= 0.0 || d <= ttl {
      forall max: nat, states: seq<System>, steps: seq<Step>, i: nat |
        IsRun(Limits(ttl, max), states, steps) && LoadsWithin(states, steps, d) && i <= |steps|
        ensures AllTracked(states[i].table)
      {
        ShortLoadsTracked(Limits(ttl, max), states, steps, d, i);
      }
    } else {
      SlowLoadRun(ttl, d);
      var states := seq(6, k requires 0 <= k < 6 => SlowState(d, k));
      assert states[5] == SlowState(d, 5);
    }
  }

  // ---- How long a served scope stays cached ----

  lemma {:induction false} AlwaysGuarded(limits: Limits, states: seq<System>, steps: seq<Step>, i: nat)
    requires IsRun(limits, states, steps) && i <= |steps|
    ensures LoadsGuarded(limits.ttl, states[i])
  {
    if i > 0 {
      AlwaysGuarded(limits, states, steps, i - 1);
      assert StepAt(limits, states, steps, i - 1);
      StepKeepsGuards(limits, states[i - 1], steps[i - 1]);
    }
  }

  /** The time a request left in lastAccess: that of its first critical section. */
  ghost function Stamp(s: System, step: Step): real
    requires Enabled(s, step)
  {
    if step.Arrive? then step.stampAt else s.requests[step.request].since
  }

  /** Cached, with an access recorded at the given time or later. */
  ghost predicate Active(limits: Limits, s: System, key: string, stamp: real) {
    && key in s.table.handlers && stamp <= s.now
    && (limits.ttl <= 0.0 || (key in s.table.lastAccess && s.table.lastAccess[key] >= stamp))
  }

  lemma StepKeepsActive(limits: Limits, s: System, step: Step, key: string, stamp: real)
    requires Enabled(s, step) && Active(limits, s, key, stamp)
    requires limits.ttl <= 0.0 || After(limits, s, step).now <= stamp + limits.ttl
    ensures Active(limits, After(limits, s, step), key, stamp)
  {
    if step.Arrive? && limits.ttl > 0.0 {
      assert !IsStale(s.table.lastAccess, key, step.sweepAt, limits.ttl);
    }
  }

  lemma ServiceActivates(limits: Limits, s: System, step: Step, request: nat, handler: Handler)
    requires Enabled(s, step) && LoadsGuarded(limits.ttl, s)
             && ServedAt([s, After(limits, s, step)], 0, request, handler)
    requires limits.ttl <= 0.0 || After(limits, s, step).now <= Stamp(s, step) + limits.ttl
    ensures var s' := After(limits, s, step); Active(limits, s', Join(s'.requests[request].tenants), Stamp(s, step))
  {
    if step.Complete? {
      assert Guarded(limits.ttl, s, s.requests[step.request]);
    }
  }

  /** A scope that served a request stays cached until more than the TTL has passed since that request arrived. */
  lemma {:induction false} ServedStays(limits: Limits, states: seq<System>, steps: seq<Step>, i: nat, j: nat,
                                       request: nat, handler: Handler)
    requires IsRun(limits, states, steps) && ServedAt(states, i, request, handler) && i < j <= |steps|
             && StepAt(limits, states, steps, i)
    requires limits.ttl <= 0.0 || states[j].now <= Stamp(states[i], steps[i]) + limits.ttl
    ensures Active(limits, states[j], Join(states[i + 1].requests[request].tenants), Stamp(states[i], steps[i]))
  {
    if j == i + 1 {
      AlwaysGuarded(limits, states, steps, i);
      ServiceActivates(limits, states[i], steps[i], request, handler);
    } else {
      assert StepAt(limits, states, steps, j - 1);
      ServedStays(limits, states, steps, i, j - 1, request, handler);
      StepKeepsActive(limits, states[j - 1], steps[j - 1], Join(states[i + 1].requests[request].tenants),
          Stamp(states[i], steps[i]));
    }
  }

  /** On this run, a scope that served a request at step i is still cached in state j, if that is within the TTL. */
  ghost predicate KeptWithinTtl(ttl: real, states: seq<System>, i: nat, j: nat, request: nat)
    requires i + 1 < |states| && request in states[i + 1].requests && j < |states|
  {
    states[j].now <= states[i + 1].now + ttl ==>
      Join(states[i + 1].requests[request].tenants) in states[j].table.handlers
  }

  /** Active scopes are never evicted: whatever the capacity, as long as no load lasts longer than d. */
  ghost predicate ActiveNeverEvicted(ttl: real, d: real) {
    forall max: nat, states: seq<System>, steps: seq<Step>, i: nat, j: nat, request: nat, handler: Handler |
      IsRun(Limits(ttl, max), states, steps) && LoadsWithin(states, steps, d)
      && ServedAt(states, i, request, handler) && i < j <= |steps| ::
      KeptWithinTtl(ttl, states, i, j, request)
  }

  lemma PromptServiceKept(limits: Limits, states: seq<System>, steps: seq<Step>, d: real, i: nat, j: nat,
                          request: nat, handler: Handler)
    requires IsRun(limits, states, steps) && LoadsWithin(states, steps, d) && (limits.ttl <= 0.0 || d <= 0.0)
    requires ServedAt(states, i, request, handler) && i < j <= |steps|
    ensures KeptWithinTtl(limits.ttl, states, i, j, request)
  {
    assert StepAt(limits, states, steps, i) && LoadWithin(states, steps, d, i);
    AlwaysGuarded(limits, states, steps, i);
    if steps[i].Complete? {
      assert Guarded(limits.ttl, states[i], states[i].requests[steps[i].request]);
    }
    if limits.ttl <= 0.0 || states[j].now <= states[i + 1].now + limits.ttl {
      ServedStays(limits, states, steps, i, j, request, handler);
    }
  }

  /** "a" is loaded for a time of l, then served, and "b" takes its place before the TTL has passed since then. */
  function EarlySteps(l: real, time: real): seq<Step> {
    [Arrive(0, ["a"], 0.0, 0.0), Complete(0, l), Arrive(1, ["b"], time, time)]
  }

  function EarlyState(l: real, time: real, k: nat): System
    requires k <= 3
  {
    var ha := Handler(0, ["a"]);
    if k == 0 then System(Table(map[], map[]), 0.0, 0, map[])
    else if k == 1 then System(Table(map[], map["a" := 0.0]), 0.0, 0, map[0 := Loading(["a"], 0.0)])
    else if k == 2 then System(Table(map["a" := ha], map["a" := 0.0]), l, 1, map[0 := Finished(["a"], Served(ha))])
    else System(Table(map[], map["b" := time]), time, 1,
        map[0 := Finished(["a"], Served(ha)), 1 := Loading(["b"], time)])
  }

  lemma EarlyService(ttl: real, l: real, time: real)
    requires 0.0 < l <= ttl < time < ttl + l
    ensures Enabled(EarlyState(l, time, 0), EarlySteps(l, time)[0])
    ensures After(Limits(ttl, 1), EarlyState(l, time, 0), EarlySteps(l, time)[0]) == EarlyState(l, time, 1)
    ensures Enabled(EarlyState(l, time, 1), EarlySteps(l, time)[1])
    ensures After(Limits(ttl, 1), EarlyState(l, time, 1), EarlySteps(l, time)[1]) == EarlyState(l, time, 2)
  {
  }

  lemma EarlySweep(ttl: real, l: real, time: real)
    requires 0.0 < l <= ttl < time < ttl + l
    ensures Enabled(EarlyState(l, time, 2), EarlySteps(l, time)[2])
    ensures After(Limits(ttl, 1), EarlyState(l, time, 2), EarlySteps(l, time)[2]) == EarlyState(l, time, 3)
  {
    var s := EarlyState(l, time, 2);
    assert |s.table.handlers| == 1;
    assert IsStale(s.table.lastAccess, "a", time, ttl);
    assert Stale(s.table.lastAccess, time, ttl) == {"a"};
    assert Sweep(s.table, time, ttl) == Table(map[], map[]);
    assert Reserve(s.table, "b", Limits(ttl, 1), time, time) == (Table(map[], map["b" := time]), MustBuild);
  }

  /** However short the load of "a" was, its scope is evicted while it is active. */
  lemma EvictedWhileActive(ttl: real, l: real, time: real)
    requires 0.0 < l <= ttl < time < ttl + l
    ensures var states := seq(4, k requires 0 <= k < 4 => EarlyState(l, time, k));
            && IsRun(Limits(ttl, 1), states, EarlySteps(l, time)) && LoadsWithin(states, EarlySteps(l, time), l)
            && ServedAt(states, 1, 0, Handler(0, ["a"])) && states[3].now < states[2].now + ttl
            && "a" !in states[3].table.handlers
  {
    var states := seq(4, k requires 0 <= k < 4 => EarlyState(l, time, k));
    EarlyService(ttl, l, time);
    EarlySweep(ttl, l, time);
    forall i | 0 <= i < 3
      ensures StepAt(Limits(ttl, 1), states, EarlySteps(l, time), i)
    {
      assert states[i] == EarlyState(l, time, i) && states[i + 1] == EarlyState(l, time, i + 1);
    }
  }

  /**
   The documented promise holds if and only if idle eviction is off or loads take no time: a request
   that loads is served after its access was recorded, and the second critical section records none.
  */
  lemma ActiveNeverEvictedIff(ttl: real, d: real)
    ensures ActiveNeverEvicted(ttl, d) <==> ttl <= 0.0 || d <= 0.0
  {
    if ttl <= 0.0 || d <= 0.0 {
      forall max: nat, states: seq<System>, steps: seq<Step>, i: nat, j: nat, request: nat, handler: Handler |
        IsRun(Limits(ttl, max), states, steps) && LoadsWithin(states, steps, d)
        && ServedAt(states, i, request, handler) && i < j <= |steps|
        ensures KeptWithinTtl(ttl, states, i, j, request)
      {
        PromptServiceKept(Limits(ttl, max), states, steps, d, i, j, request, handler);
      }
    } else {
      var l := if d <= ttl then d else ttl;
      var time := ttl + l / 2.0;
      EvictedWhileActive(ttl, l, time);
      var states, steps := seq(4, k requires 0 <= k < 4 => EarlyState(l, time, k)), EarlySteps(l, time);
      forall i | 0 <= i < |steps|
        ensures LoadWithin(states, steps, d, i)
      {
        assert LoadWithin(states, steps, l, i);
      }
      assert !KeptWithinTtl(ttl, states, 1, 3, 0);
    }
  }
}
