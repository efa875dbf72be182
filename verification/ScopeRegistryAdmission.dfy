/**
 Who is refused by the scope registry, in every interleaving: a request ends in TooManyScopes exactly
 when its scope is not cached, the cache is full and, on arrival, nothing in it has been idle for long.
*/
module ScopeRegistryAdmission {
  import opened TenantScope
  import opened ScopeRegistry
  import opened ScopeRegistryRuns

  ghost predicate Full(limits: Limits, t: Table) {
    |t.handlers| >= limits.max
  }

  /** Idle eviction is on and some recorded access is older than the TTL. */
  ghost predicate SomethingIdle(limits: Limits, t: Table, now: real) {
    limits.ttl > 0.0 && exists key :: IsStale(t.lastAccess, key, now, limits.ttl)
  }

  lemma ReportsIff(limits: Limits, t: Table, now: real)
    ensures SweepReports(t, now, limits.ttl) <==> SomethingIdle(limits, t, now)
  {
    if limits.ttl > 0.0 {
      var stale := Stale(t.lastAccess, now, limits.ttl);
      if key :| key in stale {
        assert IsStale(t.lastAccess, key, now, limits.ttl);
      }
    }
  }

  /** What an arriving request finds decides whether it is served at once, refused, or sent to load. */
  lemma ArrivalIff(limits: Limits, s: System, step: Step)
    requires Enabled(s, step) && step.Arrive?
    ensures var key, r := Join(step.tenants), After(limits, s, step).requests[step.request];
            && r.tenants == step.tenants
            && (r.Finished? && r.outcome.Served?
                <==> key in s.table.handlers)
            && (r.Finished? && r.outcome.TooManyScopes?
                <==> key !in s.table.handlers && Full(limits, s.table)
                     && !SomethingIdle(limits, s.table, step.sweepAt))
            && (r.Loading?
                <==> key !in s.table.handlers
                     && (!Full(limits, s.table) || SomethingIdle(limits, s.table, step.sweepAt)))
  {
    ReportsIff(limits, s.table, step.sweepAt);
  }

  /** Exactly one handler more: the new one, for the tenants of the request that loaded it. */
  ghost predicate OneMore(t': Table, t: Table, handler: Handler) {
    && t'.lastAccess == t.lastAccess
    && t'.handlers.Keys == t.handlers.Keys + {Join(handler.tenants)} && |t'.handlers| == |t.handlers| + 1
    && (forall key | key in t.handlers :: key in t'.handlers && t'.handlers[key] == t.handlers[key])
    && Join(handler.tenants) in t'.handlers && t'.handlers[Join(handler.tenants)] == handler
  }

  /** A finished load is served by the cached handler, or refused, or admitted: the last exactly if there is room. */
  lemma CompletionIff(limits: Limits, s: System, step: Step)
    requires Enabled(s, step) && step.Complete?
    ensures var s', tenants := After(limits, s, step), s.requests[step.request].tenants;
            var key, r := Join(tenants), s'.requests[step.request];
            && r.tenants == tenants && r.Finished?
            && (key in s.table.handlers ==> s'.table == s.table && r.outcome == Served(s.table.handlers[key]))
            && (r.outcome.TooManyScopes? <==> key !in s.table.handlers && Full(limits, s.table))
            && (r.outcome.TooManyScopes? ==> s'.table == s.table)
            && (key !in s.table.handlers && !Full(limits, s.table) ==>
                  && r.outcome.Served? && r.outcome.handler.tenants == tenants
                  && OneMore(s'.table, s.table, r.outcome.handler))
  {
    var s', tenants := After(limits, s, step), s.requests[step.request].tenants;
    if Join(tenants) !in s.table.handlers && !Full(limits, s.table) {
      assert s'.table.handlers.Keys == s.table.handlers.Keys + {Join(tenants)};
      assert |s'.table.handlers.Keys| == |s.table.handlers.Keys| + 1;
    }
  }

  /** In every interleaving, whoever is refused finds the cache full of other scopes. */
  lemma RefusedOnlyWhenFull(limits: Limits, states: seq<System>, steps: seq<Step>, i: nat, request: nat)
    requires IsRun(limits, states, steps) && EndsAt(states, i, request, TooManyScopes)
    ensures |states[i].table.handlers| == limits.max
    ensures Join(states[i + 1].requests[request].tenants) !in states[i].table.handlers
    ensures steps[i].Arrive? ==> !SomethingIdle(limits, states[i].table, steps[i].sweepAt)
  {
    assert StepAt(limits, states, steps, i);
    EveryInterleavingSafe(limits, states, steps, i);
    assert steps[i].request == request;
    if steps[i].Arrive? {
      ArrivalIff(limits, states[i], steps[i]);
    } else if steps[i].Complete? {
      CompletionIff(limits, states[i], steps[i]);
    }
  }

  /** In every interleaving, a load that finishes while there is room is admitted next to everything cached. */
  lemma AdmittedWithRoom(limits: Limits, states: seq<System>, steps: seq<Step>, i: nat) returns (handler: Handler)
    requires IsRun(limits, states, steps) && i < |steps| && steps[i].Complete?
    requires StepAt(limits, states, steps, i)
    requires var key := Join(states[i].requests[steps[i].request].tenants);
             key !in states[i].table.handlers && |states[i].table.handlers| < limits.max
    ensures EndsAt(states, i, steps[i].request, Served(handler))
    ensures handler.tenants == states[i].requests[steps[i].request].tenants
    ensures OneMore(states[i + 1].table, states[i].table, handler)
  {
    CompletionIff(limits, states[i], steps[i]);
    handler := states[i + 1].requests[steps[i].request].outcome.handler;
  }

  /** Handlers are numbered as they are built. */
  ghost predicate Numbered(s: System) {
    forall key | key in s.table.handlers :: s.table.handlers[key].id < s.nextId
  }

  lemma StepNumbered(limits: Limits, s: System, step: Step)
    requires Enabled(s, step) && Numbered(s)
    ensures Numbered(After(limits, s, step))
  {
    if step.Arrive? {
      ReserveTakesAway(s.table, Join(step.tenants), limits, step.sweepAt, step.stampAt);
    }
  }

  lemma {:induction false} AlwaysNumbered(limits: Limits, states: seq<System>, steps: seq<Step>, i: nat)
    requires IsRun(limits, states, steps) && i <= |steps|
    ensures Numbered(states[i])
  {
    if i > 0 {
      AlwaysNumbered(limits, states, steps, i - 1);
      assert StepAt(limits, states, steps, i - 1);
      StepNumbered(limits, states[i - 1], steps[i - 1]);
    }
  }

  /** No two cached scopes share a handler. */
  ghost predicate Apart(t: Table) {
    forall a, b | a in t.handlers && b in t.handlers && a != b :: t.handlers[a].id != t.handlers[b].id
  }

  lemma StepApart(limits: Limits, s: System, step: Step)
    requires Enabled(s, step) && Numbered(s) && Apart(s.table)
    ensures Apart(After(limits, s, step).table)
  {
    if step.Arrive? {
      ReserveTakesAway(s.table, Join(step.tenants), limits, step.sweepAt, step.stampAt);
    }
  }

  /** In every interleaving, different scopes are cached with different handlers. */
  lemma {:induction false} HandlersNeverShared(limits: Limits, states: seq<System>, steps: seq<Step>, i: nat)
    requires IsRun(limits, states, steps) && i <= |steps|
    ensures Apart(states[i].table)
  {
    if i > 0 {
      HandlersNeverShared(limits, states, steps, i - 1);
      AlwaysNumbered(limits, states, steps, i - 1);
      assert StepAt(limits, states, steps, i - 1);
      StepApart(limits, states[i - 1], steps[i - 1]);
    }
  }

  // ---- How many scopes can be used without refusals ----

  /** A set of tenant lists that requests may be made for. */
  ghost predicate Scopes(lists: set<seq<string>>) {
    forall tenants | tenants in lists :: tenants != [] && AllValid(tenants)
  }

  ghost predicate AsksFor(step: Step, lists: set<seq<string>>) {
    step.Arrive? ==> step.tenants in lists
  }

  ghost predicate AskOnlyFor(steps: seq<Step>, lists: set<seq<string>>) {
    forall i | 0 <= i < |steps| :: AsksFor(steps[i], lists)
  }

  function Keys(lists: set<seq<string>>): (keys: set<string>)
    ensures forall tenants | tenants in lists :: Join(tenants) in keys
  {
    set tenants | tenants in lists :: Join(tenants)
  }

  lemma {:induction false} FewKeys(lists: set<seq<string>>)
    ensures |Keys(lists)| <= |lists|
  {
    if lists != {} {
      var tenants :| tenants in lists;
      FewKeys(lists - {tenants});
      assert Keys(lists) == Keys(lists - {tenants}) + {Join(tenants)};
    }
  }

  /** Only scopes that were asked for are cached or loading. */
  ghost predicate OnlyAsked(s: System, lists: set<seq<string>>) {
    && s.table.handlers.Keys <= Keys(lists)
    && forall request | request in s.requests :: s.requests[request].tenants in lists
  }

  lemma StepOnlyAsked(limits: Limits, s: System, step: Step, lists: set<seq<string>>)
    requires Enabled(s, step) && OnlyAsked(s, lists) && AsksFor(step, lists)
    ensures OnlyAsked(After(limits, s, step), lists)
  {
    if step.Arrive? {
      ReserveTakesAway(s.table, Join(step.tenants), limits, step.sweepAt, step.stampAt);
      ArrivalIff(limits, s, step);
    } else {
      assert s.requests[step.request].tenants in lists;
    }
  }

  lemma {:induction false} AlwaysOnlyAsked(limits: Limits, states: seq<System>, steps: seq<Step>,
                                           lists: set<seq<string>>, i: nat)
    requires IsRun(limits, states, steps) && AskOnlyFor(steps, lists) && i <= |steps|
    ensures OnlyAsked(states[i], lists)
  {
    if i > 0 {
      AlwaysOnlyAsked(limits, states, steps, lists, i - 1);
      assert StepAt(limits, states, steps, i - 1) && AsksFor(steps[i - 1], lists);
      StepOnlyAsked(limits, states[i - 1], steps[i - 1], lists);
    }
  }

  /** Requests for no more scopes than may be cached are never refused. */
  lemma EnoughRoom(limits: Limits, states: seq<System>, steps: seq<Step>, lists: set<seq<string>>, i: nat,
                   request: nat)
    requires IsRun(limits, states, steps) && AskOnlyFor(steps, lists) && |lists| <= limits.max
    ensures !EndsAt(states, i, request, TooManyScopes)
  {
    if EndsAt(states, i, request, TooManyScopes) {
      RefusedOnlyWhenFull(limits, states, steps, i, request);
      AlwaysOnlyAsked(limits, states, steps, lists, i);
      AlwaysOnlyAsked(limits, states, steps, lists, i + 1);
      var key := Join(states[i + 1].requests[request].tenants);
      SubsetCount(states[i].table.handlers.Keys, Keys(lists) - {key});
      FewKeys(lists);
    }
  }

  /** Whatever the order of its steps, no run of requests for these scopes refuses anybody. */
  ghost predicate NeverRefuses(limits: Limits, lists: set<seq<string>>) {
    forall states: seq<System>, steps: seq<Step>, i: nat, request: nat |
      IsRun(limits, states, steps) && AskOnlyFor(steps, lists) ::
      !EndsAt(states, i, request, TooManyScopes)
  }

  /** Everybody so far came and was served at time 0: one request, and one cached handler, for each list used. */
  ghost predicate Filled(s: System, used: set<seq<string>>) {
    && s.now == 0.0 && s.table.handlers.Keys == Keys(used) && |s.table.handlers| == |used|
    && (forall key | key in s.table.lastAccess :: s.table.lastAccess[key] == 0.0)
    && (forall request | request in s.requests :: request < |used|)
  }

  lemma NewKey(used: set<seq<string>>, tenants: seq<string>)
    requires Scopes(used + {tenants}) && tenants !in used
    ensures Join(tenants) !in Keys(used)
  {
    forall other | other in used
      ensures Join(other) != Join(tenants)
    {
      JoinInjective(other, tenants);
    }
  }

  /** As before, and one more request is loading. */
  ghost predicate Waiting(s: System, used: set<seq<string>>, tenants: seq<string>) {
    && s.now == 0.0 && s.table.handlers.Keys == Keys(used) && |s.table.handlers| == |used|
    && (forall key | key in s.table.lastAccess :: s.table.lastAccess[key] == 0.0)
    && (forall request | request in s.requests :: request <= |used|)
    && |used| in s.requests && s.requests[|used|] == Loading(tenants, 0.0)
  }

  lemma ReserveWithRoom(t: Table, key: string, limits: Limits)
    requires key !in t.handlers && |t.handlers| < limits.max
    ensures Reserve(t, key, limits, 0.0, 0.0) == (t.(lastAccess := t.lastAccess[key := 0.0]), MustBuild)
  {
  }

  lemma ArrivalWithRoom(limits: Limits, s: System, used: set<seq<string>>, step: Step)
    requires Filled(s, used) && |used| < limits.max
    requires step.Arrive? && step == Arrive(|used|, step.tenants, 0.0, 0.0)
    requires Enabled(s, step) && Join(step.tenants) !in s.table.handlers
    ensures Waiting(After(limits, s, step), used, step.tenants)
  {
    ReserveWithRoom(s.table, Join(step.tenants), limits);
  }

  lemma PublishWithRoom(t: Table, key: string, limits: Limits, candidate: Handler)
    requires key !in t.handlers && |t.handlers| < limits.max
    ensures var t' := Publish(t, key, limits, candidate).0;
            && t'.lastAccess == t.lastAccess
            && t'.handlers.Keys == t.handlers.Keys + {key} && |t'.handlers| == |t.handlers| + 1
  {
    var t' := Publish(t, key, limits, candidate).0;
    assert t'.handlers.Keys == t.handlers.Keys + {key};
    assert |t'.handlers| == |t'.handlers.Keys|;
  }

  lemma CompletionAfter(limits: Limits, s: System, step: Step, tenants: seq<string>)
    requires Enabled(s, step) && step.Complete? && s.requests[step.request].tenants == tenants
    requires Join(tenants) !in s.table.handlers && |s.table.handlers| < limits.max
    ensures var s' := After(limits, s, step);
            && s'.now == step.at && s'.table.lastAccess == s.table.lastAccess && s'.requests.Keys == s.requests.Keys
            && s'.table.handlers.Keys == s.table.handlers.Keys + {Join(tenants)}
            && |s'.table.handlers| == |s.table.handlers| + 1
  {
    PublishWithRoom(s.table, Join(tenants), limits, Candidate(s, step.request));
  }

  lemma OneMoreFilled(s: System, s': System, used: set<seq<string>>, tenants: seq<string>)
    requires Waiting(s, used, tenants) && tenants !in used
    requires s'.now == 0.0 && s'.table.lastAccess == s.table.lastAccess && s'.requests.Keys == s.requests.Keys
    requires s'.table.handlers.Keys == s.table.handlers.Keys + {Join(tenants)}
    requires |s'.table.handlers| == |s.table.handlers| + 1
    ensures Filled(s', used + {tenants})
  {
    KeysOfMore(used, tenants);
    assert |used + {tenants}| == |used| + 1;
    forall request | request in s'.requests
      ensures request < |used| + 1
    {
      assert request in s.requests.Keys;
    }
  }

  lemma CompletionWithRoom(limits: Limits, s: System, used: set<seq<string>>, step: Step, tenants: seq<string>)
    requires Waiting(s, used, tenants) && |used| < limits.max && step == Complete(|used|, 0.0)
    requires Enabled(s, step) && Join(tenants) !in s.table.handlers && tenants !in used
    ensures Filled(After(limits, s, step), used + {tenants})
  {
    CompletionAfter(limits, s, step, tenants);
    OneMoreFilled(s, After(limits, s, step), used, tenants);
  }

  lemma KeysOfMore(used: set<seq<string>>, tenants: seq<string>)
    ensures Keys(used + {tenants}) == Keys(used) + {Join(tenants)}
  {
  }

  /** One scope more is loaded and cached. */
  lemma FillOne(limits: Limits, states: seq<System>, steps: seq<Step>, used: set<seq<string>>, tenants: seq<string>)
      returns (states': seq<System>, steps': seq<Step>)
    requires IsRun(limits, states, steps) && Filled(states[|steps|], used) && |used| < limits.max
    requires Scopes(used + {tenants}) && tenants !in used
    ensures IsRun(limits, states', steps') && Filled(states'[|steps'|], used + {tenants})
    ensures steps' == steps + [Arrive(|used|, tenants, 0.0, 0.0), Complete(|used|, 0.0)]
  {
    NewKey(used, tenants);
    assert tenants in used + {tenants};
    var arrive, complete := Arrive(|used|, tenants, 0.0, 0.0), Complete(|used|, 0.0);
    ArrivalWithRoom(limits, states[|steps|], used, arrive);
    RunNext(limits, states, steps, arrive);
    states', steps' := states + [After(limits, states[|steps|], arrive)], steps + [arrive];
    CompletionWithRoom(limits, states'[|steps'|], used, complete, tenants);
    RunNext(limits, states', steps', complete);
    states', steps' := states' + [After(limits, states'[|steps'|], complete)], steps' + [complete];
  }

  lemma RunNext(limits: Limits, states: seq<System>, steps: seq<Step>, step: Step)
    requires IsRun(limits, states, steps) && Enabled(states[|steps|], step)
    ensures IsRun(limits, states + [After(limits, states[|steps|], step)], steps + [step])
  {
    var states', steps' := states + [After(limits, states[|steps|], step)], steps + [step];
    forall i | 0 <= i < |steps'|
      ensures StepAt(limits, states', steps', i)
    {
      assert i < |steps| ==> StepAt(limits, states, steps, i);
    }
  }

  /** A run in which n scopes are loaded and cached one after the other. */
  lemma {:induction false} FillingRun(limits: Limits, lists: set<seq<string>>, n: nat)
      returns (states: seq<System>, steps: seq<Step>, used: set<seq<string>>)
    requires limits.max >= 1 && Scopes(lists) && n <= |lists| && n <= limits.max
    ensures IsRun(limits, states, steps) && AskOnlyFor(steps, lists)
    ensures used <= lists && |used| == n && Filled(states[|steps|], used)
  {
    if n == 0 {
      states, steps, used := [System(Table(map[], map[]), 0.0, 0, map[])], [], {};
    } else {
      var states0, steps0;
      states0, steps0, used := FillingRun(limits, lists, n - 1);
      var tenants := Unused(lists, used);
      states, steps := FillOne(limits, states0, steps0, used, tenants);
      AskMore(steps0, lists, |used|, tenants);
      used := used + {tenants};
    }
  }

  lemma AskMore(steps: seq<Step>, lists: set<seq<string>>, n: nat, tenants: seq<string>)
    requires AskOnlyFor(steps, lists) && tenants in lists
    ensures AskOnlyFor(steps + [Arrive(n, tenants, 0.0, 0.0), Complete(n, 0.0)], lists)
  {
    var steps' := steps + [Arrive(n, tenants, 0.0, 0.0), Complete(n, 0.0)];
    forall i | 0 <= i < |steps'|
      ensures AsksFor(steps'[i], lists)
    {
      assert i < |steps| ==> steps'[i] == steps[i] && AsksFor(steps[i], lists);
    }
  }

  lemma Unused(lists: set<seq<string>>, used: set<seq<string>>) returns (tenants: seq<string>)
    requires used <= lists && |used| < |lists|
    ensures tenants in lists && tenants !in used
  {
    if lists <= used {
      SubsetCount(lists, used);
    }
    tenants :| tenants in lists && tenants !in used;
  }

  /** With one scope more than may be cached, the last to come is refused. */
  lemma OneTooMany(limits: Limits, lists: set<seq<string>>)
      returns (states: seq<System>, steps: seq<Step>, i: nat, request: nat)
    requires limits.max >= 1 && Scopes(lists) && |lists| > limits.max
    ensures IsRun(limits, states, steps) && AskOnlyFor(steps, lists) && EndsAt(states, i, request, TooManyScopes)
  {
    var used;
    states, steps, used := FillingRun(limits, lists, limits.max);
    var tenants := Unused(lists, used);
    var s, arrive := states[|steps|], Arrive(|used|, tenants, 0.0, 0.0);
    NewKey(used, tenants);
    ArrivalIff(limits, s, arrive);
    assert !SomethingIdle(limits, s.table, 0.0);
    RunNext(limits, states, steps, arrive);
    i, request := |steps|, |used|;
    states, steps := states + [After(limits, s, arrive)], steps + [arrive];
  }

  /**
   Whatever the TTL, requests for these scopes are never refused, in any interleaving, if and only if there
   are no more of them than may be cached.
  */
  lemma NeverRefusesIff(limits: Limits, lists: set<seq<string>>)
    requires limits.max >= 1 && Scopes(lists)
    ensures NeverRefuses(limits, lists) <==> |lists| <= limits.max
  {
    if |lists| <= limits.max {
      forall states: seq<System>, steps: seq<Step>, i: nat, request: nat |
        IsRun(limits, states, steps) && AskOnlyFor(steps, lists)
        ensures !EndsAt(states, i, request, TooManyScopes)
      {
        EnoughRoom(limits, states, steps, lists, i, request);
      }
    } else {
      var states, steps, i, request := OneTooMany(limits, lists);
    }
  }
}
