/**
 The rate limiter under concurrency. A call has two critical sections, one under the limiter's mutex
 that finds or creates its bucket and one under the bucket's own mutex that takes a token, and any
 number of calls may be between the two. A bucket may be evicted while calls still hold it.

 Results: every bucket object decides as the full log of its own requests would, and the maps refine
 an LRU set over the order in which calls pass the first section, in every interleaving.
*/
module RateLimiterInterleavings {
  import opened TokenBucket
  import opened RateLimiter
  import opened RateLimiterRuns
  import opened Wrappers

  /** The identity of a bucket object, and of a call. */
  datatype Ref = Ref(n: nat)
  datatype Call = Call(n: nat)

  /**
   The maps under the limiter's mutex, the bucket objects, the buckets that calls hold between their
   two sections, and what only the history knows: the calls that passed the first section, in order,
   and the log of each bucket.
  */
  datatype System = System(
    rate: Rate, maxBuckets: nat, refs: map<string, Ref>, lastSeen: map<string, real>,
    heap: map<Ref, Bucket>, next: nat, holding: map<Call, Ref>, now: real,
    found: seq<Request>, logs: map<Ref, seq<Event>>)

  /** A call's first and second critical section; the fields taken of the request is not used. */
  datatype Step = Find(call: Call, r: Request) | Spend(call: Call, at: real)

  function LogOfRef(s: System, ref: Ref): seq<Event> {
    if ref in s.logs then s.logs[ref] else []
  }

  /** Room for one more bucket, made as evictOldest does. */
  function MakeRoom(s: System, order: seq<string>): System
    requires forall ip | ip in order :: ip in s.lastSeen
  {
    var oldest := ScanOldest(order, s.lastSeen);
    if |s.refs| < s.maxBuckets || |s.refs| == 0 || oldest == "" then s
    else s.(refs := s.refs - {oldest}, lastSeen := s.lastSeen - {oldest})
  }

  function AfterFind(s: System, call: Call, r: Request): System
    requires forall ip | ip in r.order :: ip in s.lastSeen
  {
    if r.ip in s.refs then
      s.(lastSeen := s.lastSeen[r.ip := r.seen], holding := s.holding[call := s.refs[r.ip]],
         now := r.seen, found := s.found + [r])
    else
      var room, ref := MakeRoom(s, r.order), Ref(s.next);
      room.(refs := room.refs[r.ip := ref], lastSeen := room.lastSeen[r.ip := r.seen],
            heap := s.heap[ref := Fresh(s.rate, r.created)], next := s.next + 1,
            holding := s.holding[call := ref], now := r.seen, found := s.found + [r])
  }

  function Decision(s: System, call: Call, at: real): (Bucket, bool)
    requires call in s.holding && s.holding[call] in s.heap
  {
    Take(s.heap[s.holding[call]], s.rate, at)
  }

  function AfterSpend(s: System, call: Call, at: real): System
    requires call in s.holding && s.holding[call] in s.heap
  {
    var ref := s.holding[call];
    var (b, ok) := Decision(s, call, at);
    s.(heap := s.heap[ref := b], holding := s.holding - {call}, now := at,
       logs := s.logs[ref := LogOfRef(s, ref) + [Event(at, ok)]])
  }

  ghost predicate Initial(s: System) {
    && s.maxBuckets >= 1 && s.refs == map[] && s.lastSeen == map[] && s.heap == map[]
    && s.holding == map[] && s.found == [] && s.logs == map[]
  }

  /** The clock does not go back. */
  ghost predicate Enabled(s: System, step: Step) {
    match step
    case Find(call, r) => call !in s.holding && IsOrder(r.order, s.lastSeen) && s.now <= r.created <= r.seen
    case Spend(call, at) => call in s.holding && s.holding[call] in s.heap && s.now <= at
  }

  function After(s: System, step: Step): System
    requires Enabled(s, step)
  {
    match step
    case Find(call, r) => AfterFind(s, call, r)
    case Spend(call, at) => AfterSpend(s, call, at)
  }

  ghost predicate StepAt(states: seq<System>, steps: seq<Step>, i: nat) {
    && i < |steps| && i + 1 < |states|
    && Enabled(states[i], steps[i]) && states[i + 1] == After(states[i], steps[i])
  }

  ghost predicate IsRun(states: seq<System>, steps: seq<Step>) {
    && |states| == |steps| + 1 && Initial(states[0])
    && forall i | 0 <= i < |steps| :: StepAt(states, steps, i)
  }

  // ---- Decisions ----

  ghost predicate Stands(s: System, ref: Ref) {
    ref in s.heap && ref.n < s.next && StandsFor(s.heap[ref], s.rate, LogOfRef(s, ref), s.now)
  }

  /** Every bucket stands for its own log, evicted or not, and no reference dangles. */
  ghost predicate AllStand(s: System) {
    && (forall ref | ref in s.heap :: Stands(s, ref))
    && NoneDangles(s.refs, s.heap)
    && (forall call | call in s.holding :: s.holding[call] in s.heap)
    && (forall ref | ref in s.logs :: ref in s.heap)
  }

  lemma StandsLater(b: Bucket, rate: Rate, log: seq<Event>, t: real, now: real)
    requires StandsFor(b, rate, log, t) && t <= now
    ensures StandsFor(b, rate, log, now)
  {
  }

  lemma RefsBelowNext(s: System, ref: Ref)
    requires AllStand(s) && ref in s.heap
    ensures ref.n < s.next
  {
    assert Stands(s, ref);
  }

  lemma NextIsNew(s: System)
    requires AllStand(s)
    ensures Ref(s.next) !in s.heap && Ref(s.next) !in s.logs
  {
    if Ref(s.next) in s.heap {
      RefsBelowNext(s, Ref(s.next));
    }
  }

  /** A step that leaves a bucket and its log alone leaves it standing. */
  lemma StandsStill(s: System, s': System, ref: Ref)
    requires Stands(s, ref) && s.now <= s'.now && s.next <= s'.next && s'.rate == s.rate
    requires ref in s'.heap && s'.heap[ref] == s.heap[ref] && LogOfRef(s', ref) == LogOfRef(s, ref)
    ensures Stands(s', ref)
  {
    StandsLater(s.heap[ref], s.rate, LogOfRef(s, ref), s.now, s'.now);
  }

  lemma FindStands(s: System, call: Call, r: Request)
    requires AllStand(s) && Enabled(s, Find(call, r))
    ensures AllStand(AfterFind(s, call, r))
  {
    NextIsNew(s);
    var s' := AfterFind(s, call, r);
    forall ref | ref in s'.heap
      ensures Stands(s', ref)
    {
      FoundStands(s, call, r, ref);
    }
  }

  lemma FoundStands(s: System, call: Call, r: Request, ref: Ref)
    requires AllStand(s) && Enabled(s, Find(call, r)) && ref in AfterFind(s, call, r).heap
    ensures Stands(AfterFind(s, call, r), ref)
  {
    NextIsNew(s);
    if ref in s.heap {
      assert Stands(s, ref);
      StandsStill(s, AfterFind(s, call, r), ref);
    }
  }

  lemma SpendStands(s: System, call: Call, at: real)
    requires AllStand(s) && Enabled(s, Spend(call, at))
    ensures AllStand(AfterSpend(s, call, at))
    ensures Decision(s, call, at).1 <==> LogAdmits(s.rate, LogOfRef(s, s.holding[call]), at)
  {
    var s', own := AfterSpend(s, call, at), s.holding[call];
    assert Stands(s, own);
    StandsLater(s.heap[own], s.rate, LogOfRef(s, own), s.now, at);
    TakeDecidesAsLog(s.heap[own], s.rate, LogOfRef(s, own), at);
    forall ref | ref in s'.heap
      ensures Stands(s', ref)
    {
      assert Stands(s, ref);
      if ref != own {
        StandsStill(s, s', ref);
      }
    }
  }

  lemma {:induction false} BucketsStand(states: seq<System>, steps: seq<Step>, i: nat)
    requires IsRun(states, steps) && i <= |steps|
    ensures AllStand(states[i])
  {
    if i > 0 {
      BucketsStand(states, steps, i - 1);
      assert StepAt(states, steps, i - 1);
      match steps[i - 1]
      case Find(call, r) => FindStands(states[i - 1], call, r);
      case Spend(call, at) => SpendStands(states[i - 1], call, at);
    }
  }

  /**
   In every interleaving, also on buckets evicted meanwhile: a call is admitted exactly when the rule
   over the full log of the bucket it holds admits it.
  */
  lemma EveryDecisionIsTheLogRule(states: seq<System>, steps: seq<Step>, i: nat, call: Call, at: real)
    requires IsRun(states, steps) && i < |steps| && steps[i] == Spend(call, at)
    ensures call in states[i].holding && states[i].holding[call] in states[i].heap
    ensures var s := states[i];
            Decision(s, call, at).1 <==> LogAdmits(s.rate, LogOfRef(s, s.holding[call]), at)
  {
    BucketsStand(states, steps, i);
    assert StepAt(states, steps, i);
    SpendStands(states[i], call, at);
  }

  // ---- The logs ----

  /** The log is decided by the rule throughout, and in the order of the clock. */
  ghost predicate GoodLog(rate: Rate, log: seq<Event>, now: real) {
    && FollowsRule(rate, log) && NonDecreasing(TimesOf(log))
    && (log != [] ==> log[|log| - 1].at <= now)
  }

  ghost predicate GoodLogs(s: System) {
    forall ref | ref in s.logs :: GoodLog(s.rate, s.logs[ref], s.now)
  }

  lemma GoodLogNext(rate: Rate, log: seq<Event>, now: real, e: Event)
    requires GoodLog(rate, log, now) && now <= e.at && (e.admitted <==> LogAdmits(rate, log, e.at))
    ensures GoodLog(rate, log + [e], e.at)
  {
    FollowsRuleNext(rate, log, e);
    var times := TimesOf(log + [e]);
    forall i, j | 0 <= i <= j < |times|
      ensures times[i] <= times[j]
    {
      if j < |log| {
        assert TimesOf(log)[i] <= TimesOf(log)[j];
      } else if i < |log| {
        assert TimesOf(log)[i] <= TimesOf(log)[|log| - 1];
      }
    }
  }

  lemma GoodLogLater(rate: Rate, log: seq<Event>, t: real, now: real)
    requires GoodLog(rate, log, t) && t <= now
    ensures GoodLog(rate, log, now)
  {
  }

  lemma SpendGoodLogs(s: System, call: Call, at: real)
    requires AllStand(s) && GoodLogs(s) && Enabled(s, Spend(call, at))
    ensures GoodLogs(AfterSpend(s, call, at))
  {
    var own, log := s.holding[call], LogOfRef(s, s.holding[call]);
    SpendStands(s, call, at);
    GoodLogNext(s.rate, log, s.now, Event(at, Decision(s, call, at).1));
    LogsLater(s, at);
    LogReplaced(s.rate, s.logs, own, log + [Event(at, Decision(s, call, at).1)], AfterSpend(s, call, at).logs, at);
  }

  lemma LogsLater(s: System, at: real)
    requires GoodLogs(s) && s.now <= at
    ensures forall ref | ref in s.logs :: GoodLog(s.rate, s.logs[ref], at)
  {
    forall ref | ref in s.logs
      ensures GoodLog(s.rate, s.logs[ref], at)
    {
      GoodLogLater(s.rate, s.logs[ref], s.now, at);
    }
  }

  lemma LogReplaced(rate: Rate, logs: map<Ref, seq<Event>>, own: Ref, log: seq<Event>,
                    logs': map<Ref, seq<Event>>, at: real)
    requires GoodLog(rate, log, at) && forall ref | ref in logs :: GoodLog(rate, logs[ref], at)
    requires logs' == logs[own := log]
    ensures forall ref | ref in logs' :: GoodLog(rate, logs'[ref], at)
  {
  }

  lemma FindGoodLogs(s: System, call: Call, r: Request)
    requires GoodLogs(s) && Enabled(s, Find(call, r))
    ensures GoodLogs(AfterFind(s, call, r))
  {
    LogsLater(s, r.seen);
  }

  lemma {:induction false} EveryLogGood(states: seq<System>, steps: seq<Step>, i: nat)
    requires IsRun(states, steps) && i <= |steps|
    ensures GoodLogs(states[i])
  {
    if i > 0 {
      EveryLogGood(states, steps, i - 1);
      BucketsStand(states, steps, i - 1);
      assert StepAt(states, steps, i - 1);
      match steps[i - 1]
      case Find(call, r) => FindGoodLogs(states[i - 1], call, r);
      case Spend(call, at) => SpendGoodLogs(states[i - 1], call, at);
    }
  }

  /** In every interleaving any window of a bucket's requests admits at most burst + rps times its length. */
  lemma EveryWindowBounded(states: seq<System>, steps: seq<Step>, i: nat, ref: Ref, a: nat, b: nat)
    requires IsRun(states, steps) && i <= |steps| && ref in states[i].logs && a <= b < |states[i].logs[ref]|
    ensures var rate, log := states[i].rate, states[i].logs[ref];
            Admitted(log[a..b + 1]) as real <= Allowance(rate, log[b].at - log[a].at)
  {
    EveryLogGood(states, steps, i);
    WindowOfLog(states[i].rate, states[i].logs[ref], a, b);
  }

  /** In every interleaving a request that comes 1/rps or more after the one before it on its bucket is admitted. */
  lemma EverySpacedCallAdmitted(states: seq<System>, steps: seq<Step>, i: nat, ref: Ref, j: nat)
    requires IsRun(states, steps) && i <= |steps| && ref in states[i].logs && j < |states[i].logs[ref]|
    requires 1 <= states[i].rate.burst
    requires j > 0 ==> Times(states[i].rate.rps, states[i].logs[ref][j].at - states[i].logs[ref][j - 1].at) >= 1.0
    ensures states[i].logs[ref][j].admitted
  {
    EveryLogGood(states, steps, i);
    SpacedInLog(states[i].rate, states[i].logs[ref], j);
  }

  // ---- The maps ----

  predicate NoneDangles(refs: map<string, Ref>, heap: map<Ref, Bucket>) {
    forall ip | ip in refs :: refs[ip] in heap
  }

  /** What the address map leads to. */
  function Buckets(refs: map<string, Ref>, heap: map<Ref, Bucket>): (buckets: map<string, Bucket>)
    requires NoneDangles(refs, heap)
    ensures buckets.Keys == refs.Keys && |buckets| == |refs|
  {
    var buckets := map ip | ip in refs :: heap[refs[ip]];
    assert buckets.Keys == refs.Keys;
    buckets
  }

  lemma BucketsWithout(refs: map<string, Ref>, heap: map<Ref, Bucket>, ip: string)
    requires NoneDangles(refs, heap)
    ensures NoneDangles(refs - {ip}, heap) && Buckets(refs - {ip}, heap) == Buckets(refs, heap) - {ip}
  {
  }

  lemma BucketsWith(refs: map<string, Ref>, heap: map<Ref, Bucket>, ip: string, ref: Ref, b: Bucket)
    requires NoneDangles(refs, heap) && ref !in heap
    ensures NoneDangles(refs[ip := ref], heap[ref := b])
    ensures Buckets(refs[ip := ref], heap[ref := b]) == Buckets(refs, heap)[ip := b]
  {
  }

  /** The limiter as its mutex protects it: addresses and the present contents of their buckets. */
  function View(s: System): (l: Limiter)
    requires NoneDangles(s.refs, s.heap)
  {
    Limiter(s.rate, s.maxBuckets, Buckets(s.refs, s.heap), s.lastSeen)
  }

  lemma RoomIsEviction(s: System, order: seq<string>)
    requires NoneDangles(s.refs, s.heap) && forall ip | ip in order :: ip in s.lastSeen
    ensures NoneDangles(MakeRoom(s, order).refs, s.heap) && MakeRoom(s, order).heap == s.heap
    ensures View(MakeRoom(s, order))
         == if |s.refs| >= s.maxBuckets then EvictOldest(View(s), order).0 else View(s)
  {
    BucketsWithout(s.refs, s.heap, ScanOldest(order, s.lastSeen));
  }

  lemma ResidentFindIsLookup(s: System, call: Call, r: Request)
    requires NoneDangles(s.refs, s.heap) && r.ip in s.refs && forall ip | ip in r.order :: ip in s.lastSeen
    ensures var s' := AfterFind(s, call, r); NoneDangles(s'.refs, s'.heap) && View(s') == Lookup(View(s), r)
  {
  }

  lemma NewcomerFindIsLookup(s: System, call: Call, r: Request)
    requires NoneDangles(s.refs, s.heap) && r.ip !in s.refs && Ref(s.next) !in s.heap
    requires forall ip | ip in r.order :: ip in s.lastSeen
    ensures var s' := AfterFind(s, call, r); NoneDangles(s'.refs, s'.heap) && View(s') == Lookup(View(s), r)
  {
    RoomIsEviction(s, r.order);
    BucketsWith(MakeRoom(s, r.order).refs, s.heap, r.ip, Ref(s.next), Fresh(s.rate, r.created));
  }

  /** The first section is the lookup that the sequential limiter specifies. */
  lemma FindIsLookup(s: System, call: Call, r: Request)
    requires AllStand(s) && NoneDangles(s.refs, s.heap) && forall ip | ip in r.order :: ip in s.lastSeen
    ensures var s' := AfterFind(s, call, r); NoneDangles(s'.refs, s'.heap) && View(s') == Lookup(View(s), r)
  {
    if r.ip in s.refs {
      ResidentFindIsLookup(s, call, r);
    } else {
      NextIsNew(s);
      NewcomerFindIsLookup(s, call, r);
    }
  }

  ghost predicate NamedFinds(steps: seq<Step>) {
    forall i | 0 <= i < |steps| && steps[i].Find? :: steps[i].r.ip != ""
  }

  /** The clock moves before every first section. */
  ghost predicate ClockMoves(states: seq<System>, steps: seq<Step>) {
    forall i | 0 <= i < |steps| && i < |states| && steps[i].Find? :: states[i].now < steps[i].r.seen
  }

  /** The maps name the most recent of the calls that passed the first section, the latest first. */
  ghost predicate MapsRecent(l: Limiter, found: seq<Request>, now: real) {
    && l.maxBuckets >= 1 && Bounded(l) && SeenBy(l.lastSeen, now)
    && Recency(First(MostRecent(found), l.maxBuckets), l.lastSeen)
  }

  lemma LookupKeepsRecent(l: Limiter, found: seq<Request>, now: real, r: Request)
    requires MapsRecent(l, found, now) && IsOrder(r.order, l.lastSeen) && r.ip != "" && now < r.seen
    ensures MapsRecent(Lookup(l, r), found + [r], r.seen)
  {
    LookupKeepsBound(l, r);
    RecencyStep(l, r, First(MostRecent(found), l.maxBuckets));
    TakingKeepsKeys(l, r);
    assert (found + [r])[..|found + [r]| - 1] == found;
    RecencyAdvances(found + [r], l.maxBuckets);
  }

  lemma SpendKeepsRecent(l: Limiter, l': Limiter, found: seq<Request>, now: real, later: real)
    requires MapsRecent(l, found, now) && now <= later
    requires l'.buckets.Keys == l.buckets.Keys && l' == l.(buckets := l'.buckets)
    ensures MapsRecent(l', found, later)
  {
    assert |l'.buckets| == |l'.buckets.Keys| == |l.buckets.Keys| == |l.buckets|;
  }

  ghost predicate StaysRecent(s: System) {
    NoneDangles(s.refs, s.heap) && MapsRecent(View(s), s.found, s.now)
  }

  lemma StepStaysRecent(s: System, step: Step)
    requires AllStand(s) && StaysRecent(s) && Enabled(s, step)
    requires step.Find? ==> step.r.ip != "" && s.now < step.r.seen
    ensures StaysRecent(After(s, step))
  {
    match step
    case Find(call, r) =>
      FindStands(s, call, r);
      FindIsLookup(s, call, r);
      LookupKeepsRecent(View(s), s.found, s.now, r);
    case Spend(call, at) =>
      SpendStands(s, call, at);
      SpendKeepsRecent(View(s), View(After(s, step)), s.found, s.now, at);
  }

  lemma InitialIsRecent(s: System)
    requires Initial(s)
    ensures StaysRecent(s)
  {
    assert View(s).buckets == map[];
  }

  lemma {:induction false} MapsStayRecent(states: seq<System>, steps: seq<Step>, i: nat)
    requires IsRun(states, steps) && NamedFinds(steps) && ClockMoves(states, steps) && i <= |steps|
    ensures StaysRecent(states[i])
  {
    if i == 0 {
      InitialIsRecent(states[0]);
    } else {
      MapsStayRecent(states, steps, i - 1);
      BucketsStand(states, steps, i - 1);
      assert StepAt(states, steps, i - 1);
      StepStaysRecent(states[i - 1], steps[i - 1]);
    }
  }

  /**
   In every interleaving the resident addresses are exactly the maxBuckets most recent distinct ones, in
   the order in which calls passed the limiter's mutex.
  */
  lemma ResidentsAreMostRecent(states: seq<System>, steps: seq<Step>, i: nat)
    requires IsRun(states, steps) && NamedFinds(steps) && ClockMoves(states, steps) && i <= |steps|
    ensures var s := states[i];
            && s.refs.Keys == s.lastSeen.Keys && |s.refs| <= s.maxBuckets
            && s.lastSeen.Keys == set ip | ip in First(MostRecent(s.found), s.maxBuckets)
  {
    MapsStayRecent(states, steps, i);
  }
}
