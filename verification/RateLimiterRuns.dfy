/**
 Whole runs of the rate limiter. Two results: the resident addresses are exactly the
 maxBuckets most recently requested distinct ones, and every decision is the one the full request
 log of the address, kept since it last became resident, would give.
*/
module RateLimiterRuns {
  import opened TokenBucket
  import opened RateLimiter
  import opened Wrappers

  // ---- The scan for the least recently seen address ----

  /**
   The scan returns a key seen no later than any other, in every order, unless the empty address is among the
   keys.
  */
  lemma {:induction false} ScanFindsMinimum(order: seq<string>, lastSeen: map<string, real>)
    requires forall ip | ip in order :: ip in lastSeen
    requires "" !in order && order != []
    ensures var oldest := ScanOldest(order, lastSeen);
            oldest in order && forall ip | ip in order :: lastSeen[oldest] <= lastSeen[ip]
  {
    var rest := order[..|order| - 1];
    if rest != [] {
      ScanFindsMinimum(rest, lastSeen);
    }
    assert forall ip | ip in order :: ip in rest || ip == order[|order| - 1];
  }

  lemma {:induction false} ScanKeepsStrictMinimum(order: seq<string>, lastSeen: map<string, real>, k: string)
    requires forall ip | ip in order :: ip in lastSeen
    requires k in order && k != ""
    requires forall ip | ip in order && ip != k :: lastSeen[k] < lastSeen[ip]
    ensures ScanOldest(order, lastSeen) == k
  {
    var rest := order[..|order| - 1];
    if k in rest {
      ScanKeepsStrictMinimum(rest, lastSeen, k);
    } else {
      assert k == order[|order| - 1];
      var best := ScanOldest(rest, lastSeen);
      assert best == "" || best in rest;
    }
  }

  /**
   The exact condition under which evictOldest does what it says: with distinct timestamps it
   removes the least recently seen address if and only if that address is not the empty string.
  */
  lemma EvictsLeastRecentIffNonEmpty(l: Limiter, order: seq<string>, k: string)
    requires IsOrder(order, l.lastSeen) && |l.buckets| > 0 && k in l.lastSeen
    requires forall ip | ip in l.lastSeen && ip != k :: l.lastSeen[k] < l.lastSeen[ip]
    ensures EvictOldest(l, order).0.lastSeen == l.lastSeen - {k} <==> k != ""
  {
    if k != "" {
      ScanKeepsStrictMinimum(order, l.lastSeen, k);
    } else {
      assert "" in EvictOldest(l, order).0.lastSeen;
    }
  }

  // ---- Runs ----

  /**
   A run: the limiter before each call and after the last, with each scan order listing lastSeen as
   it is at that call.
  */
  ghost predicate IsRun(states: seq<Limiter>, trace: seq<Request>) {
    && |states| == |trace| + 1
    && states[0].buckets == map[] && states[0].lastSeen == map[]
    && states[0].maxBuckets >= 1
    && (forall i | 0 <= i < |trace| :: StepAt(states, trace, i))
  }

  ghost predicate StepAt(states: seq<Limiter>, trace: seq<Request>, i: nat) {
    i < |trace| && i + 1 < |states| && IsStep(states[i], trace[i], states[i + 1])
  }

  ghost predicate IsStep(l: Limiter, r: Request, l': Limiter) {
    IsOrder(r.order, l.lastSeen) && l' == Allow(l, r).0
  }

  /** The clock moves between the critical sections of successive requests, and forward within each. */
  ghost predicate StrictClock(trace: seq<Request>) {
    && (forall i, j | 0 <= i < j < |trace| :: trace[i].seen < trace[j].seen)
    && (forall i | 0 <= i < |trace| :: trace[i].created <= trace[i].seen <= trace[i].taken)
  }

  ghost predicate NamedAddresses(trace: seq<Request>) {
    forall i | 0 <= i < |trace| :: trace[i].ip != ""
  }

  ghost predicate InStep(l: Limiter) {
    l.maxBuckets >= 1 && l.buckets.Keys == l.lastSeen.Keys && "" !in l.lastSeen
  }

  ghost predicate Bounded(l: Limiter) {
    InStep(l) && |l.buckets| <= l.maxBuckets
  }

  /**
   With no empty address the map is bounded by maxBuckets and the two maps keep the same keys,
   whatever the clock does and in whatever order the maps are ranged over.
  */
  lemma {:induction false} MapsBoundedAndInStep(states: seq<Limiter>, trace: seq<Request>, i: nat)
    requires IsRun(states, trace) && NamedAddresses(trace) && i <= |trace|
    ensures Bounded(states[i])
  {
    if i > 0 {
      MapsBoundedAndInStep(states, trace, i - 1);
      assert StepAt(states, trace, i - 1);
      LookupKeepsBound(states[i - 1], trace[i - 1]);
      TakingKeepsKeys(states[i - 1], trace[i - 1]);
    }
  }

  lemma TakingKeepsKeys(l: Limiter, r: Request)
    requires IsOrder(r.order, l.lastSeen)
    ensures Allow(l, r).0.buckets.Keys == Lookup(l, r).buckets.Keys
    ensures |Allow(l, r).0.buckets| == |Lookup(l, r).buckets|
    ensures Allow(l, r).0.lastSeen == Lookup(l, r).lastSeen
  {
    assert Allow(l, r).0.buckets.Keys == Lookup(l, r).buckets.Keys;
  }

  lemma EvictionFreesASlot(l: Limiter, order: seq<string>)
    requires InStep(l) && |l.buckets| > 0 && IsOrder(order, l.lastSeen)
    ensures var room := EvictOldest(l, order).0; InStep(room) && |room.buckets| == |l.buckets| - 1
  {
    assert |l.buckets.Keys| > 0;
    var some :| some in l.buckets.Keys;
    assert some in order;
    ScanFindsMinimum(order, l.lastSeen);
    var oldest := ScanOldest(order, l.lastSeen);
    var room := EvictOldest(l, order).0;
    assert room.buckets.Keys == l.buckets.Keys - {oldest};
    assert room.lastSeen.Keys == l.lastSeen.Keys - {oldest};
    assert |room.buckets.Keys| == |l.buckets.Keys| - 1;
  }

  lemma InsertingKeepsBound(room: Limiter, ip: string, f: Limiter)
    requires InStep(room) && |room.buckets| < room.maxBuckets && ip != ""
    requires f.buckets.Keys == room.buckets.Keys + {ip} && f.lastSeen.Keys == room.lastSeen.Keys + {ip}
    requires f.maxBuckets == room.maxBuckets
    ensures Bounded(f)
  {
    assert |f.buckets| == |f.buckets.Keys|;
  }

  lemma ResidentLookupKeepsBound(l: Limiter, r: Request)
    requires Bounded(l) && IsOrder(r.order, l.lastSeen) && r.ip in l.buckets
    ensures Bounded(Lookup(l, r))
  {
    assert Lookup(l, r).lastSeen.Keys == l.lastSeen.Keys;
  }

  lemma NewcomerLookupKeepsBound(l: Limiter, r: Request)
    requires Bounded(l) && r.ip !in l.buckets && |l.buckets| < l.maxBuckets && r.ip != ""
    requires forall ip | ip in r.order :: ip in l.lastSeen
    ensures Bounded(Lookup(l, r))
  {
    InsertingKeepsBound(l, r.ip, Lookup(l, r));
  }

  lemma EvictingLookupKeepsBound(l: Limiter, r: Request)
    requires Bounded(l) && r.ip !in l.buckets && |l.buckets| >= l.maxBuckets && r.ip != ""
    requires IsOrder(r.order, l.lastSeen)
    ensures Bounded(Lookup(l, r))
  {
    EvictionFreesASlot(l, r.order);
    InsertingKeepsBound(EvictOldest(l, r.order).0, r.ip, Lookup(l, r));
  }

  lemma LookupKeepsBound(l: Limiter, r: Request)
    requires Bounded(l) && IsOrder(r.order, l.lastSeen) && r.ip != ""
    ensures Bounded(Lookup(l, r))
  {
    if r.ip in l.buckets {
      ResidentLookupKeepsBound(l, r);
    } else if |l.buckets| >= l.maxBuckets {
      EvictingLookupKeepsBound(l, r);
    } else {
      NewcomerLookupKeepsBound(l, r);
    }
  }

  // ---- When the map is bounded ----

  ghost predicate Over(trace: seq<Request>, addresses: iset<string>) {
    forall i | 0 <= i < |trace| :: trace[i].ip in addresses
  }

  /**
   On every run over the addresses the map holds at most n buckets; the clock may be required to move forward
   or not.
  */
  ghost predicate AlwaysBounded(n: nat, addresses: iset<string>, clock: bool) {
    forall states: seq<Limiter>, trace: seq<Request>, i: nat | IsRun(states, trace) && states[0].maxBuckets == n
        && Over(trace, addresses)
      && (clock ==> StrictClock(trace)) && i <= |trace| :: |states[i].buckets| <= n
  }

  ghost predicate AtMost(addresses: iset<string>, n: nat) {
    forall s: seq<string> | Distinct(s) && (forall x | x in s :: x in addresses) :: |s| <= n
  }

  lemma {:induction false} ListOf(keys: set<string>) returns (s: seq<string>)
    ensures Distinct(s) && |s| == |keys| && forall x :: x in s <==> x in keys
    decreases |keys|
  {
    if keys == {} {
      s := [];
    } else {
      var x :| x in keys;
      var rest := ListOf(keys - {x});
      s := [x] + rest;
      ConsDistinct(x, rest);
    }
  }

  /** Only addresses that were requested are resident. */
  lemma {:induction false} KeysWereRequested(states: seq<Limiter>, trace: seq<Request>, i: nat, addresses: iset<string>)
    requires IsRun(states, trace) && Over(trace, addresses) && i <= |trace|
    ensures forall ip | ip in states[i].buckets :: ip in addresses
    ensures states[i].maxBuckets == states[0].maxBuckets
  {
    if i > 0 {
      KeysWereRequested(states, trace, i - 1, addresses);
      assert StepAt(states, trace, i - 1);
      TakingKeepsKeys(states[i - 1], trace[i - 1]);
    }
  }

  lemma FewAddressesBounded(n: nat, addresses: iset<string>, states: seq<Limiter>, trace: seq<Request>, i: nat)
    requires IsRun(states, trace) && states[0].maxBuckets == n && Over(trace, addresses) && i <= |trace|
    requires "" !in addresses || AtMost(addresses, n)
    ensures |states[i].buckets| <= n
  {
    KeysWereRequested(states, trace, i, addresses);
    if "" !in addresses {
      MapsBoundedAndInStep(states, trace, i);
    } else {
      var s := ListOf(states[i].buckets.Keys);
      assert |s| <= n;
    }
  }

  lemma RunAppend(states: seq<Limiter>, trace: seq<Request>, r: Request)
    requires IsRun(states, trace) && IsOrder(r.order, states[|trace|].lastSeen)
    ensures IsRun(states + [Allow(states[|trace|], r).0], trace + [r])
  {
    var states', trace' := states + [Allow(states[|trace|], r).0], trace + [r];
    forall i | 0 <= i < |trace'|
      ensures StepAt(states', trace', i)
    {
      if i < |trace| {
        assert StepAt(states, trace, i);
      }
    }
  }

  /** The empty address, seen before all others and scanned last, stops the eviction. */
  lemma EmptyStopsEviction(l: Limiter, others: seq<string>)
    requires "" in l.lastSeen && "" !in others
    requires forall ip | ip in others :: ip in l.lastSeen && l.lastSeen[""] < l.lastSeen[ip]
    ensures EvictOldest(l, others + [""]) == (l, false)
  {
    var order := others + [""];
    assert order[..|order| - 1] == others;
    assert ScanOldest(order, l.lastSeen) == "";
  }

  /** After the empty address and k others all of them are resident, and the empty one is the oldest. */
  ghost predicate Crowded(l: Limiter, others: seq<string>, n: nat) {
    && l.maxBuckets == n && |l.buckets| == |others| + 1
    && (forall ip :: ip in l.buckets <==> ip == "" || ip in others)
    && l.lastSeen.Keys == l.buckets.Keys
    && forall ip | ip in others :: l.lastSeen[""] < l.lastSeen[ip]
  }

  lemma NothingEvicted(l: Limiter, others: seq<string>, n: nat, r: Request)
    requires Crowded(l, others, n) && "" !in others && r.ip != "" && r.ip !in others && r.order == others + [""]
    ensures Lookup(l, r)
            == l.(buckets := l.buckets[r.ip := Fresh(l.rate, r.created)], lastSeen := l.lastSeen[r.ip := r.seen])
  {
    EmptyStopsEviction(l, others);
  }

  lemma CrowdedNext(l: Limiter, others: seq<string>, n: nat, ip: string, time: real)
    requires Crowded(l, others, n) && Distinct(others) && "" !in others && ip != "" && ip !in others
    requires l.lastSeen[""] < time
    ensures IsOrder(others + [""], l.lastSeen)
    ensures var l' := Allow(l, Request(ip, others + [""], time, time, time)).0;
            Crowded(l', others + [ip], n) && l'.lastSeen[""] == l.lastSeen[""]
  {
    var r := Request(ip, others + [""], time, time, time);
    NothingEvicted(l, others, n, r);
    TakingKeepsKeys(l, r);
    var found := Lookup(l, r);
    assert found.buckets.Keys == l.buckets.Keys + {ip};
    assert |found.buckets| == |found.buckets.Keys|;
    assert Crowded(found, others + [ip], n);
  }

  lemma CrowdingStart(n: nat) returns (states: seq<Limiter>, trace: seq<Request>)
    requires n >= 1
    ensures IsRun(states, trace) && trace == [Request("", [], 0.0, 0.0, 0.0)]
    ensures states[0].maxBuckets == n && Crowded(states[1], [], n) && states[1].lastSeen[""] == 0.0
  {
    var l0, r := NewLimiter(10, 20, n), Request("", [], 0.0, 0.0, 0.0);
    states, trace := [l0, Allow(l0, r).0], [r];
    assert states[1].buckets.Keys == {""};
    assert |states[1].buckets| == |states[1].buckets.Keys|;
    assert StepAt(states, trace, 0);
  }

  ghost predicate CrowdingTrace(trace: seq<Request>, others: seq<string>) {
    && |trace| == |others| + 1
    && trace[0].ip == "" && (forall i | 0 <= i < |others| :: trace[i + 1].ip == others[i])
    && forall i | 0 <= i < |trace| :: trace[i].created == trace[i].seen == trace[i].taken == i as real
  }

  lemma {:induction false} CrowdingRun(n: nat, others: seq<string>) returns (states: seq<Limiter>, trace: seq<Request>)
    requires n >= 1 && Distinct(others) && "" !in others
    ensures IsRun(states, trace) && CrowdingTrace(trace, others)
    ensures states[0].maxBuckets == n && Crowded(states[|trace|], others, n) && states[|trace|].lastSeen[""] == 0.0
  {
    if others == [] {
      states, trace := CrowdingStart(n);
    } else {
      var before, ip := others[..|others| - 1], others[|others| - 1];
      states, trace := CrowdingRun(n, before);
      assert ip !in before && before + [ip] == others;
      states, trace := CrowdingStep(n, before, ip, states, trace);
    }
  }

  lemma CrowdingStep(n: nat, others: seq<string>, ip: string, states: seq<Limiter>, trace: seq<Request>)
      returns (states': seq<Limiter>, trace': seq<Request>)
    requires n >= 1 && Distinct(others) && "" !in others && ip != "" && ip !in others
    requires IsRun(states, trace) && CrowdingTrace(trace, others)
    requires Crowded(states[|trace|], others, n) && states[|trace|].lastSeen[""] == 0.0
    ensures IsRun(states', trace') && CrowdingTrace(trace', others + [ip]) && states'[0] == states[0]
    ensures Crowded(states'[|trace'|], others + [ip], n) && states'[|trace'|].lastSeen[""] == 0.0
  {
    var l, time := states[|trace|], |trace| as real;
    var r := Request(ip, others + [""], time, time, time);
    CrowdedNext(l, others, n, ip, time);
    RunAppend(states, trace, r);
    CrowdingTraceNext(trace, others, r);
    states', trace' := states + [Allow(l, r).0], trace + [r];
  }

  lemma CrowdingTraceNext(trace: seq<Request>, others: seq<string>, r: Request)
    requires CrowdingTrace(trace, others) && r.created == r.seen == r.taken == |trace| as real
    ensures CrowdingTrace(trace + [r], others + [r.ip])
  {
  }

  lemma {:induction false} WithoutLength(s: seq<string>, x: string)
    requires Distinct(s)
    ensures |Without(s, x)| >= |s| - 1
  {
    if s != [] {
      if s[0] == x {
        assert x !in s[1..];
        WithoutAbsent(s[1..], x);
      } else {
        WithoutLength(s[1..], x);
      }
    }
  }

  /** The empty address and n others, more than the map may hold: a run with a moving clock that outgrows it. */
  lemma EmptyAddressBreaksBound(n: nat, addresses: iset<string>) returns (states: seq<Limiter>, trace: seq<Request>)
    requires n >= 1 && "" in addresses && !AtMost(addresses, n)
    ensures IsRun(states, trace) && StrictClock(trace) && Over(trace, addresses) && states[0].maxBuckets == n
    ensures |states[|trace|].buckets| > n
  {
    var s: seq<string> :| Distinct(s) && (forall x | x in s :: x in addresses) && |s| > n;
    WithoutKeepsDistinct(s, "");
    WithoutLength(s, "");
    states, trace := CrowdingRun(n, Without(s, ""));
    forall i | 0 <= i < |trace|
      ensures trace[i].ip in addresses
    {
      if i > 0 {
        assert trace[i].ip == Without(s, "")[i - 1];
      }
    }
  }

  /**
   The map stays within its bound on every run over the given addresses if and only if the empty one is
   not among them or there are no more of them than buckets, whether or not the clock moves forward.
  */
  lemma BoundedIff(n: nat, addresses: iset<string>, clock: bool)
    requires n >= 1
    ensures AlwaysBounded(n, addresses, clock) <==> "" !in addresses || AtMost(addresses, n)
  {
    if "" !in addresses || AtMost(addresses, n) {
      forall states: seq<Limiter>, trace: seq<Request>, i: nat | IsRun(states, trace) && states[0].maxBuckets == n
          && Over(trace, addresses)
        && (clock ==> StrictClock(trace)) && i <= |trace|
        ensures |states[i].buckets| <= n
      {
        FewAddressesBounded(n, addresses, states, trace, i);
      }
    } else {
      var states, trace := EmptyAddressBreaksBound(n, addresses);
    }
  }

  // ---- Least recently used ----

  function Without(s: seq<string>, x: string): (r: seq<string>)
    ensures forall y :: y in r <==> y in s && y != x
    ensures |r| <= |s|
  {
    if s == [] then []
    else if s[0] == x then Without(s[1..], x)
    else [s[0]] + Without(s[1..], x)
  }

  function First(s: seq<string>, n: nat): seq<string> {
    if |s| <= n then s else s[..n]
  }

  /** The distinct addresses of a trace, the most recently requested first: the definition of "recent". */
  function MostRecent(trace: seq<Request>): seq<string> {
    if trace == [] then []
    else var ip := trace[|trace| - 1].ip; [ip] + Without(MostRecent(trace[..|trace| - 1]), ip)
  }

  lemma {:induction false} WithoutAbsent(s: seq<string>, x: string)
    requires x !in s
    ensures Without(s, x) == s
  {
    if s != [] {
      WithoutAbsent(s[1..], x);
    }
  }

  lemma ConsDistinct(x: string, s: seq<string>)
    requires Distinct(s) && x !in s
    ensures Distinct([x] + s)
  {
  }

  lemma {:induction false} WithoutKeepsDistinct(s: seq<string>, x: string)
    requires Distinct(s)
    ensures Distinct(Without(s, x))
  {
    if s != [] {
      WithoutKeepsDistinct(s[1..], x);
      assert s[0] !in s[1..];
      ConsDistinct(s[0], Without(s[1..], x));
    }
  }

  lemma {:induction false} MostRecentDistinct(trace: seq<Request>)
    ensures Distinct(MostRecent(trace))
  {
    if trace != [] {
      var before, ip := trace[..|trace| - 1], trace[|trace| - 1].ip;
      MostRecentDistinct(before);
      WithoutKeepsDistinct(MostRecent(before), ip);
      ConsDistinct(ip, Without(MostRecent(before), ip));
    }
  }

  /** Cutting a recency list at n before or after moving an address to its front comes to the same. */
  lemma {:induction false} FirstWithout(s: seq<string>, x: string, n: nat)
    requires Distinct(s) && n >= 1
    ensures First(Without(First(s, n), x), n - 1) == First(Without(s, x), n - 1)
  {
    if n < |s| {
      var tail := s[1..];
      assert s[..n] == [s[0]] + tail[..n - 1];
      if s[0] == x {
        WithoutAbsent(tail, x);
        WithoutAbsent(tail[..n - 1], x);
      } else if n > 1 {
        FirstWithout(tail, x, n - 1);
        FirstOfCons(s[0], Without(tail, x), n - 1);
        FirstOfCons(s[0], Without(tail[..n - 1], x), n - 1);
      }
    }
  }

  lemma FirstOfCons(x: string, s: seq<string>, n: nat)
    requires n >= 1
    ensures First([x] + s, n) == [x] + First(s, n - 1)
  {
  }

  /** The list is ordered by timestamp, the latest first. */
  ghost predicate Descending(s: seq<string>, at: map<string, real>) {
    s != [] ==>
      && s[0] in at
      && (forall y | y in s[1..] :: y in at && at[y] < at[s[0]])
      && Descending(s[1..], at)
  }

  /** The list names exactly the keys of the map, the latest timestamp first. */
  ghost predicate Recency(s: seq<string>, at: map<string, real>) {
    Descending(s, at) && forall x :: x in s <==> x in at
  }

  lemma {:induction false} DescendingCount(s: seq<string>, at: map<string, real>, m: set<string>)
    requires Descending(s, at) && forall x :: x in s <==> x in m
    ensures |s| == |m|
  {
    if s == [] {
      assert m == {};
    } else {
      DescendingCount(s[1..], at, m - {s[0]});
    }
  }

  lemma RecencyCount(s: seq<string>, at: map<string, real>)
    requires Recency(s, at)
    ensures |s| == |at|
  {
    DescendingCount(s, at, at.Keys);
  }

  lemma {:induction false} DescendingWithout(s: seq<string>, at: map<string, real>, x: string)
    requires Descending(s, at)
    ensures Descending(Without(s, x), at)
  {
    if s != [] {
      DescendingWithout(s[1..], at, x);
      if s[0] != x {
        assert Without(s, x)[1..] == Without(s[1..], x);
      }
    }
  }

  lemma {:induction false} DescendingFrame(s: seq<string>, at: map<string, real>, at': map<string, real>)
    requires Descending(s, at) && forall y | y in s :: y in at && y in at' && at'[y] == at[y]
    ensures Descending(s, at')
  {
    if s != [] {
      DescendingFrame(s[1..], at, at');
    }
  }

  lemma RecencyWithout(s: seq<string>, at: map<string, real>, x: string)
    requires Recency(s, at)
    ensures Recency(Without(s, x), at - {x})
  {
    DescendingWithout(s, at, x);
    DescendingFrame(Without(s, x), at, at - {x});
  }

  lemma RecencyFront(s: seq<string>, at: map<string, real>, x: string, now: real)
    requires Recency(s, at) && x !in s
    requires forall y | y in at :: at[y] < now
    ensures Recency([x] + s, at[x := now])
  {
    DescendingFrame(s, at, at[x := now]);
    assert ([x] + s)[1..] == s;
  }

  lemma {:induction false} LastIsOldest(s: seq<string>, at: map<string, real>, x: string)
    requires Descending(s, at) && x in s && x != s[|s| - 1]
    ensures x in at && s[|s| - 1] in at && at[s[|s| - 1]] < at[x]
  {
    if x != s[0] {
      LastIsOldest(s[1..], at, x);
    } else {
      DescendingNamesKeys(s, at);
    }
  }

  lemma {:induction false} DescendingNamesKeys(s: seq<string>, at: map<string, real>)
    requires Descending(s, at)
    ensures forall y | y in s :: y in at
  {
  }

  lemma {:induction false} WithoutLast(s: seq<string>, at: map<string, real>)
    requires Descending(s, at) && s != []
    ensures Without(s, s[|s| - 1]) == s[..|s| - 1]
  {
    if |s| > 1 {
      WithoutLast(s[1..], at);
      assert s[..|s| - 1] == [s[0]] + s[1..][..|s| - 2];
      assert s[|s| - 1] in s[1..];
    }
  }

  lemma {:induction false} WithoutShrinks(s: seq<string>, x: string)
    requires x in s
    ensures |Without(s, x)| < |s|
  {
    if s[0] != x {
      WithoutShrinks(s[1..], x);
    }
  }

  lemma EvictsLast(l: Limiter, order: seq<string>, recent: seq<string>)
    requires recent != [] && Recency(recent, l.lastSeen) && InStep(l) && IsOrder(order, l.lastSeen)
    ensures EvictOldest(l, order).0.lastSeen == l.lastSeen - {recent[|recent| - 1]}
  {
    var k := recent[|recent| - 1];
    assert k in recent && k in l.lastSeen.Keys;
    forall ip | ip in order && ip != k
      ensures l.lastSeen[k] < l.lastSeen[ip]
    {
      LastIsOldest(recent, l.lastSeen, ip);
    }
    ScanKeepsStrictMinimum(order, l.lastSeen, k);
    assert k in l.buckets;
  }

  /** The timestamps after the critical section: one entry dropped when a new address finds the map full. */
  function SeenAfter(l: Limiter, r: Request, dropped: string): map<string, real> {
    (if r.ip !in l.buckets && |l.buckets| >= l.maxBuckets then l.lastSeen - {dropped} else l.lastSeen)[r.ip := r.seen]
  }

  lemma LookupSeen(l: Limiter, r: Request, recent: seq<string>)
    requires Bounded(l) && IsOrder(r.order, l.lastSeen) && Recency(recent, l.lastSeen)
    ensures recent != [] ==> Lookup(l, r).lastSeen == SeenAfter(l, r, recent[|recent| - 1])
    ensures recent == [] ==> Lookup(l, r).lastSeen == map[r.ip := r.seen]
  {
    RecencyCount(recent, l.lastSeen);
    assert |l.buckets.Keys| == |l.lastSeen.Keys|;
    if recent != [] {
      EvictsLast(l, r.order, recent);
    } else {
      assert l.lastSeen == map[];
    }
  }

  lemma MoveResidentToFront(recent: seq<string>, at: map<string, real>, x: string, now: real, n: nat)
    requires Recency(recent, at) && |recent| <= n && x in recent
    requires forall y | y in at :: at[y] < now
    ensures Recency(First([x] + Without(recent, x), n), at[x := now])
  {
    RecencyWithout(recent, at, x);
    RecencyFront(Without(recent, x), at - {x}, x, now);
    assert at[x := now] == (at - {x})[x := now];
    WithoutShrinks(recent, x);
  }

  lemma MoveNewcomerToFront(recent: seq<string>, at: map<string, real>, x: string, now: real, n: nat)
    requires Recency(recent, at) && 1 <= |recent| == n && x !in recent
    requires forall y | y in at :: at[y] < now
    ensures Recency(First([x] + Without(recent, x), n), (at - {recent[n - 1]})[x := now])
  {
    var k := recent[n - 1];
    WithoutAbsent(recent, x);
    RecencyWithout(recent, at, k);
    WithoutLast(recent, at);
    RecencyFront(recent[..n - 1], at - {k}, x, now);
    assert First([x] + recent, n) == [x] + recent[..n - 1];
  }

  /** One critical section on the recency list: the address moves to the front and the list is cut at n. */
  lemma MoveToFront(recent: seq<string>, at: map<string, real>, x: string, now: real, n: nat, at': map<string, real>)
    requires Recency(recent, at) && |recent| <= n && 1 <= n
    requires forall y | y in at :: at[y] < now
    requires at' == (if x !in at && |recent| >= n then at - {recent[|recent| - 1]} else at)[x := now]
    ensures Recency(First([x] + Without(recent, x), n), at')
  {
    if x in recent {
      MoveResidentToFront(recent, at, x, now, n);
    } else if |recent| == n {
      MoveNewcomerToFront(recent, at, x, now, n);
    } else {
      WithoutAbsent(recent, x);
      RecencyFront(recent, at, x, now);
    }
  }

  /** The recency list of the first i requests, cut at the size of the map. */
  function Recent(states: seq<Limiter>, trace: seq<Request>, i: nat): seq<string>
    requires i <= |trace| && states != []
  {
    First(MostRecent(trace[..i]), states[0].maxBuckets)
  }

  /**
   The bounded map is an LRU set: after any run with named addresses and a moving clock, the keys of
   both maps are exactly the maxBuckets most recently requested distinct addresses.
  */
  lemma ResidentsAreMostRecent(states: seq<Limiter>, trace: seq<Request>, i: nat)
    requires IsRun(states, trace) && StrictClock(trace) && NamedAddresses(trace) && i <= |trace|
    ensures states[i].buckets.Keys == states[i].lastSeen.Keys
    ensures states[i].lastSeen.Keys == set ip | ip in First(MostRecent(trace[..i]), states[0].maxBuckets)
  {
    MapsBoundedAndInStep(states, trace, i);
    SeenInRecencyOrder(states, trace, i);
  }

  ghost predicate SeenBy(at: map<string, real>, now: real) {
    forall x | x in at :: at[x] <= now
  }

  lemma {:induction false} SeenInRecencyOrder(states: seq<Limiter>, trace: seq<Request>, i: nat)
    requires IsRun(states, trace) && StrictClock(trace) && NamedAddresses(trace) && i <= |trace|
    ensures Recency(Recent(states, trace, i), states[i].lastSeen)
    ensures states[i].maxBuckets == states[0].maxBuckets
    ensures if i == 0 then states[i].lastSeen == map[] else SeenBy(states[i].lastSeen, trace[i - 1].seen)
  {
    if i > 0 {
      var l, r := states[i - 1], trace[i - 1];
      SeenInRecencyOrder(states, trace, i - 1);
      MapsBoundedAndInStep(states, trace, i - 1);
      assert StepAt(states, trace, i - 1);
      RecencyStep(l, r, Recent(states, trace, i - 1));
      RecentAdvances(states, trace, i);
    }
  }

  lemma RecencyStep(l: Limiter, r: Request, recent: seq<string>)
    requires Bounded(l) && IsOrder(r.order, l.lastSeen) && Recency(recent, l.lastSeen) && |recent| <= l.maxBuckets
    requires forall y | y in l.lastSeen :: l.lastSeen[y] < r.seen
    ensures var l' := Allow(l, r).0;
            && Recency(First([r.ip] + Without(recent, r.ip), l.maxBuckets), l'.lastSeen)
            && l'.maxBuckets == l.maxBuckets && SeenBy(l'.lastSeen, r.seen)
  {
    LookupSeen(l, r, recent);
    TakingKeepsKeys(l, r);
    SeenAfterRecency(l, r, recent, Lookup(l, r).lastSeen);
  }

  lemma SeenAfterRecency(l: Limiter, r: Request, recent: seq<string>, at': map<string, real>)
    requires Bounded(l) && Recency(recent, l.lastSeen) && |recent| <= l.maxBuckets
    requires forall y | y in l.lastSeen :: l.lastSeen[y] < r.seen
    requires recent != [] ==> at' == SeenAfter(l, r, recent[|recent| - 1])
    requires recent == [] ==> at' == map[r.ip := r.seen]
    ensures Recency(First([r.ip] + Without(recent, r.ip), l.maxBuckets), at')
    ensures SeenBy(at', r.seen)
  {
    RecencyCount(recent, l.lastSeen);
    assert |l.buckets.Keys| == |l.lastSeen.Keys|;
    if recent == [] {
      assert l.lastSeen == map[];
    }
    MoveToFront(recent, l.lastSeen, r.ip, r.seen, l.maxBuckets, at');
  }

  /** One more request moves its address to the front of the recency list, also of the list cut at n. */
  lemma RecencyAdvances(trace: seq<Request>, n: nat)
    requires trace != [] && n >= 1
    ensures var ip, before := trace[|trace| - 1].ip, MostRecent(trace[..|trace| - 1]);
            First(MostRecent(trace), n) == First([ip] + Without(First(before, n), ip), n)
  {
    var ip := trace[|trace| - 1].ip;
    var all := MostRecent(trace[..|trace| - 1]);
    MostRecentDistinct(trace[..|trace| - 1]);
    FirstWithout(all, ip, n);
    FirstOfCons(ip, Without(all, ip), n);
    FirstOfCons(ip, Without(First(all, n), ip), n);
  }

  lemma RecentAdvances(states: seq<Limiter>, trace: seq<Request>, i: nat)
    requires 0 < i <= |trace| && states != [] && states[0].maxBuckets >= 1
    ensures var ip := trace[i - 1].ip;
            Recent(states, trace, i) == First([ip] + Without(Recent(states, trace, i - 1), ip), states[0].maxBuckets)
  {
    assert trace[..i][..i - 1] == trace[..i - 1];
    RecencyAdvances(trace[..i], states[0].maxBuckets);
  }

  // ---- Decisions ----

  function LogOf(logs: map<string, seq<Event>>, ip: string): seq<Event> {
    if ip in logs then logs[ip] else []
  }

  /** An eviction forgets the log of the address, a request extends the log of its own. */
  function NextLogs(logs: map<string, seq<Event>>, l: Limiter, r: Request): map<string, seq<Event>>
    requires forall ip | ip in r.order :: ip in l.lastSeen
  {
    var (l', admitted) := Allow(l, r);
    var resident := map ip | ip in logs && ip in l'.buckets :: logs[ip];
    resident[r.ip := LogOf(resident, r.ip) + [Event(r.taken, admitted)]]
  }

  /** The log of each resident address since it last became resident, after the first i requests. */
  function Logs(states: seq<Limiter>, trace: seq<Request>, i: nat): (logs: map<string, seq<Event>>)
    requires IsRun(states, trace) && i <= |trace|
  {
    if i == 0 then map[]
    else
      assert StepAt(states, trace, i - 1);
      NextLogs(Logs(states, trace, i - 1), states[i - 1], trace[i - 1])
  }

  lemma LookupBuckets(l: Limiter, r: Request, ip: string)
    requires IsOrder(r.order, l.lastSeen)
    requires ip in Lookup(l, r).buckets
    ensures ip in l.buckets ==> Lookup(l, r).buckets[ip] == l.buckets[ip]
    ensures ip !in l.buckets ==> ip == r.ip && Lookup(l, r).buckets[ip] == Fresh(l.rate, r.created)
  {
  }

  ghost predicate LogsTell(l: Limiter, logs: map<string, seq<Event>>) {
    && logs.Keys == l.buckets.Keys
    && forall ip | ip in l.buckets :: Summarises(l.buckets[ip], l.rate, logs[ip])
  }

  lemma NextDecision(l: Limiter, r: Request, logs: map<string, seq<Event>>)
    requires IsOrder(r.order, l.lastSeen) && LogsTell(l, logs) && r.created <= r.taken
    ensures var log := LogOf(logs, r.ip);
            && (Allow(l, r).1 <==> LogAdmits(l.rate, log, r.taken))
            && Summarises(Allow(l, r).0.buckets[r.ip], l.rate, log + [Event(r.taken, Allow(l, r).1)])
  {
    LookupBuckets(l, r, r.ip);
    TakeDecidesAsLog(Lookup(l, r).buckets[r.ip], l.rate, LogOf(logs, r.ip), r.taken);
  }

  lemma OtherLogsUnchanged(l: Limiter, r: Request, logs: map<string, seq<Event>>, ip: string)
    requires IsOrder(r.order, l.lastSeen) && LogsTell(l, logs)
    requires ip in Lookup(l, r).buckets && ip != r.ip
    ensures ip in logs && ip in NextLogs(logs, l, r) && NextLogs(logs, l, r)[ip] == logs[ip]
    ensures Allow(l, r).0.buckets[ip] == l.buckets[ip]
  {
    LookupBuckets(l, r, ip);
  }

  lemma OwnLogExtended(l: Limiter, r: Request, logs: map<string, seq<Event>>)
    requires IsOrder(r.order, l.lastSeen) && LogsTell(l, logs)
    ensures r.ip in NextLogs(logs, l, r)
    ensures NextLogs(logs, l, r)[r.ip] == LogOf(logs, r.ip) + [Event(r.taken, Allow(l, r).1)]
  {
    assert r.ip in Allow(l, r).0.buckets;
  }

  lemma LogKeys(l: Limiter, r: Request, logs: map<string, seq<Event>>)
    requires IsOrder(r.order, l.lastSeen) && LogsTell(l, logs)
    ensures NextLogs(logs, l, r).Keys == Allow(l, r).0.buckets.Keys
  {
    TakingKeepsKeys(l, r);
    forall ip | ip in Lookup(l, r).buckets
      ensures ip in NextLogs(logs, l, r)
    {
      LookupBuckets(l, r, ip);
    }
  }

  lemma LogsTellNext(l: Limiter, r: Request, logs: map<string, seq<Event>>)
    requires IsOrder(r.order, l.lastSeen) && LogsTell(l, logs) && r.created <= r.taken
    ensures LogsTell(Allow(l, r).0, NextLogs(logs, l, r)) && Allow(l, r).0.rate == l.rate
  {
    LogKeys(l, r, logs);
    TakingKeepsKeys(l, r);
    NextDecision(l, r, logs);
    OwnLogExtended(l, r, logs);
    forall ip | ip in Allow(l, r).0.buckets && ip != r.ip
      ensures Summarises(Allow(l, r).0.buckets[ip], l.rate, NextLogs(logs, l, r)[ip])
    {
      OtherLogsUnchanged(l, r, logs, ip);
    }
  }

  /** No bucket is used at an earlier time than it was made: all that the decisions need of the clock. */
  ghost predicate UsedAfterMade(trace: seq<Request>) {
    forall i | 0 <= i < |trace| :: trace[i].created <= trace[i].taken
  }

  lemma {:induction false} BucketsStandForLogs(states: seq<Limiter>, trace: seq<Request>, i: nat)
    requires IsRun(states, trace) && UsedAfterMade(trace) && i <= |trace|
    ensures LogsTell(states[i], Logs(states, trace, i)) && states[i].rate == states[0].rate
  {
    if i > 0 {
      BucketsStandForLogs(states, trace, i - 1);
      var l, r, l', logs := states[i - 1], trace[i - 1], states[i], Logs(states, trace, i - 1);
      assert StepAt(states, trace, i - 1);
      assert Logs(states, trace, i) == NextLogs(logs, l, r);
      LogsTellNext(l, r, logs);
    }
  }

  /**
   Every decision of every run: request i is admitted exactly when the rule over the full log of its
   address, kept since the address last became resident, admits it.
  */
  lemma EveryDecisionIsTheLogRule(states: seq<Limiter>, trace: seq<Request>, i: nat)
    requires IsRun(states, trace) && UsedAfterMade(trace) && i < |trace|
    ensures IsStep(states[i], trace[i], states[i + 1])
    ensures var r := trace[i];
            Allow(states[i], r).1 <==> LogAdmits(states[0].rate, LogOf(Logs(states, trace, i), r.ip), r.taken)
  {
    BucketsStandForLogs(states, trace, i);
    assert StepAt(states, trace, i);
    NextDecision(states[i], trace[i], Logs(states, trace, i));
  }
}
