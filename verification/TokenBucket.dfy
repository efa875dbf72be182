/**
 The per-IP token bucket of the MCP gateway. The bucket keeps two numbers; the
 specification it is proved against keeps the whole request log.

 Time and tokens are real numbers: the float64 rounding of the program is not modelled.
*/
module TokenBucket {

  /** What a bucket remembers: the tokens left and the clock reading of the last request. */
  datatype Bucket = Bucket(tokens: real, lastTime: real)

  /** The configured rate (tokens a second) and capacity. */
  datatype Rate = Rate(rps: nat, burst: nat)

  /** One request as a full log would record it. */
  datatype Event = Event(at: real, admitted: bool)

  function Min(a: real, b: real): real {
    if a <= b then a else b
  }

  /**
   n * x, by repeated addition: the tokens that accrue at n a second in x seconds. This form keeps
   the proofs linear; TimesIsProduct says what it is.
  */
  function Times(n: nat, x: real): (p: real)
    ensures x >= 0.0 ==> p >= 0.0
  {
    if n == 0 then 0.0 else Times(n - 1, x) + x
  }

  lemma {:induction false} TimesIsProduct(n: nat, x: real)
    ensures Times(n, x) == n as real * x
  {
    if n > 0 {
      TimesIsProduct(n - 1, x);
      assert n as real * x == (n - 1) as real * x + x;
    }
  }

  lemma {:induction false} TimesAdds(n: nat, x: real, y: real)
    ensures Times(n, x + y) == Times(n, x) + Times(n, y)
  {
    if n > 0 {
      TimesAdds(n - 1, x, y);
    }
  }

  lemma {:induction false} TimesZero(n: nat)
    ensures Times(n, 0.0) == 0.0
  {
    if n > 0 {
      TimesZero(n - 1);
    }
  }

  // ---- The program: refill in proportion to the elapsed time, cap, consume one ----

  function Fresh(rate: Rate, now: real): Bucket {
    Bucket(rate.burst as real, now)
  }

  function Refill(b: Bucket, rate: Rate, now: real): real {
    Min(b.tokens + Times(rate.rps, now - b.lastTime), rate.burst as real)
  }

  function Take(b: Bucket, rate: Rate, now: real): (Bucket, bool) {
    var tokens := Refill(b, rate, now);
    if tokens >= 1.0 then (Bucket(tokens - 1.0, now), true) else (Bucket(tokens, now), false)
  }

  /** A bucket as the program holds it: an object that requests share and update in place. */
  class IpBucket {
    var tokens: real
    var lastTime: real

    function Value(): Bucket
      reads this
    {
      Bucket(tokens, lastTime)
    }

    constructor (rate: Rate, now: real)
      ensures Value() == Fresh(rate, now)
    {
      tokens := rate.burst as real;
      lastTime := now;
    }

    /** The critical section under the bucket's own mutex. */
    method TakeToken(rate: Rate, now: real) returns (admitted: bool)
      modifies this
      ensures (Value(), admitted) == Take(old(Value()), rate, now)
    {
      var elapsed := now - lastTime;
      lastTime := now;
      tokens := tokens + elapsed * (rate.rps as real);
      if tokens > rate.burst as real {
        tokens := rate.burst as real;
      }
      assert tokens == Refill(old(Value()), rate, now) by { TimesIsProduct(rate.rps, elapsed); }
      if tokens >= 1.0 {
        tokens := tokens - 1.0;
        return true;
      }
      return false;
    }
  }

  // ---- The rule over the whole log ----

  /** How many requests of the log were admitted. */
  function Admitted(log: seq<Event>): nat {
    if log == [] then 0
    else Admitted(log[..|log| - 1]) + (if log[|log| - 1].admitted then 1 else 0)
  }

  /** What a bucket may admit in a window of the given length: burst + rps * length. */
  function Allowance(rate: Rate, length: real): real {
    rate.burst as real + Times(rate.rps, length)
  }

  /** What the requests from the i-th on have left of the allowance that had accrued, by `now`, since the i-th. */
  function Slack(rate: Rate, log: seq<Event>, i: nat, now: real): real
    requires i < |log|
  {
    Allowance(rate, now - log[i].at) - Admitted(log[i..]) as real
  }

  /**
   The sliding-window rule: a request is admitted when, counted from every request of the log and
   from itself, one more admission stays within burst + rps * elapsed.
  */
  ghost predicate LogAdmits(rate: Rate, log: seq<Event>, now: real) {
    1 <= rate.burst && forall i | 0 <= i < |log| :: Slack(rate, log, i, now) >= 1.0
  }

  /** The log a bucket produces for requests at the given times. */
  function Replay(rate: Rate, created: real, times: seq<real>): (r: (Bucket, seq<Event>))
    ensures |r.1| == |times|
    ensures forall i | 0 <= i < |times| :: r.1[i].at == times[i]
  {
    if times == [] then (Fresh(rate, created), [])
    else
      var n := |times| - 1;
      var (b, log) := Replay(rate, created, times[..n]);
      var (b', ok) := Take(b, rate, times[n]);
      (b', log + [Event(times[n], ok)])
  }

  /** The least slack of the first k requests of the log. */
  function LeastSlack(rate: Rate, log: seq<Event>, k: nat, now: real): real
    requires 1 <= k <= |log|
  {
    if k == 1 then Slack(rate, log, 0, now)
    else Min(LeastSlack(rate, log, k - 1, now), Slack(rate, log, k - 1, now))
  }

  /** What ties the two numbers of a used bucket to the log: the tokens are the least slack of any request. */
  ghost predicate Summarises(b: Bucket, rate: Rate, log: seq<Event>) {
    log != [] && b == Bucket(LeastSlack(rate, log, |log|, b.lastTime), log[|log| - 1].at)
  }

  /** A bucket that stands for its log, including one nobody has used since it was created. */
  ghost predicate StandsFor(b: Bucket, rate: Rate, log: seq<Event>, now: real) {
    if log == [] then b.tokens == rate.burst as real && b.lastTime <= now else Summarises(b, rate, log)
  }

  lemma SlackLater(rate: Rate, log: seq<Event>, i: nat, t: real, now: real)
    requires i < |log|
    ensures Slack(rate, log, i, now) == Slack(rate, log, i, t) + Times(rate.rps, now - t)
  {
    TimesAdds(rate.rps, t - log[i].at, now - t);
  }

  lemma SlackExtended(rate: Rate, log: seq<Event>, e: Event, i: nat, now: real)
    requires i < |log|
    ensures Slack(rate, log + [e], i, now) == Slack(rate, log, i, now) - (if e.admitted then 1.0 else 0.0)
  {
    var tail := (log + [e])[i..];
    assert tail == log[i..] + [e];
    assert tail[..|tail| - 1] == log[i..];
  }

  lemma {:induction false} LeastSlackLater(rate: Rate, log: seq<Event>, k: nat, t: real, now: real)
    requires 1 <= k <= |log|
    ensures LeastSlack(rate, log, k, now) == LeastSlack(rate, log, k, t) + Times(rate.rps, now - t)
  {
    SlackLater(rate, log, k - 1, t, now);
    if k > 1 {
      LeastSlackLater(rate, log, k - 1, t, now);
    }
  }

  lemma {:induction false} LeastSlackExtended(rate: Rate, log: seq<Event>, e: Event, k: nat, now: real)
    requires 1 <= k <= |log|
    ensures LeastSlack(rate, log + [e], k, now) == LeastSlack(rate, log, k, now) - (if e.admitted then 1.0 else 0.0)
  {
    SlackExtended(rate, log, e, k - 1, now);
    if k > 1 {
      LeastSlackExtended(rate, log, e, k - 1, now);
    }
  }

  lemma {:induction false} LeastSlackAtLeastOne(rate: Rate, log: seq<Event>, k: nat, now: real)
    requires 1 <= k <= |log|
    ensures LeastSlack(rate, log, k, now) >= 1.0 <==> forall i | 0 <= i < k :: Slack(rate, log, i, now) >= 1.0
  {
    if k > 1 {
      LeastSlackAtLeastOne(rate, log, k - 1, now);
    }
  }

  /** Refilling gives the least of the burst and every slack of the log. */
  lemma RefillIsLeastSlack(b: Bucket, rate: Rate, log: seq<Event>, now: real)
    requires StandsFor(b, rate, log, now)
    ensures Refill(b, rate, now) ==
            if log == [] then rate.burst as real else Min(LeastSlack(rate, log, |log|, now), rate.burst as real)
  {
    if log == [] {
      assert Times(rate.rps, now - b.lastTime) >= 0.0;
    } else {
      LeastSlackLater(rate, log, |log|, b.lastTime, now);
    }
  }

  /** The log rule asks for one token of slack everywhere, the newest request's own allowance included. */
  lemma RuleIsLeastSlack(b: Bucket, rate: Rate, log: seq<Event>, now: real)
    requires StandsFor(b, rate, log, now)
    ensures LogAdmits(rate, log, now) <==> Refill(b, rate, now) >= 1.0
  {
    RefillIsLeastSlack(b, rate, log, now);
    if log != [] {
      LeastSlackAtLeastOne(rate, log, |log|, now);
    }
  }

  lemma NewestSlack(rate: Rate, log: seq<Event>, e: Event)
    ensures Slack(rate, log + [e], |log|, e.at) == rate.burst as real - (if e.admitted then 1.0 else 0.0)
  {
    assert (log + [e])[|log|..] == [e];
    assert Admitted([e]) == Admitted([e][..0]) + (if e.admitted then 1 else 0);
    assert [e][..0] == [];
    TimesZero(rate.rps);
  }

  /** One step: the two-number bucket decides as the log rule does, and goes on standing for the log. */
  lemma TakeDecidesAsLog(b: Bucket, rate: Rate, log: seq<Event>, now: real)
    requires StandsFor(b, rate, log, now)
    ensures Take(b, rate, now).1 <==> LogAdmits(rate, log, now)
    ensures Summarises(Take(b, rate, now).0, rate, log + [Event(now, Take(b, rate, now).1)])
  {
    RuleIsLeastSlack(b, rate, log, now);
    RefillIsLeastSlack(b, rate, log, now);
    var e := Event(now, Take(b, rate, now).1);
    NewestSlack(rate, log, e);
    if log != [] {
      LeastSlackExtended(rate, log, e, |log|, now);
    }
  }

  lemma {:induction false} ReplaySummarises(rate: Rate, created: real, times: seq<real>)
    requires times != [] ==> created <= times[0]
    ensures var (b, log) := Replay(rate, created, times);
            if times == [] then b == Fresh(rate, created) else Summarises(b, rate, log)
  {
    if times != [] {
      var n := |times| - 1;
      ReplaySummarises(rate, created, times[..n]);
      var (b, log) := Replay(rate, created, times[..n]);
      TakeDecidesAsLog(b, rate, log, times[n]);
    }
  }

  lemma {:induction false} ReplayPrefix(rate: Rate, created: real, times: seq<real>, j: nat)
    requires j <= |times|
    ensures Replay(rate, created, times).1[..j] == Replay(rate, created, times[..j]).1
  {
    var n := |times| - 1;
    if j == |times| {
      assert times[..j] == times;
    } else {
      ReplayPrefix(rate, created, times[..n], j);
      assert times[..n][..j] == times[..j];
      assert Replay(rate, created, times).1
             == Replay(rate, created, times[..n]).1 + [Replay(rate, created, times).1[n]];
    }
  }

  /**
   The main result: over any sequence of requests to one bucket, request j is admitted exactly
   when the rule over the full log admits it.
  */
  lemma BucketDecidesAsFullLog(rate: Rate, created: real, times: seq<real>, j: nat)
    requires j < |times| && created <= times[0]
    ensures var log := Replay(rate, created, times).1;
            log[j].admitted <==> LogAdmits(rate, log[..j], times[j])
  {
    var log := Replay(rate, created, times).1;
    ReplayPrefix(rate, created, times, j);
    ReplayPrefix(rate, created, times, j + 1);
    assert log[..j + 1][j] == log[j];
    assert times[..j + 1][..j] == times[..j];
    ReplaySummarises(rate, created, times[..j]);
    TakeDecidesAsLog(Replay(rate, created, times[..j]).0, rate, log[..j], times[j]);
  }

  ghost predicate NonDecreasing(times: seq<real>) {
    forall i, j | 0 <= i <= j < |times| :: times[i] <= times[j]
  }

  lemma AdmittedExtends(log: seq<Event>, i: nat, j: nat)
    requires i <= j < |log|
    ensures Admitted(log[i..j + 1]) == Admitted(log[i..j]) + (if log[j].admitted then 1 else 0)
  {
    var window := log[i..j + 1];
    assert window[..|window| - 1] == log[i..j];
  }

  lemma WindowEndingInAdmission(rate: Rate, log: seq<Event>, i: nat, j: nat)
    requires i <= j < |log| && log[j].admitted && LogAdmits(rate, log[..j], log[j].at)
    ensures Admitted(log[i..j + 1]) as real <= Allowance(rate, log[j].at - log[i].at)
  {
    AdmittedExtends(log, i, j);
    if i == j {
      assert log[i..j] == [];
      TimesZero(rate.rps);
    } else {
      var before := log[..j];
      assert before[i..] == log[i..j] && before[i] == log[i];
      assert Slack(rate, before, i, log[j].at) >= 1.0;
    }
  }

  lemma AllowanceGrows(rate: Rate, shorter: real, longer: real)
    requires shorter <= longer
    ensures Allowance(rate, shorter) <= Allowance(rate, longer)
  {
    TimesAdds(rate.rps, shorter, longer - shorter);
  }

  /** Any window of requests, from the i-th up to the j-th, admits at most burst + rps * its length. */
  lemma {:induction false} WindowBound(rate: Rate, created: real, times: seq<real>, i: nat, j: nat)
    requires i <= j < |times| && created <= times[0] && NonDecreasing(times)
    ensures Admitted(Replay(rate, created, times).1[i..j + 1]) as real <= Allowance(rate, times[j] - times[i])
    decreases j
  {
    var log := Replay(rate, created, times).1;
    AdmittedExtends(log, i, j);
    if log[j].admitted {
      BucketDecidesAsFullLog(rate, created, times, j);
      WindowEndingInAdmission(rate, log, i, j);
    } else if i < j {
      WindowBound(rate, created, times, i, j - 1);
      AllowanceGrows(rate, times[j - 1] - times[i], times[j] - times[i]);
    } else {
      assert log[i..j] == [];
      AllowanceGrows(rate, 0.0, times[j] - times[i]);
      TimesZero(rate.rps);
    }
  }

  lemma TakeKeepsTokensNonNegative(b: Bucket, rate: Rate, now: real)
    requires b.tokens >= 0.0 && b.lastTime <= now
    ensures Take(b, rate, now).0.tokens >= 0.0
  {
    assert Times(rate.rps, now - b.lastTime) >= 0.0;
  }

  /** A bucket never owes tokens. */
  lemma {:induction false} TokensNonNegative(rate: Rate, created: real, times: seq<real>)
    requires times != [] ==> created <= times[0]
    requires NonDecreasing(times)
    ensures var b := Replay(rate, created, times).0;
            b.tokens >= 0.0 && b.lastTime == if times == [] then created else times[|times| - 1]
  {
    if times != [] {
      var n := |times| - 1;
      TokensNonNegative(rate, created, times[..n]);
      TakeKeepsTokensNonNegative(Replay(rate, created, times[..n]).0, rate, times[n]);
    }
  }

  lemma EnoughAccrued(b: Bucket, rate: Rate, now: real)
    requires b.tokens >= 0.0 && b.lastTime <= now && 1 <= rate.burst
    requires Times(rate.rps, now - b.lastTime) >= 1.0 || b.tokens >= 1.0
    ensures Take(b, rate, now).1
  {
    assert Times(rate.rps, now - b.lastTime) >= 0.0;
    assert rate.burst as real >= 1.0;
  }

  lemma ReplayDecision(rate: Rate, created: real, times: seq<real>, j: nat)
    requires j < |times|
    ensures Replay(rate, created, times).1[j].admitted == Take(Replay(rate, created, times[..j]).0, rate, times[j]).1
  {
    ReplayPrefix(rate, created, times, j + 1);
    assert times[..j + 1][..j] == times[..j];
    assert Replay(rate, created, times).1[..j + 1][j] == Replay(rate, created, times).1[j];
  }

  /** However the earlier requests went, one that comes 1/rps or more after its predecessor is admitted. */
  lemma SpacedRequestAdmitted(rate: Rate, created: real, times: seq<real>, j: nat)
    requires j < |times| && created <= times[0] && NonDecreasing(times) && 1 <= rate.burst
    requires j > 0 ==> Times(rate.rps, times[j] - times[j - 1]) >= 1.0
    ensures Replay(rate, created, times).1[j].admitted
  {
    ReplayDecision(rate, created, times, j);
    TokensNonNegative(rate, created, times[..j]);
    var b := Replay(rate, created, times[..j]).0;
    if j > 0 {
      assert b.lastTime == times[j - 1];
    } else {
      assert b == Fresh(rate, created);
    }
    EnoughAccrued(b, rate, times[j]);
  }

  // ---- Any log that follows the rule ----

  ghost predicate DecidedAt(rate: Rate, log: seq<Event>, j: nat)
    requires j < |log|
  {
    log[j].admitted <==> LogAdmits(rate, log[..j], log[j].at)
  }

  /** Every request of the log was decided by the rule over the log before it. */
  ghost predicate FollowsRule(rate: Rate, log: seq<Event>) {
    forall j: nat | j < |log| :: DecidedAt(rate, log, j)
  }

  function TimesOf(log: seq<Event>): (times: seq<real>)
    ensures |times| == |log| && forall i | 0 <= i < |log| :: times[i] == log[i].at
  {
    seq(|log|, i requires 0 <= i < |log| => log[i].at)
  }

  lemma FollowsRuleBefore(rate: Rate, log: seq<Event>, n: nat)
    requires FollowsRule(rate, log) && n <= |log|
    ensures FollowsRule(rate, log[..n])
  {
    forall j: nat | j < n
      ensures DecidedAt(rate, log[..n], j)
    {
      assert DecidedAt(rate, log, j);
      assert log[..n][..j] == log[..j];
    }
  }

  lemma FollowsRuleNext(rate: Rate, log: seq<Event>, e: Event)
    requires FollowsRule(rate, log) && (e.admitted <==> LogAdmits(rate, log, e.at))
    ensures FollowsRule(rate, log + [e])
  {
    forall j: nat | j <= |log|
      ensures DecidedAt(rate, log + [e], j)
    {
      assert (log + [e])[..j] == log[..j];
      if j < |log| {
        assert DecidedAt(rate, log, j);
      } else {
        assert log[..j] == log;
      }
    }
  }

  /** The rule leaves no choice: such a log is the one a bucket produces for requests at its times. */
  lemma {:induction false} RuleLogIsReplay(rate: Rate, created: real, log: seq<Event>)
    requires FollowsRule(rate, log) && (log != [] ==> created <= log[0].at)
    ensures Replay(rate, created, TimesOf(log)).1 == log
  {
    if log == [] {
      assert TimesOf(log) == [];
    } else {
      var n := |log| - 1;
      var times, replayed := TimesOf(log), Replay(rate, created, TimesOf(log)).1;
      FollowsRuleBefore(rate, log, n);
      RuleLogIsReplay(rate, created, log[..n]);
      BucketDecidesAsFullLog(rate, created, times, n);
      ReplayPrefix(rate, created, times, n);
      assert times[..n] == TimesOf(log[..n]);
      assert DecidedAt(rate, log, n);
      assert replayed == replayed[..n] + [replayed[n]] && log == log[..n] + [log[n]];
    }
  }

  lemma FirstTime(times: seq<real>, log: seq<Event>)
    requires times == TimesOf(log) && log != []
    ensures |times| == |log| && times[0] == log[0].at
  {
  }

  lemma ReplayedWindow(rate: Rate, times: seq<real>, log: seq<Event>, i: nat, j: nat)
    requires i <= j < |times| && NonDecreasing(times) && log == Replay(rate, times[0], times).1
    ensures |log| == |times| && log[i].at == times[i] && log[j].at == times[j]
    ensures Admitted(log[i..j + 1]) as real <= Allowance(rate, times[j] - times[i])
  {
    WindowBound(rate, times[0], times, i, j);
  }

  /** Any window of it admits at most burst + rps times its length. */
  lemma WindowOfLog(rate: Rate, log: seq<Event>, i: nat, j: nat)
    requires i <= j < |log| && FollowsRule(rate, log) && NonDecreasing(TimesOf(log))
    ensures Admitted(log[i..j + 1]) as real <= Allowance(rate, log[j].at - log[i].at)
  {
    var times := TimesOf(log);
    FirstTime(times, log);
    RuleLogIsReplay(rate, times[0], log);
    ReplayedWindow(rate, times, log, i, j);
  }

  lemma ReplayedSpaced(rate: Rate, times: seq<real>, log: seq<Event>, j: nat)
    requires j < |times| && NonDecreasing(times) && log == Replay(rate, times[0], times).1 && 1 <= rate.burst
    requires j > 0 ==> Times(rate.rps, times[j] - times[j - 1]) >= 1.0
    ensures |log| == |times| && log[j].admitted
  {
    SpacedRequestAdmitted(rate, times[0], times, j);
  }

  /** A request in it that comes 1/rps or more after its predecessor is admitted. */
  lemma SpacedInLog(rate: Rate, log: seq<Event>, j: nat)
    requires j < |log| && FollowsRule(rate, log) && NonDecreasing(TimesOf(log)) && 1 <= rate.burst
    requires j > 0 ==> Times(rate.rps, log[j].at - log[j - 1].at) >= 1.0
    ensures log[j].admitted
  {
    var times := TimesOf(log);
    FirstTime(times, log);
    RuleLogIsReplay(rate, times[0], log);
    ReplayedSpaced(rate, times, log, j);
  }
}
