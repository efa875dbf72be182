/**
 The bounded map of per-IP buckets: an LRU set of the most recent distinct IPs, each with a
 bucket that decides as its full request log would.

 Go ranges over a map in an unspecified order, so the scan for the oldest entry takes the order
 as an argument and every result below holds for all orders.
*/
module RateLimiter {
  import opened TokenBucket
  import opened Wrappers

  datatype Limiter = Limiter(rate: Rate, maxBuckets: nat, buckets: map<string, Bucket>, lastSeen: map<string, real>)

  /**
   One call of Allow: the address, the order in which a scan of lastSeen would visit its keys, and
   the three clock readings of the call.
  */
  datatype Request = Request(ip: string, order: seq<string>, created: real, seen: real, taken: real)

  const DEFAULT_RPS := 10
  const DEFAULT_BURST := 20
  const DEFAULT_MAX_BUCKETS := 10_000

  function NewLimiter(rps: int, burst: int, maxBuckets: int): (l: Limiter)
    ensures if rps > 0 then l.rate.rps == rps else l.rate.rps == 10
    ensures if burst > 0 then l.rate.burst == burst else l.rate.burst == 20
    ensures if maxBuckets > 0 then l.maxBuckets == maxBuckets else l.maxBuckets == 10_000
    ensures l.buckets.Keys == l.lastSeen.Keys == {}
  {
    Limiter(
      Rate(if rps <= 0 then DEFAULT_RPS else rps, if burst <= 0 then DEFAULT_BURST else burst),
      if maxBuckets <= 0 then DEFAULT_MAX_BUCKETS else maxBuckets, map[], map[])
  }

  /** An order in which a range loop may visit the keys of the map. */
  ghost predicate IsOrder(order: seq<string>, m: map<string, real>) {
    Distinct(order) && forall ip :: ip in order <==> ip in m
  }

  /** The scan of evictOldest; the empty string stands for "none yet", as it does in the program. */
  function ScanOldest(order: seq<string>, lastSeen: map<string, real>): (oldest: string)
    requires forall ip | ip in order :: ip in lastSeen
    ensures oldest == "" || oldest in order
  {
    if order == [] then ""
    else
      var ip := order[|order| - 1];
      var best := ScanOldest(order[..|order| - 1], lastSeen);
      if best == "" || lastSeen[ip] < lastSeen[best] then ip else best
  }

  function EvictOldest(l: Limiter, order: seq<string>): (Limiter, bool)
    requires forall ip | ip in order :: ip in l.lastSeen
  {
    if |l.buckets| == 0 then (l, false)
    else
      var oldest := ScanOldest(order, l.lastSeen);
      if oldest == "" then (l, false)
      else (l.(buckets := l.buckets - {oldest}, lastSeen := l.lastSeen - {oldest}), true)
  }

  function WithRoom(l: Limiter, order: seq<string>): Limiter
    requires forall ip | ip in order :: ip in l.lastSeen
  {
    if |l.buckets| >= l.maxBuckets then EvictOldest(l, order).0 else l
  }

  /** A new bucket for the address. */
  function WithBucket(l: Limiter, r: Request): Limiter {
    l.(buckets := l.buckets[r.ip := Fresh(l.rate, r.created)], lastSeen := l.lastSeen[r.ip := r.seen])
  }

  /** The critical section of Allow under the limiter's mutex. */
  function Lookup(l: Limiter, r: Request): (found: Limiter)
    requires forall ip | ip in r.order :: ip in l.lastSeen
    ensures r.ip in found.buckets && r.ip in found.lastSeen
  {
    if r.ip in l.buckets then l.(lastSeen := l.lastSeen[r.ip := r.seen])
    else WithBucket(WithRoom(l, r.order), r)
  }

  function Allow(l: Limiter, r: Request): (Limiter, bool)
    requires forall ip | ip in r.order :: ip in l.lastSeen
  {
    Spend(Lookup(l, r), r.ip, r.taken)
  }

  /** The critical section under the mutex of one bucket. */
  function Spend(l: Limiter, ip: string, now: real): (Limiter, bool)
    requires ip in l.buckets
  {
    var (b, ok) := Take(l.buckets[ip], l.rate, now);
    (l.(buckets := l.buckets[ip := b]), ok)
  }

  /** The present contents of the bucket objects. */
  function ValuesOf(buckets: map<string, IpBucket>): (values: map<string, Bucket>)
    reads set ip | ip in buckets :: buckets[ip]
    ensures values.Keys == buckets.Keys && |values| == |buckets|
  {
    var values := map ip | ip in buckets :: buckets[ip].Value();
    assert values.Keys == buckets.Keys;
    values
  }

  /** No two addresses have the same bucket object. */
  ghost predicate NoneShared(buckets: map<string, IpBucket>) {
    forall a, b | a in buckets && b in buckets && a != b :: buckets[a] != buckets[b]
  }

  lemma NoneSharedWithout(buckets: map<string, IpBucket>, ip: string)
    requires NoneShared(buckets)
    ensures NoneShared(buckets - {ip})
  {
  }

  lemma NoneSharedWith(buckets: map<string, IpBucket>, ip: string, b: IpBucket)
    requires NoneShared(buckets) && b !in buckets.Values
    ensures NoneShared(buckets[ip := b])
  {
  }

  lemma ValuesWithout(buckets: map<string, IpBucket>, ip: string)
    ensures ValuesOf(buckets - {ip}) == ValuesOf(buckets) - {ip}
  {
  }

  lemma ValuesWith(buckets: map<string, IpBucket>, ip: string, b: IpBucket)
    ensures ValuesOf(buckets[ip := b]) == ValuesOf(buckets)[ip := b.Value()]
  {
  }

  /** The limiter as the program holds it: maps to shared bucket objects, updated in place. */
  class IpRateLimiter {
    const rate: Rate
    const maxBuckets: nat
    var buckets: map<string, IpBucket>
    var lastSeen: map<string, real>

    ghost predicate Valid()
      reads this
    {
      NoneShared(buckets)
    }

    function Value(): (l: Limiter)
      reads this, set ip | ip in buckets :: buckets[ip]
      ensures l.buckets.Keys == buckets.Keys && |l.buckets| == |buckets|
    {
      Limiter(rate, maxBuckets, ValuesOf(buckets), lastSeen)
    }

    constructor (rps: int, burst: int, maxBuckets: int)
      ensures Valid() && Value() == NewLimiter(rps, burst, maxBuckets)
    {
      this.rate := Rate(if rps <= 0 then DEFAULT_RPS else rps, if burst <= 0 then DEFAULT_BURST else burst);
      this.maxBuckets := if maxBuckets <= 0 then DEFAULT_MAX_BUCKETS else maxBuckets;
      buckets := map[];
      lastSeen := map[];
    }

    method FindOldest(order: seq<string>) returns (oldestIP: string)
      requires forall ip | ip in order :: ip in lastSeen
      ensures oldestIP == ScanOldest(order, lastSeen)
    {
      oldestIP := "";
      var oldest := 0.0;
      for i := 0 to |order|
        invariant oldestIP == ScanOldest(order[..i], lastSeen)
        invariant oldestIP != "" ==> oldest == lastSeen[oldestIP]
      {
        var ip := order[i];
        var seen := lastSeen[ip];
        assert order[..i + 1][..i] == order[..i];
        if oldestIP == "" || seen < oldest {
          oldestIP := ip;
          oldest := seen;
        }
      }
      assert order[..|order|] == order;
    }

    method Drop(ip: string)
      requires Valid()
      modifies this
      ensures Valid() && buckets == old(buckets) - {ip}
      ensures lastSeen == old(lastSeen) - {ip}
      ensures Value().buckets == old(Value()).buckets - {ip}
    {
      ValuesWithout(buckets, ip);
      NoneSharedWithout(buckets, ip);
      buckets := buckets - {ip};
      lastSeen := lastSeen - {ip};
    }

    method Evict(order: seq<string>) returns (freed: bool)
      requires Valid() && forall ip | ip in order :: ip in lastSeen
      modifies this
      ensures Valid() && buckets.Keys <= old(buckets.Keys)
      ensures forall ip | ip in buckets :: buckets[ip] == old(buckets[ip])
      ensures (Value(), freed) == EvictOldest(old(Value()), order)
    {
      if |buckets| == 0 {
        return false;
      }
      var oldestIP := FindOldest(order);
      if oldestIP == "" {
        return false;
      }
      Drop(oldestIP);
      return true;
    }

    method MakeRoom(order: seq<string>)
      requires Valid() && forall ip | ip in order :: ip in lastSeen
      modifies this
      ensures Valid() && buckets.Keys <= old(buckets.Keys)
      ensures forall ip | ip in buckets :: buckets[ip] == old(buckets[ip])
      ensures Value() == WithRoom(old(Value()), order)
    {
      if |buckets| >= maxBuckets {
        var _ := Evict(order);
      }
    }

    method AddBucket(r: Request) returns (b: IpBucket)
      requires Valid() && r.ip !in buckets
      modifies this
      ensures Valid() && buckets == old(buckets)[r.ip := b] && fresh(b)
      ensures Value() == WithBucket(old(Value()), r)
    {
      b := new IpBucket(rate, r.created);
      ValuesWith(buckets, r.ip, b);
      NoneSharedWith(buckets, r.ip, b);
      buckets := buckets[r.ip := b];
      lastSeen := lastSeen[r.ip := r.seen];
    }

    /** The critical section under the limiter's mutex: the caller leaves it holding the bucket object. */
    method FindBucket(r: Request) returns (b: IpBucket)
      requires Valid() && forall ip | ip in r.order :: ip in lastSeen
      modifies this
      ensures Valid() && r.ip in buckets && b == buckets[r.ip]
      ensures if r.ip in old(buckets) then b == old(buckets[r.ip]) else fresh(b)
      ensures forall ip | ip in buckets && ip != r.ip :: ip in old(buckets) && buckets[ip] == old(buckets[ip])
      ensures Value() == Lookup(old(Value()), r)
    {
      if r.ip in buckets {
        b := buckets[r.ip];
        lastSeen := lastSeen[r.ip := r.seen];
        assert Value().buckets == old(Value()).buckets;
        return;
      }
      MakeRoom(r.order);
      b := AddBucket(r);
    }

    method AllowRequest(r: Request) returns (admitted: bool)
      requires Valid() && forall ip | ip in r.order :: ip in lastSeen
      modifies this, set ip | ip in buckets :: buckets[ip]
      ensures Valid() && (Value(), admitted) == Allow(old(Value()), r)
    {
      var b := FindBucket(r);
      admitted := SpendFrom(b, r.ip, r.taken);
    }

    method SpendFrom(b: IpBucket, ghost ip: string, now: real) returns (admitted: bool)
      requires Valid() && ip in buckets && b == buckets[ip]
      modifies b
      ensures Valid() && (Value(), admitted) == Spend(old(Value()), ip, now)
    {
      admitted := b.TakeToken(rate, now);
      assert Value().buckets == old(Value()).buckets[ip := b.Value()];
    }
  }
}
