/** The per-address rate limiter of the Redis server (src/internal/server/redisserver/command.go), over real
    seconds and real tokens. */
module TokenBucket {

  datatype Bucket = Bucket(tokens: real, lastCheck: real)

  type Buckets = map<string, Bucket>

  datatype Request = Request(ip: string, now: real)

  /** The tokens that come back over some seconds. */
  function Earned(rate: real, seconds: real): real {
    seconds * rate
  }

  /** The bucket after the refill, capped at the rate; a new address starts full. */
  function Refilled(rate: real, buckets: Buckets, q: Request): Bucket {
    var b := if q.ip in buckets then buckets[q.ip] else Bucket(rate, q.now);
    var tokens := b.tokens + Earned(rate, q.now - b.lastCheck);
    Bucket(if tokens > rate then rate else tokens, q.now)
  }

  function Decide(rate: real, buckets: Buckets, q: Request): (Buckets, bool) {
    if rate <= 0.0 then (buckets, true)
    else
      var b := Refilled(rate, buckets, q);
      if b.tokens < 1.0 then (buckets[q.ip := b], false)
      else (buckets[q.ip := b.(tokens := b.tokens - 1.0)], true)
  }

  function Run(rate: real, qs: seq<Request>): Buckets {
    if qs == [] then map[] else Decide(rate, Run(rate, Front(qs)), Last(qs)).0
  }

  /** Whether the last request of a run is allowed. */
  predicate LastAllowed(rate: real, qs: seq<Request>)
    requires qs != []
  {
    Decide(rate, Run(rate, Front(qs)), Last(qs)).1
  }

  function Front(qs: seq<Request>): seq<Request>
    requires qs != []
  {
    qs[..|qs| - 1]
  }

  function Last(qs: seq<Request>): Request
    requires qs != []
  {
    qs[|qs| - 1]
  }

  ghost predicate Monotone(qs: seq<Request>) {
    forall i, j | 0 <= i < j < |qs| :: qs[i].now <= qs[j].now
  }

  /** How many requests of an address are allowed in a run from `from` to `until`, both included. */
  function AllowedIn(rate: real, qs: seq<Request>, ip: string, from: real, until: real): nat {
    if qs == [] then 0
    else
      AllowedIn(rate, Front(qs), ip, from, until) +
      (if Last(qs).ip == ip && from <= Last(qs).now <= until && LastAllowed(rate, qs) then 1 else 0)
  }

  // ---------------------------------------------------------------- what a bucket holds

  ghost predicate Within(rate: real, buckets: Buckets) {
    forall ip <- buckets :: 0.0 <= buckets[ip].tokens <= rate
  }

  ghost predicate NotAfter(buckets: Buckets, now: real) {
    forall ip <- buckets :: buckets[ip].lastCheck <= now
  }

  /** The tokens stay between zero and the rate, and no bucket was checked after the last request. */
  lemma {:induction false} RunKeepsBuckets(rate: real, qs: seq<Request>)
    requires rate >= 1.0 && Monotone(qs)
    ensures Within(rate, Run(rate, qs))
    ensures qs != [] ==> NotAfter(Run(rate, qs), Last(qs).now)
  {
    if qs != [] {
      RunKeepsBuckets(rate, Front(qs));
      DecideKeepsBuckets(rate, Run(rate, Front(qs)), Last(qs));
    }
  }

  lemma DecideKeepsBuckets(rate: real, buckets: Buckets, q: Request)
    requires rate >= 1.0 && Within(rate, buckets) && NotAfter(buckets, q.now)
    ensures Within(rate, Decide(rate, buckets, q).0) && NotAfter(Decide(rate, buckets, q).0, q.now)
  {
    hide Earned;
    EarnedIsMonotone(rate, 0.0, if q.ip in buckets then q.now - buckets[q.ip].lastCheck else 0.0);
  }

  lemma EarnedIsMonotone(rate: real, less: real, more: real)
    requires rate >= 0.0 && less <= more
    ensures Earned(rate, less) <= Earned(rate, more) && Earned(rate, 0.0) == 0.0
  {
    assert (more - less) * rate >= 0.0;
  }

  lemma EarnedAdds(rate: real, first: real, second: real)
    ensures Earned(rate, first) + Earned(rate, second) == Earned(rate, first + second)
  {
  }

  // ---------------------------------------------------------------- the bound

  /** Either nothing was allowed since `from`, or what was allowed and what is left fit in the burst and the refill. */
  ghost predicate Budget(rate: real, buckets: Buckets, ip: string, from: real, allowed: nat) {
    allowed == 0 ||
    (ip in buckets && buckets[ip].lastCheck >= from &&
     allowed as real + buckets[ip].tokens <= rate + Earned(rate, buckets[ip].lastCheck - from))
  }

  lemma DecideKeepsBudget(rate: real, buckets: Buckets, q: Request, from: real, allowed: nat)
    requires rate >= 1.0 && Within(rate, buckets) && NotAfter(buckets, q.now)
    requires from <= q.now && Budget(rate, buckets, q.ip, from, allowed)
    ensures Budget(rate, Decide(rate, buckets, q).0, q.ip, from, allowed + if Decide(rate, buckets, q).1 then 1 else 0)
  {
    hide Earned;
    EarnedIsMonotone(rate, 0.0, q.now - from);
    if allowed != 0 {
      var last := buckets[q.ip].lastCheck;
      EarnedAdds(rate, q.now - last, last - from);
    }
  }

  lemma DecideIsLocal(rate: real, buckets: Buckets, q: Request, ip: string, from: real, allowed: nat)
    requires ip != q.ip && Budget(rate, buckets, ip, from, allowed)
    ensures Budget(rate, Decide(rate, buckets, q).0, ip, from, allowed)
  {
    hide Earned;
  }

  lemma {:induction false} RunKeepsBudget(rate: real, qs: seq<Request>, ip: string, from: real, until: real)
    requires rate >= 1.0 && Monotone(qs) && (qs != [] ==> Last(qs).now <= until)
    ensures Budget(rate, Run(rate, qs), ip, from, AllowedIn(rate, qs, ip, from, until))
  {
    hide Earned, Decide, Within, NotAfter;
    if qs != [] {
      RunKeepsBudget(rate, Front(qs), ip, from, until);
      RunKeepsBuckets(rate, Front(qs));
      var q := Last(qs);
      var before := Run(rate, Front(qs));
      LaterIsNotAfter(rate, qs);
      if q.ip != ip {
        DecideIsLocal(rate, before, q, ip, from, AllowedIn(rate, Front(qs), ip, from, until));
      } else if from <= q.now {
        DecideKeepsBudget(rate, before, q, from, AllowedIn(rate, Front(qs), ip, from, until));
      } else {
        NoneBefore(rate, qs, ip, from, until);
      }
    }
  }

  lemma LaterIsNotAfter(rate: real, qs: seq<Request>)
    requires rate >= 1.0 && Monotone(qs) && qs != []
    ensures NotAfter(Run(rate, Front(qs)), Last(qs).now)
  {
    hide Decide;
    RunKeepsBuckets(rate, Front(qs));
  }

  lemma {:induction false} NoneBefore(rate: real, qs: seq<Request>, ip: string, from: real, until: real)
    requires forall i | 0 <= i < |qs| :: qs[i].now < from
    ensures AllowedIn(rate, qs, ip, from, until) == 0
  {
    if qs != [] {
      NoneBefore(rate, Front(qs), ip, from, until);
    }
  }

  /** In every run and every interval, an address is allowed at most a burst of `rate` and `rate` per second. */
  lemma {:induction false} AllowedIsBounded(rate: real, qs: seq<Request>, ip: string, from: real, until: real)
    requires rate >= 1.0 && Monotone(qs) && from <= until
    ensures AllowedIn(rate, qs, ip, from, until) as real <= rate + rate * (until - from)
  {
    BoundedByEarned(rate, qs, ip, from, until);
  }

  lemma {:induction false} BoundedByEarned(rate: real, qs: seq<Request>, ip: string, from: real, until: real)
    requires rate >= 1.0 && Monotone(qs) && from <= until
    ensures AllowedIn(rate, qs, ip, from, until) as real <= rate + Earned(rate, until - from)
  {
    hide Earned, Decide, Run, LastAllowed;
    EarnedIsMonotone(rate, 0.0, until - from);
    if qs != [] {
      if Last(qs).now > until {
        BoundedByEarned(rate, Front(qs), ip, from, until);
      } else {
        RunKeepsBudget(rate, qs, ip, from, until);
        RunKeepsBuckets(rate, qs);
        if AllowedIn(rate, qs, ip, from, until) > 0 {
          EarnedIsMonotone(rate, Run(rate, qs)[ip].lastCheck - from, until - from);
        }
      }
    }
  }

  // ---------------------------------------------------------------- the exact verdict

  /** How many requests of an address a run allows from place i on. */
  function AllowedFrom(rate: real, qs: seq<Request>, ip: string, i: nat): nat {
    if |qs| <= i then 0
    else AllowedFrom(rate, Front(qs), ip, i) + (if Last(qs).ip == ip && LastAllowed(rate, qs) then 1 else 0)
  }

  /** What is left of the burst and the refill since place i, at a given time. */
  function LeftSince(rate: real, qs: seq<Request>, ip: string, i: nat, now: real): real
    requires i < |qs|
  {
    rate + Earned(rate, now - qs[i].now) - AllowedFrom(rate, qs, ip, i) as real
  }

  /** The tokens of an address are the least that is left since any of its requests. */
  ghost predicate TokensAreLeast(rate: real, qs: seq<Request>, ip: string, b: Bucket) {
    && (forall i | 0 <= i < |qs| && qs[i].ip == ip :: b.tokens <= LeftSince(rate, qs, ip, i, b.lastCheck))
    && (exists i :: 0 <= i < |qs| && qs[i].ip == ip && b.tokens == LeftSince(rate, qs, ip, i, b.lastCheck))
  }

  lemma LeftLater(rate: real, qs: seq<Request>, ip: string, i: nat, past: real, now: real)
    requires i < |qs|
    ensures LeftSince(rate, qs, ip, i, now) == LeftSince(rate, qs, ip, i, past) + Earned(rate, now - past)
  {
    hide Earned;
    EarnedAdds(rate, now - past, past - qs[i].now);
  }

  lemma LeftSnoc(rate: real, qs: seq<Request>, ip: string, i: nat, now: real)
    requires i < |qs| - 1
    ensures LeftSince(rate, qs, ip, i, now) == LeftSince(rate, Front(qs), ip, i, now) -
            if Last(qs).ip == ip && LastAllowed(rate, qs) then 1.0 else 0.0
  {
    hide Earned, LastAllowed;
  }

  lemma LeftHere(rate: real, qs: seq<Request>, ip: string)
    requires qs != [] && Last(qs).ip == ip
    ensures LeftSince(rate, qs, ip, |qs| - 1, Last(qs).now) == rate - if LastAllowed(rate, qs) then 1.0 else 0.0
  {
    hide Earned, LastAllowed;
    EarnedIsMonotoneAtZero(rate);
    assert AllowedFrom(rate, Front(qs), ip, |qs| - 1) == 0;
    assert Last(qs).now - qs[|qs| - 1].now == 0.0;
  }

  lemma EarnedIsMonotoneAtZero(rate: real)
    ensures Earned(rate, 0.0) == 0.0
  {}

  /** The refill, seen from an earlier bucket whose tokens are the least left: at the new time they are the least left
      still, or the bucket is full. */
  lemma OwnRequestKeepsLeast(rate: real, qs: seq<Request>)
    requires rate >= 1.0 && qs != []
    requires Last(qs).ip in Run(rate, Front(qs)) ==>
               TokensAreLeast(rate, Front(qs), Last(qs).ip, Run(rate, Front(qs))[Last(qs).ip])
    requires Last(qs).ip !in Run(rate, Front(qs)) ==> forall i | 0 <= i < |qs| - 1 :: qs[i].ip != Last(qs).ip
    ensures Last(qs).ip in Run(rate, qs) && TokensAreLeast(rate, qs, Last(qs).ip, Run(rate, qs)[Last(qs).ip])
  {
    hide Earned, LeftSince, AllowedFrom, TokensAreLeast, LastAllowed, Run;
    var q, ip, before := Last(qs), Last(qs).ip, Run(rate, Front(qs));
    BucketAfter(rate, qs);
    var b := Run(rate, qs)[ip];
    var cost := if LastAllowed(rate, qs) then 1.0 else 0.0;
    LeftHere(rate, qs, ip);
    EarnedIsMonotoneAtZero(rate);
    forall i | 0 <= i < |qs| - 1 && qs[i].ip == ip
      ensures ip in before
      ensures before[ip].tokens <= LeftSince(rate, Front(qs), ip, i, before[ip].lastCheck)
      ensures LeftSince(rate, qs, ip, i, q.now) ==
              LeftSince(rate, Front(qs), ip, i, before[ip].lastCheck) +
              Earned(rate, q.now - before[ip].lastCheck) - cost
    {
      LeastIs(rate, Front(qs), ip, before[ip], i);
      LeftSnoc(rate, qs, ip, i, q.now);
      LeftLater(rate, Front(qs), ip, i, before[ip].lastCheck, q.now);
    }
    var w: nat := |qs| - 1;
    if ip in before && before[ip].tokens + Earned(rate, q.now - before[ip].lastCheck) <= rate {
      w := LeastAt(rate, Front(qs), ip, before[ip]);
    }
    LeastFrom(rate, qs, ip, b, w);
  }

  lemma LeastIs(rate: real, qs: seq<Request>, ip: string, b: Bucket, i: nat)
    requires TokensAreLeast(rate, qs, ip, b) && i < |qs| && qs[i].ip == ip
    ensures b.tokens <= LeftSince(rate, qs, ip, i, b.lastCheck)
  {}

  lemma LeastAt(rate: real, qs: seq<Request>, ip: string, b: Bucket) returns (i: nat)
    requires TokensAreLeast(rate, qs, ip, b)
    ensures i < |qs| && qs[i].ip == ip && b.tokens == LeftSince(rate, qs, ip, i, b.lastCheck)
  {
    i :| 0 <= i < |qs| && qs[i].ip == ip && b.tokens == LeftSince(rate, qs, ip, i, b.lastCheck);
  }

  lemma LeastFrom(rate: real, qs: seq<Request>, ip: string, b: Bucket, w: nat)
    requires forall i | 0 <= i < |qs| && qs[i].ip == ip :: b.tokens <= LeftSince(rate, qs, ip, i, b.lastCheck)
    requires w < |qs| && qs[w].ip == ip && b.tokens == LeftSince(rate, qs, ip, w, b.lastCheck)
    ensures TokensAreLeast(rate, qs, ip, b)
  {}

  /** The bucket after the last request: what was there and came back since, at most the rate, less what was taken. */
  lemma BucketAfter(rate: real, qs: seq<Request>)
    requires rate >= 1.0 && qs != []
    ensures var q, before := Last(qs), Run(rate, Front(qs));
            var there :=
              if q.ip in before then before[q.ip].tokens + Earned(rate, q.now - before[q.ip].lastCheck) else rate;
            var full := if there > rate then rate else there;
            && q.ip in Run(rate, qs)
            && Run(rate, qs)[q.ip] == Bucket(full - (if LastAllowed(rate, qs) then 1.0 else 0.0), q.now)
            && (LastAllowed(rate, qs) <==> full >= 1.0)
  {
    hide Earned;
    EarnedIsMonotoneAtZero(rate);
  }

  lemma {:induction false} RunKeepsLeast(rate: real, qs: seq<Request>, ip: string)
    requires rate >= 1.0
    ensures ip in Run(rate, qs) <==> exists i :: 0 <= i < |qs| && qs[i].ip == ip
    ensures ip in Run(rate, qs) ==> TokensAreLeast(rate, qs, ip, Run(rate, qs)[ip])
  {
    hide TokensAreLeast, Earned;
    if qs != [] {
      RunKeepsLeast(rate, Front(qs), ip);
      if Last(qs).ip == ip {
        assert qs[|qs| - 1].ip == ip;
        assert forall i | 0 <= i < |qs| - 1 :: qs[i] == Front(qs)[i];
        OwnRequestKeepsLeast(rate, qs);
      } else {
        assert forall i | 0 <= i < |qs| - 1 :: qs[i] == Front(qs)[i];
        if ip in Run(rate, Front(qs)) {
          OtherRequestKeepsLeast(rate, qs, ip);
        }
      }
    }
  }

  lemma OtherRequestKeepsLeast(rate: real, qs: seq<Request>, ip: string)
    requires qs != [] && Last(qs).ip != ip && ip in Run(rate, Front(qs))
    requires TokensAreLeast(rate, Front(qs), ip, Run(rate, Front(qs))[ip])
    ensures ip in Run(rate, qs) && TokensAreLeast(rate, qs, ip, Run(rate, qs)[ip])
  {
    hide Earned, LeftSince, AllowedFrom, TokensAreLeast, LastAllowed;
    var b := Run(rate, Front(qs))[ip];
    assert Run(rate, qs)[ip] == b;
    forall i | 0 <= i < |qs| && qs[i].ip == ip
      ensures i < |qs| - 1 && b.tokens <= LeftSince(rate, qs, ip, i, b.lastCheck)
    {
      LeftSnoc(rate, qs, ip, i, b.lastCheck);
      LeastIs(rate, Front(qs), ip, b, i);
    }
    var w := LeastAt(rate, Front(qs), ip, b);
    LeftSnoc(rate, qs, ip, w, b.lastCheck);
    LeastFrom(rate, qs, ip, b, w);
  }

  /** The verdict from the history alone: a request is refused if and only if, for some earlier request i of its
      address, the requests allowed from i on and this one are more than a burst of `rate` and `rate` per second since
      i. */
  lemma RefusedIff(rate: real, qs: seq<Request>)
    requires rate >= 1.0 && qs != []
    ensures !LastAllowed(rate, qs) <==>
            exists i :: 0 <= i < |qs| - 1 && qs[i].ip == Last(qs).ip &&
              (AllowedFrom(rate, Front(qs), Last(qs).ip, i) + 1) as real > rate + rate * (Last(qs).now - qs[i].now)
  {
    hide Run, LastAllowed, AllowedFrom, TokensAreLeast;
    var q, ip, before := Last(qs), Last(qs).ip, Run(rate, Front(qs));
    RunKeepsLeast(rate, Front(qs), ip);
    BucketAfter(rate, qs);
    if ip in before {
      var there := before[ip].tokens + Earned(rate, q.now - before[ip].lastCheck);
      forall i | 0 <= i < |qs| - 1 && qs[i].ip == ip
        ensures there <= LeftSince(rate, Front(qs), ip, i, q.now)
      {
        LeastIs(rate, Front(qs), ip, before[ip], i);
        LeftLater(rate, Front(qs), ip, i, before[ip].lastCheck, q.now);
      }
      var w := LeastAt(rate, Front(qs), ip, before[ip]);
      LeftLater(rate, Front(qs), ip, w, before[ip].lastCheck, q.now);
      HistoryIff(rate, qs, there, w);
    } else {
      forall i | 0 <= i < |qs| - 1
        ensures qs[i].ip != ip
      {
        assert Front(qs)[i] == qs[i];
      }
    }
  }

  lemma HistoryIff(rate: real, qs: seq<Request>, there: real, w: nat)
    requires qs != [] && w < |qs| - 1 && qs[w].ip == Last(qs).ip
    requires there == LeftSince(rate, Front(qs), Last(qs).ip, w, Last(qs).now)
    requires forall i | 0 <= i < |qs| - 1 && qs[i].ip == Last(qs).ip ::
               there <= LeftSince(rate, Front(qs), Last(qs).ip, i, Last(qs).now)
    ensures there < 1.0 <==>
            exists i :: 0 <= i < |qs| - 1 && qs[i].ip == Last(qs).ip &&
              (AllowedFrom(rate, Front(qs), Last(qs).ip, i) + 1) as real > rate + rate * (Last(qs).now - qs[i].now)
  {
    hide Earned, AllowedFrom;
    forall i | 0 <= i < |qs| - 1
      ensures LeftSince(rate, Front(qs), Last(qs).ip, i, Last(qs).now) < 1.0 <==>
              (AllowedFrom(rate, Front(qs), Last(qs).ip, i) + 1) as real > rate + rate * (Last(qs).now - qs[i].now)
    {
      EarnedIs(rate, Last(qs).now - qs[i].now);
    }
  }

  // ---------------------------------------------------------------- who is never turned away

  /** The time of an address's latest request is in its bucket. */
  lemma {:induction false} BucketIsOfAnEarlierRequest(rate: real, qs: seq<Request>, ip: string)
    requires rate >= 1.0 && ip in Run(rate, qs)
    ensures exists i :: 0 <= i < |qs| && qs[i].ip == ip && qs[i].now == Run(rate, qs)[ip].lastCheck
  {
    if qs != [] {
      if Last(qs).ip != ip {
        BucketIsOfAnEarlierRequest(rate, Front(qs), ip);
        var i :| 0 <= i < |Front(qs)| && Front(qs)[i].ip == ip && Front(qs)[i].now ==
            Run(rate, Front(qs))[ip].lastCheck;
        assert qs[i].ip == ip;
      } else {
        assert qs[|qs| - 1].ip == ip;
      }
    }
  }

  lemma EarnedIs(rate: real, seconds: real)
    ensures Earned(rate, seconds) == rate * seconds
  {
  }

  /** A request at least 1/rate seconds after each earlier one of its address is allowed, whatever other addresses
      do. */
  lemma SpacedIsAllowed(rate: real, qs: seq<Request>)
    requires rate >= 1.0 && Monotone(qs) && qs != []
    requires forall i | 0 <= i < |qs| - 1 && qs[i].ip == Last(qs).ip :: rate * (Last(qs).now - qs[i].now) >= 1.0
    ensures LastAllowed(rate, qs)
  {
    hide Earned, Run, Decide;
    RunKeepsBuckets(rate, Front(qs));
    var q := Last(qs);
    var before := Run(rate, Front(qs));
    if q.ip in before {
      BucketIsOfAnEarlierRequest(rate, Front(qs), q.ip);
      var i :| 0 <= i < |qs| - 1 && qs[i].ip == q.ip && qs[i].now == before[q.ip].lastCheck;
      EarnedIs(rate, q.now - qs[i].now);
    }
    OneTokenIsEnough(rate, before, q);
  }

  lemma OneTokenIsEnough(rate: real, buckets: Buckets, q: Request)
    requires rate >= 1.0 && Within(rate, buckets)
    requires q.ip in buckets ==> Earned(rate, q.now - buckets[q.ip].lastCheck) >= 1.0
    ensures Decide(rate, buckets, q).1
  {
    hide Earned;
    EarnedIsMonotone(rate, 0.0, 0.0);
  }

  /** So many requests of one address at one instant. */
  function Burst(ip: string, now: real, n: nat): seq<Request> {
    seq(n, i => Request(ip, now))
  }

  /** The bound is met: of any burst, exactly the first `rate` requests pass. */
  lemma {:induction false} BurstIsExact(rate: nat, ip: string, now: real, n: nat)
    requires rate >= 1
    ensures var left := if n <= rate then rate - n else 0;
      n > 0 ==> ip in Run(rate as real, Burst(ip, now, n)) &&
                Run(rate as real, Burst(ip, now, n))[ip] == Bucket(left as real, now)
    ensures AllowedIn(rate as real, Burst(ip, now, n), ip, now, now) == if n <= rate then n else rate
  {
    hide Earned;
    if n > 0 {
      EarnedIsMonotone(rate as real, 0.0, 0.0);
      BurstIsExact(rate, ip, now, n - 1);
      assert Front(Burst(ip, now, n)) == Burst(ip, now, n - 1);
    }
  }

  /** The requests of one address, in order. */
  function Of(qs: seq<Request>, ip: string): seq<Request> {
    if qs == [] then []
    else if Last(qs).ip == ip then Of(Front(qs), ip) + [Last(qs)]
    else Of(Front(qs), ip)
  }

  predicate SameBucket(a: Buckets, b: Buckets, ip: string) {
    (ip in a <==> ip in b) && (ip in a ==> a[ip] == b[ip])
  }

  lemma DecideNeedsOneBucket(rate: real, a: Buckets, b: Buckets, q: Request)
    requires SameBucket(a, b, q.ip)
    ensures SameBucket(Decide(rate, a, q).0, Decide(rate, b, q).0, q.ip)
    ensures Decide(rate, a, q).1 == Decide(rate, b, q).1
  {
    hide Earned;
  }

  /** Addresses do not share a budget: an address's bucket is the one its own requests alone would leave. */
  lemma {:induction false} BucketsAreIndependent(rate: real, qs: seq<Request>, ip: string)
    ensures SameBucket(Run(rate, qs), Run(rate, Of(qs, ip)), ip)
  {
    hide Earned;
    if qs != [] {
      BucketsAreIndependent(rate, Front(qs), ip);
      if Last(qs).ip == ip {
        DecideNeedsOneBucket(rate, Run(rate, Front(qs)), Run(rate, Of(Front(qs), ip)), Last(qs));
        assert Front(Of(qs, ip)) == Of(Front(qs), ip);
      }
    }
  }

  /** So its verdicts do not depend on the others either. */
  lemma VerdictsAreIndependent(rate: real, qs: seq<Request>)
    requires qs != []
    ensures Of(qs, Last(qs).ip) != [] && (LastAllowed(rate, qs) <==> LastAllowed(rate, Of(qs, Last(qs).ip)))
  {
    hide Earned, Run, Decide, SameBucket;
    var ip := Last(qs).ip;
    BucketsAreIndependent(rate, Front(qs), ip);
    assert Front(Of(qs, ip)) == Of(Front(qs), ip);
    DecideNeedsOneBucket(rate, Run(rate, Front(qs)), Run(rate, Of(Front(qs), ip)), Last(qs));
  }

  // ---------------------------------------------------------------- the limiter object

  class RateLimiter {
    var buckets: Buckets
    const rate: real

    constructor (requestsPerSecond: int)
      ensures buckets == map[] && rate == requestsPerSecond as real
    {
      buckets, rate := map[], requestsPerSecond as real;
    }

    /** allow: the refill happens in the bucket itself, before the decision. */
    method Allow(ip: string, now: real) returns (ok: bool)
      modifies this
      ensures (buckets, ok) == Decide(rate, old(buckets), Request(ip, now))
      ensures rate <= 0.0 ==> ok && buckets == old(buckets)
    {
      hide Earned;
      if rate <= 0.0 { return true; }
      EarnedIsMonotone(rate, 0.0, 0.0);
      if ip !in buckets {
        buckets := buckets[ip := Bucket(rate, now)];
      }
      var b := buckets[ip];
      b := b.(tokens := b.tokens + Earned(rate, now - b.lastCheck));
      if b.tokens > rate { b := b.(tokens := rate); }
      b := b.(lastCheck := now);
      buckets := buckets[ip := b];
      assert buckets == old(buckets)[ip := b];
      if b.tokens < 1.0 { return false; }
      buckets := buckets[ip := b.(tokens := b.tokens - 1.0)];
      assert buckets == old(buckets)[ip := b.(tokens := b.tokens - 1.0)];
      return true;
    }
  }
}
