/** The anti-replay nonce cache as a value: an LRU list, most recent first, whose entries also expire
    (src/internal/core/service/token.go). Times are milliseconds of one clock. */
module NonceModel {

  import opened Lru

  /** A nonce with the time at which it was added. */
  type NonceEntry = Slot<int>

  type Order = List<int>

  datatype Config = Config(capacity: int, ttl: int, window: int)

  const MAX_NONCE_LENGTH := 256

  predicate Fresh(e: NonceEntry, now: int, ttl: int) {
    now - e.value < ttl
  }

  /** cleanupExpiredLocked: a scan of the whole list. */
  function Cleaned(order: Order, now: int, ttl: int): Order {
    if order == [] then []
    else if Fresh(order[0], now, ttl) then [order[0]] + Cleaned(order[1..], now, ttl)
    else Cleaned(order[1..], now, ttl)
  }

  /** The list after so many turns of the eviction loop; an empty list stays as it is. */
  function AfterTurns(order: Order, turns: nat): Order {
    if turns == 0 || order == [] then order else AfterTurns(order[..|order| - 1], turns - 1)
  }

  lemma {:induction false} TurnsShorten(order: Order, turns: nat)
    ensures |AfterTurns(order, turns)| == if turns <= |order| then |order| - turns else 0
  {
    if turns > 0 && order != [] {
      TurnsShorten(order[..|order| - 1], turns - 1);
    }
  }

  /** The eviction loop, which runs while the list is not shorter than the capacity, ends if and only if the capacity
      is at least one. */
  lemma EvictionEndsIff(order: Order, capacity: int)
    ensures (exists turns: nat :: |AfterTurns(order, turns)| < capacity) <==> capacity >= 1
  {
    if capacity >= 1 {
      TurnsShorten(order, |order|);
      assert |AfterTurns(order, |order|)| < capacity;
    }
  }

  /** AddIfAbsent: a fresh nonce moves to the front and is refused; otherwise it is (re)added at the front. */
  function AddIfAbsent(cfg: Config, order: Order, nonce: string, now: int): (Order, bool)
    requires cfg.capacity >= 1
  {
    if Has(order, nonce) && Fresh(Find(order, nonce), now, cfg.ttl) then
      ([Find(order, nonce)] + Without(order, nonce), false)
    else
      ([Slot(nonce, now)] + Evicted(Cleaned(Without(order, nonce), now, cfg.ttl), cfg.capacity), true)
  }

  /** A request: its nonce, its claimed timestamp, and the clock when it is checked. */
  datatype Request = Request(nonce: string, timestamp: int, now: int)

  datatype Verdict = Accepted | InvalidNonce | TimestampSkew | NonceReplay

  predicate WellFormed(q: Request) {
    q.nonce != "" && |q.nonce| <= MAX_NONCE_LENGTH
  }

  function Skew(q: Request): nat {
    if q.now - q.timestamp < 0 then q.timestamp - q.now else q.now - q.timestamp
  }

  /** The request gets as far as the cache. */
  predicate Touches(cfg: Config, q: Request) {
    WellFormed(q) && Skew(q) <= cfg.window
  }

  function CheckNonce(cfg: Config, order: Order, q: Request): (Order, Verdict)
    requires cfg.capacity >= 1
  {
    if !WellFormed(q) then (order, InvalidNonce)
    else if Skew(q) > cfg.window then (order, TimestampSkew)
    else
      var (order', added) := AddIfAbsent(cfg, order, q.nonce, q.now);
      (order', if added then Accepted else NonceReplay)
  }

  function Run(cfg: Config, qs: seq<Request>): Order
    requires cfg.capacity >= 1
  {
    if qs == [] then [] else CheckNonce(cfg, Run(cfg, qs[..|qs| - 1]), qs[|qs| - 1]).0
  }

  function VerdictAt(cfg: Config, qs: seq<Request>, i: nat): Verdict
    requires cfg.capacity >= 1 && i < |qs|
  {
    CheckNonce(cfg, Run(cfg, qs[..i]), qs[i]).1
  }

  predicate Monotone(qs: seq<Request>) {
    forall i, j | 0 <= i < j < |qs| :: qs[i].now <= qs[j].now
  }

  // ---------------------------------------------------------------- the list

  lemma {:induction false} CleanedMembers(order: Order, now: int, ttl: int)
    ensures forall e :: e in Cleaned(order, now, ttl) <==> e in order && Fresh(e, now, ttl)
  {
    if order != [] {
      CleanedMembers(order[1..], now, ttl);
      assert order == [order[0]] + order[1..];
    }
  }

  lemma {:induction false} CleanedIsDistinct(order: Order, now: int, ttl: int)
    requires Distinct(order)
    ensures Distinct(Cleaned(order, now, ttl)) && |Cleaned(order, now, ttl)| <= |order|
  {
    if order != [] {
      DistinctTail(order);
      CleanedIsDistinct(order[1..], now, ttl);
      CleanedMembers(order[1..], now, ttl);
      if Fresh(order[0], now, ttl) {
        FrontKeepsDistinct(order[0], Cleaned(order[1..], now, ttl));
      }
    }
  }

  lemma AddKeepsList(cfg: Config, order: Order, nonce: string, now: int)
    requires cfg.capacity >= 1 && Distinct(order) && |order| <= cfg.capacity
    ensures var order' := AddIfAbsent(cfg, order, nonce, now).0; Distinct(order') && |order'| <= cfg.capacity
  {
    hide Distinct, Without, Cleaned;
    WithoutMembers(order, nonce);
    WithoutIsDistinct(order, nonce);
    var rest := Without(order, nonce);
    if Has(order, nonce) && Fresh(Find(order, nonce), now, cfg.ttl) {
      FindMember(order, nonce);
      WithoutShorter(order, nonce);
      FrontKeepsDistinct(Find(order, nonce), rest);
    } else {
      CleanedMembers(rest, now, cfg.ttl);
      CleanedIsDistinct(rest, now, cfg.ttl);
      var kept := Cleaned(rest, now, cfg.ttl);
      EvictedIsPrefix(kept, cfg.capacity);
      FrontKeepsDistinct(Slot(nonce, now), Evicted(kept, cfg.capacity));
    }
  }

  /** In every run the list holds each nonce at most once and never more than its capacity. */
  lemma {:induction false} RunKeepsList(cfg: Config, qs: seq<Request>)
    requires cfg.capacity >= 1
    ensures Distinct(Run(cfg, qs)) && |Run(cfg, qs)| <= cfg.capacity
  {
    if qs != [] {
      RunKeepsList(cfg, qs[..|qs| - 1]);
      AddKeepsList(cfg, Run(cfg, qs[..|qs| - 1]), qs[|qs| - 1].nonce, qs[|qs| - 1].now);
    }
  }

  // ---------------------------------------------------------------- at most once

  /** The nonces in front of a nonce: the ones touched more recently. */
  function Ahead(order: Order, nonce: string): set<string> {
    if order == [] || order[0].key == nonce then {} else {order[0].key} + Ahead(order[1..], nonce)
  }

  lemma {:induction false} AheadWithout(order: Order, nonce: string, other: string)
    requires other != nonce
    ensures Ahead(Without(order, other), nonce) <= Ahead(order, nonce) - {other}
  {
    if order != [] {
      AheadWithout(order[1..], nonce, other);
    }
  }

  lemma {:induction false} AheadCleaned(order: Order, entry: NonceEntry, now: int, ttl: int)
    requires entry in order && Distinct(order) && Fresh(entry, now, ttl)
    ensures Ahead(Cleaned(order, now, ttl), entry.key) <= Ahead(order, entry.key)
  {
    DistinctTail(order);
    if order[0] != entry {
      assert entry in order[1..];
      AheadCleaned(order[1..], entry, now, ttl);
    }
  }

  lemma {:induction false} AheadOfPrefix(order: Order, entry: NonceEntry, k: nat)
    requires k <= |order| && entry !in order[..k] && entry in order && Distinct(order)
    ensures |Ahead(order, entry.key)| >= k
  {
    if k > 0 {
      DistinctTail(order);
      assert order[..k] == [order[0]] + order[1..][..k - 1];
      assert entry in order[1..];
      AheadOfPrefix(order[1..], entry, k - 1);
      AbsentIsNotAhead(order[1..], entry.key, order[0].key);
    }
  }

  lemma {:induction false} AbsentIsNotAhead(order: Order, nonce: string, absent: string)
    requires forall e <- order :: e.key != absent
    ensures absent !in Ahead(order, nonce)
  {
    if order != [] {
      AbsentIsNotAhead(order[1..], nonce, absent);
    }
  }

  lemma {:induction false} AheadOfPrefixOf(order: Order, nonce: string, k: nat, i: nat)
    requires i < k <= |order| && order[i].key == nonce
    ensures Ahead(order[..k], nonce) == Ahead(order, nonce)
  {
    if order[0].key != nonce {
      assert order[..k][1..] == order[1..][..k - 1];
      AheadOfPrefixOf(order[1..], nonce, k - 1, i - 1);
    }
  }

  /** An accepted nonce is still listed with only nonces touched since in front of it, or at least
      `capacity` others were touched since. */
  ghost predicate Guarded(cfg: Config, order: Order, entry: NonceEntry, touched: set<string>) {
    |touched| < cfg.capacity ==> entry in order && Ahead(order, entry.key) <= touched
  }

  /** Touching the nonce itself while it is fresh brings it to the front. */
  lemma TouchItself(cfg: Config, order: Order, entry: NonceEntry, now: int, touched: set<string>)
    requires cfg.capacity >= 1 && Distinct(order)
    requires Guarded(cfg, order, entry, touched) && Fresh(entry, now, cfg.ttl)
    ensures |touched| < cfg.capacity ==> !AddIfAbsent(cfg, order, entry.key, now).1
    ensures Guarded(cfg, AddIfAbsent(cfg, order, entry.key, now).0, entry, touched)
  {
    if |touched| < cfg.capacity {
      FindIsThe(order, entry);
    }
  }

  /** Touching another nonce puts at most that one in front, and pushes this one out only when the list is full. */
  lemma TouchAnother(cfg: Config, order: Order, entry: NonceEntry, nonce: string, now: int, touched: set<string>)
    requires cfg.capacity >= 1 && Distinct(order) && nonce != entry.key
    requires Guarded(cfg, order, entry, touched) && Fresh(entry, now, cfg.ttl)
    ensures Guarded(cfg, AddIfAbsent(cfg, order, nonce, now).0, entry, touched + {nonce})
  {
    hide Without, Cleaned, Distinct, Ahead, Evicted;
    var rest := Without(order, nonce);
    var more := touched + {nonce};
    if |more| < cfg.capacity {
      LargerHasMore(touched, more);
      WithoutMembers(order, nonce);
      WithoutIsDistinct(order, nonce);
      AheadWithout(order, entry.key, nonce);
      if Has(order, nonce) && Fresh(Find(order, nonce), now, cfg.ttl) {
        FindMember(order, nonce);
        AheadOfFront(Find(order, nonce), rest, entry.key);
      } else {
        CleanedMembers(rest, now, cfg.ttl);
        CleanedIsDistinct(rest, now, cfg.ttl);
        var kept := Cleaned(rest, now, cfg.ttl);
        AheadCleaned(rest, entry, now, cfg.ttl);
        EvictionSpares(cfg, kept, entry, touched - {nonce});
        AheadOfFront(Slot(nonce, now), Evicted(kept, cfg.capacity), entry.key);
      }
    }
  }

  lemma LargerHasMore<T>(small: set<T>, large: set<T>)
    requires small <= large
    ensures |small| <= |large|
  {
    assert large == small + (large - small);
  }

  lemma AheadOfFront(front: NonceEntry, rest: Order, nonce: string)
    requires front.key != nonce
    ensures Ahead([front] + rest, nonce) == {front.key} + Ahead(rest, nonce)
  {
    assert ([front] + rest)[1..] == rest;
  }

  lemma EvictionSpares(cfg: Config, order: Order, entry: NonceEntry, touched: set<string>)
    requires cfg.capacity >= 1 && Distinct(order) && entry in order
    requires Ahead(order, entry.key) <= touched && |touched| + 1 < cfg.capacity
    ensures entry in Evicted(order, cfg.capacity)
    ensures Ahead(Evicted(order, cfg.capacity), entry.key) <= touched
  {
    if |order| >= cfg.capacity {
      LargerHasMore(Ahead(order, entry.key), touched);
      if entry !in order[..cfg.capacity - 1] {
        AheadOfPrefix(order, entry, cfg.capacity - 1);
        assert false;
      }
      var i :| 0 <= i < cfg.capacity - 1 && order[i] == entry;
      AheadOfPrefixOf(order, entry.key, cfg.capacity - 1, i);
    }
  }

  /** The other nonces that reached the cache strictly between two requests. */
  function TouchedBetween(cfg: Config, qs: seq<Request>, i: nat, j: nat): set<string>
    requires i < j <= |qs|
  {
    set k | i < k < j && Touches(cfg, qs[k]) && qs[k].nonce != qs[i].nonce :: qs[k].nonce
  }

  /** From a request m on that left its nonce at the front of the list, created at some time: while that entry is fresh,
      the nonce stays listed behind only nonces touched since, or `capacity` others were. */
  lemma {:induction false} StaysGuarded(cfg: Config, qs: seq<Request>, m: nat, j: nat, created: int)
    requires cfg.capacity >= 1 && m < j <= |qs| && Run(cfg, qs[..m + 1]) != []
    requires Run(cfg, qs[..m + 1])[0] == Slot(qs[m].nonce, created)
    requires forall k | m < k < j :: qs[k].now - created < cfg.ttl
    ensures Guarded(cfg, Run(cfg, qs[..j]), Slot(qs[m].nonce, created), TouchedBetween(cfg, qs, m, j))
  {
    hide Run, Guarded, AddIfAbsent, CheckNonce, TouchedBetween, VerdictAt, Distinct;
    var entry := Slot(qs[m].nonce, created);
    if j == m + 1 {
      FrontIsGuarded(cfg, Run(cfg, qs[..j]), entry, TouchedBetween(cfg, qs, m, j));
    } else {
      RunSnoc(cfg, qs, j - 1);
      StaysGuarded(cfg, qs, m, j - 1, created);
      RunKeepsList(cfg, qs[..j - 1]);
      TouchedSnoc(cfg, qs, m, j - 1);
      GuardStep(cfg, Run(cfg, qs[..j - 1]), entry, qs[j - 1], TouchedBetween(cfg, qs, m, j - 1));
    }
  }

  lemma FrontIsGuarded(cfg: Config, order: Order, entry: NonceEntry, touched: set<string>)
    requires order != [] && order[0] == entry
    ensures Guarded(cfg, order, entry, touched)
  {}

  /** A request that reaches the cache leaves its nonce at the front; an accepted one with the time it came. */
  lemma TouchedIsInFront(cfg: Config, qs: seq<Request>, m: nat)
    requires cfg.capacity >= 1 && m < |qs| && VerdictAt(cfg, qs, m) in {Accepted, NonceReplay}
    ensures var order := Run(cfg, qs[..m + 1]);
            && order != [] && order[0].key == qs[m].nonce
            && (VerdictAt(cfg, qs, m) == Accepted ==> order[0].value == qs[m].now)
  {
    RunSnoc(cfg, qs, m);
    if Has(Run(cfg, qs[..m]), qs[m].nonce) {
      FindMember(Run(cfg, qs[..m]), qs[m].nonce);
    }
  }

  lemma GuardStep(cfg: Config, order: Order, entry: NonceEntry, q: Request, touched: set<string>)
    requires cfg.capacity >= 1 && Distinct(order)
    requires Guarded(cfg, order, entry, touched) && Fresh(entry, q.now, cfg.ttl)
    ensures Guarded(cfg, CheckNonce(cfg, order, q).0, entry,
                    touched + if Touches(cfg, q) && q.nonce != entry.key then {q.nonce} else {})
  {
    hide Guarded, AddIfAbsent, Distinct;
    assert touched + {} == touched;
    if Touches(cfg, q) {
      if q.nonce == entry.key {
        TouchItself(cfg, order, entry, q.now, touched);
      } else {
        TouchAnother(cfg, order, entry, q.nonce, q.now, touched);
      }
    }
  }

  lemma TouchedSnoc(cfg: Config, qs: seq<Request>, i: nat, j: nat)
    requires i < j < |qs|
    ensures TouchedBetween(cfg, qs, i, j + 1) == TouchedBetween(cfg, qs, i, j) +
      if Touches(cfg, qs[j]) && qs[j].nonce != qs[i].nonce then {qs[j].nonce} else {}
  {
  }

  lemma RunSnoc(cfg: Config, qs: seq<Request>, i: nat)
    requires cfg.capacity >= 1 && i < |qs|
    ensures Run(cfg, qs[..i + 1]) == CheckNonce(cfg, Run(cfg, qs[..i]), qs[i]).0
  {
    assert qs[..i + 1][..i] == qs[..i];
  }

  /** A replay is caught: if request m reached the cache, its entry is still fresh at request j, and fewer than
      `capacity` other nonces reached the cache in between, then j with the same nonce, if it gets as far, is refused
      as a replay -- whether m itself was the one accepted or an earlier replay of it. */
  lemma ReplayIsCaught(cfg: Config, qs: seq<Request>, m: nat, j: nat)
    requires cfg.capacity >= 1 && Monotone(qs) && m < j < |qs| && qs[j].nonce == qs[m].nonce
    requires VerdictAt(cfg, qs, m) in {Accepted, NonceReplay} && VerdictAt(cfg, qs, j) in {Accepted, NonceReplay}
    requires Run(cfg, qs[..m + 1]) != [] && qs[j].now - Run(cfg, qs[..m + 1])[0].value < cfg.ttl
    requires |TouchedBetween(cfg, qs, m, j)| < cfg.capacity
    ensures VerdictAt(cfg, qs, j) == NonceReplay
  {
    hide AddIfAbsent, Guarded, Run, TouchedBetween;
    TouchedIsInFront(cfg, qs, m);
    var entry := Run(cfg, qs[..m + 1])[0];
    StaysGuarded(cfg, qs, m, j, entry.value);
    RunKeepsList(cfg, qs[..j]);
    TouchItself(cfg, Run(cfg, qs[..j]), entry, qs[j].now, TouchedBetween(cfg, qs, m, j));
  }

  /** The cause of each verdict: an empty nonce or one of more than 256 bytes, a timestamp further than the window from
      the clock, a nonce that is listed and younger than the ttl. */
  lemma VerdictIff(cfg: Config, qs: seq<Request>, j: nat)
    requires cfg.capacity >= 1 && j < |qs|
    ensures var q, r := qs[j], VerdictAt(cfg, qs, j);
            var long := |q.nonce| == 0 || |q.nonce| > 256;
            var far := q.timestamp < q.now - cfg.window || q.timestamp > q.now + cfg.window;
            && (r == InvalidNonce <==> long)
            && (r == TimestampSkew <==> !long && far)
            && (r == NonceReplay <==>
                !long && !far && exists e <- Run(cfg, qs[..j]) :: e.key == q.nonce && q.now - e.value < cfg.ttl)
  {
    hide Run;
    RunKeepsList(cfg, qs[..j]);
    var order := Run(cfg, qs[..j]);
    if Has(order, qs[j].nonce) {
      FindMember(order, qs[j].nonce);
      assert forall e <- order :: e.key == qs[j].nonce ==> e == Find(order, qs[j].nonce) by {
        forall e | e in order && e.key == qs[j].nonce
          ensures e == Find(order, qs[j].nonce)
        {
          FindIsThe(order, e);
        }
      }
    }
  }

  /** Anti-replay: with ttl > 2 * window, the same nonce and timestamp pass twice only if at least `capacity`
      distinct other nonces reached the cache in between. */
  lemma NonceAtMostOnce(cfg: Config, qs: seq<Request>, i: nat, j: nat)
    requires cfg.capacity >= 1 && cfg.ttl > 2 * cfg.window && Monotone(qs) && i < j < |qs|
    requires qs[i].nonce == qs[j].nonce && qs[i].timestamp == qs[j].timestamp
    requires VerdictAt(cfg, qs, i) == Accepted && VerdictAt(cfg, qs, j) == Accepted
    ensures |TouchedBetween(cfg, qs, i, j)| >= cfg.capacity
  {
    hide AddIfAbsent, Guarded, Run, TouchedBetween;
    assert Skew(qs[i]) <= cfg.window && Skew(qs[j]) <= cfg.window;
    assert qs[j].now - qs[i].now < cfg.ttl;
    TouchedIsInFront(cfg, qs, i);
    if |TouchedBetween(cfg, qs, i, j)| < cfg.capacity {
      ReplayIsCaught(cfg, qs, i, j);
    }
  }

  /** The clock at which the ttl has just run out for an entry made at the window's earliest moment. */
  function JustExpired(cfg: Config, timestamp: int): int {
    timestamp - cfg.window + if cfg.ttl > 0 then cfg.ttl else 0
  }

  /** The bound on the ttl is sharp: with any smaller ttl (the default is exactly 2 * window) a cache of any
      capacity accepts some pair twice in a row. */
  lemma ShortTtlAcceptsTwice(cfg: Config, nonce: string, timestamp: int)
    requires cfg.capacity >= 1 && cfg.window >= 0 && cfg.ttl <= 2 * cfg.window
    requires nonce != "" && |nonce| <= MAX_NONCE_LENGTH
    ensures var qs := [Request(nonce, timestamp, timestamp - cfg.window),
                       Request(nonce, timestamp, JustExpired(cfg, timestamp))];
      Monotone(qs) && VerdictAt(cfg, qs, 0) == Accepted && VerdictAt(cfg, qs, 1) == Accepted &&
      TouchedBetween(cfg, qs, 0, 1) == {}
  {
    var first := Request(nonce, timestamp, timestamp - cfg.window);
    var qs := [first, Request(nonce, timestamp, JustExpired(cfg, timestamp))];
    assert qs[..0] == [];
    assert qs[..1] == [first] && [first][..0] == [];
    var entry := Slot(nonce, first.now);
    assert Evicted(Cleaned(Without([], nonce), first.now, cfg.ttl), cfg.capacity) == [];
    assert Run(cfg, [first]) == [entry];
    assert [entry][0].key == nonce;
  }

  /** A nonce and timestamp that pass twice have always had `capacity` other nonces touched in between. */
  ghost predicate NeverTwice(cfg: Config)
    requires cfg.capacity >= 1
  {
    forall qs: seq<Request>, i: nat, j: nat |
      i < j < |qs| && Monotone(qs) && qs[i].nonce == qs[j].nonce && qs[i].timestamp == qs[j].timestamp &&
      VerdictAt(cfg, qs, i) == Accepted && VerdictAt(cfg, qs, j) == Accepted ::
      |TouchedBetween(cfg, qs, i, j)| >= cfg.capacity
  }

  /** Exactly the configurations that give anti-replay over every run: a ttl above twice the window, or a window
      that lets nothing through. */
  lemma NeverTwiceIff(cfg: Config)
    requires cfg.capacity >= 1
    ensures NeverTwice(cfg) <==> cfg.ttl > 2 * cfg.window || cfg.window < 0
  {
    if cfg.ttl > 2 * cfg.window || cfg.window < 0 {
      forall qs: seq<Request>, i: nat, j: nat |
        i < j < |qs| && Monotone(qs) && qs[i].nonce == qs[j].nonce && qs[i].timestamp == qs[j].timestamp &&
        VerdictAt(cfg, qs, i) == Accepted && VerdictAt(cfg, qs, j) == Accepted
        ensures |TouchedBetween(cfg, qs, i, j)| >= cfg.capacity
      {
        if cfg.ttl > 2 * cfg.window {
          NonceAtMostOnce(cfg, qs, i, j);
        }
      }
    } else {
      ShortTtlAcceptsTwice(cfg, "n", 0);
      var qs := [Request("n", 0, 0 - cfg.window), Request("n", 0, JustExpired(cfg, 0))];
      assert |TouchedBetween(cfg, qs, 0, 1)| < cfg.capacity;
    }
  }

  /** No false alarms: a refusal as a replay names a request accepted less than the ttl ago. */
  lemma NoFalseReplay(cfg: Config, qs: seq<Request>, j: nat)
    requires cfg.capacity >= 1 && j < |qs| && VerdictAt(cfg, qs, j) == NonceReplay
    ensures exists i :: 0 <= i < j && VerdictAt(cfg, qs, i) == Accepted && qs[i].nonce == qs[j].nonce &&
                        qs[j].now - qs[i].now < cfg.ttl
  {
    var order := Run(cfg, qs[..j]);
    FindMember(order, qs[j].nonce);
    EntriesWereAccepted(cfg, qs, j, Find(order, qs[j].nonce));
  }

  lemma {:induction false} EntriesWereAccepted(cfg: Config, qs: seq<Request>, j: nat, entry: NonceEntry)
    requires cfg.capacity >= 1 && j <= |qs| && entry in Run(cfg, qs[..j])
    ensures exists i :: 0 <= i < j && VerdictAt(cfg, qs, i) == Accepted && qs[i].nonce == entry.key &&
                        qs[i].now == entry.value
  {
    if j > 0 {
      RunSnoc(cfg, qs, j - 1);
      var order := Run(cfg, qs[..j - 1]);
      var q := qs[j - 1];
      if entry in order {
        EntriesWereAccepted(cfg, qs, j - 1, entry);
      } else {
        AddBringsOnlyItself(cfg, order, q.nonce, q.now, entry);
        assert VerdictAt(cfg, qs, j - 1) == Accepted;
      }
    }
  }

  lemma AddBringsOnlyItself(cfg: Config, order: Order, nonce: string, now: int, entry: NonceEntry)
    requires cfg.capacity >= 1 && entry !in order && entry in AddIfAbsent(cfg, order, nonce, now).0
    ensures AddIfAbsent(cfg, order, nonce, now).1 && entry == Slot(nonce, now)
  {
    WithoutMembers(order, nonce);
    var rest := Without(order, nonce);
    CleanedMembers(rest, now, cfg.ttl);
    if Has(order, nonce) {
      FindMember(order, nonce);
    }
  }
}
