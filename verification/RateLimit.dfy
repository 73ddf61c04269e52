/** The per-IP fixed-window limiter (ratelimit.go:25-107). Times are in nanoseconds. */
module RateLimit {
  import opened Wrappers

  const MINUTE: nat := 60 * SECOND

  datatype Bucket = Bucket(windowStart: int, count: nat)

  type Buckets = map<string, Bucket>

  /** time.Now().Unix() / 60. */
  function Window(now: nat): nat {
    now / MINUTE
  }

  /** Attempts charged to ip in window w. */
  function CountIn(buckets: Buckets, ip: string, w: int): nat {
    if ip in buckets && buckets[ip].windowStart == w then buckets[ip].count else 0
  }

  function Charge(buckets: Buckets, ip: string, w: int): Buckets {
    buckets[ip := Bucket(w, CountIn(buckets, ip, w) + 1)]
  }

  function Evicted(buckets: Buckets, now: nat): Buckets {
    map ip | ip in buckets && !(buckets[ip].windowStart < Window(now) - 2) :: buckets[ip]
  }

  class IpRateLimiter {
    const rpm: int
    var buckets: Buckets

    constructor (rpm: int)
      ensures this.rpm == rpm && buckets == map[]
    {
      this.rpm := rpm;
      buckets := map[];
    }

    /** allow: counts the attempt and says whether it is within the budget; no budget, no counting. */
    method Allow(ip: string, now: nat) returns (ok: bool)
      modifies this
      ensures rpm <= 0 ==> ok && buckets == old(buckets)
      ensures rpm > 0 ==>
        && buckets == Charge(old(buckets), ip, Window(now))
        && (ok <==> CountIn(old(buckets), ip, Window(now)) < rpm)
    {
      if rpm <= 0 { return true; }
      var w := Window(now);
      var b := Bucket(w, 0);
      if ip in buckets && buckets[ip].windowStart == w { b := buckets[ip]; }
      b := b.(count := b.count + 1);
      buckets := buckets[ip := b];
      return b.count <= rpm;
    }

    /** over: consults the budget without charging it. */
    method Over(ip: string, now: nat) returns (spent: bool)
      ensures spent <==> rpm > 0 && CountIn(buckets, ip, Window(now)) >= rpm
    {
      if rpm <= 0 { return false; }
      var w := Window(now);
      return ip in buckets && buckets[ip].windowStart == w && buckets[ip].count >= rpm;
    }

    /** One tick of evictIdleLoop. */
    method EvictIdle(now: nat)
      modifies this
      ensures buckets == Evicted(old(buckets), now)
      ensures forall ip ::
        ip in buckets <==> ip in old(buckets) && old(buckets)[ip].windowStart >= now / 60_000_000_000 - 2
      ensures forall ip | ip in buckets :: buckets[ip] == old(buckets)[ip]
    {
      var rest := buckets.Keys;
      while rest != {}
        invariant rest <= old(buckets).Keys
        invariant buckets == map ip | ip in old(buckets) &&
            (ip in rest || !(old(buckets)[ip].windowStart < Window(now) - 2)) :: old(buckets)[ip]
        decreases rest
      {
        var ip :| ip in rest;
        rest := rest - {ip};
        if buckets[ip].windowStart < Window(now) - 2 { buckets := buckets - {ip}; }
      }
    }
  }

  // ---------------------------------------------------------------- when eviction is invisible

  datatype Op = Allowing(ip: string, now: nat) | Consulting(ip: string, now: nat) | Evicting(now: nat)

  function Do(rpm: int, buckets: Buckets, op: Op): Buckets {
    match op
    case Allowing(ip, now) => if rpm > 0 then Charge(buckets, ip, Window(now)) else buckets
    case Consulting(_, _) => buckets
    case Evicting(now) => if rpm > 0 then Evicted(buckets, now) else buckets
  }

  /** What the caller of an operation is told; an eviction tells nobody anything. */
  function Told(rpm: int, buckets: Buckets, op: Op): seq<bool> {
    match op
    case Allowing(ip, now) => [rpm <= 0 || CountIn(buckets, ip, Window(now)) < rpm]
    case Consulting(ip, now) => [rpm > 0 && CountIn(buckets, ip, Window(now)) >= rpm]
    case Evicting(_) => []
  }

  function Answers(rpm: int, buckets: Buckets, ops: seq<Op>): seq<bool>
    decreases ops
  {
    if ops == [] then [] else Told(rpm, buckets, ops[0]) + Answers(rpm, Do(rpm, buckets, ops[0]), ops[1..])
  }

  function WithoutEvictions(ops: seq<Op>): seq<Op> {
    if ops == [] then []
    else (if ops[0].Evicting? then [] else [ops[0]]) + WithoutEvictions(ops[1..])
  }

  /** The oldest window whose bucket an eviction that read the clock at `now` leaves alone. */
  function Horizon(now: nat): int {
    Window(now) - 2
  }

  /** The operation does not work in a window behind one that an earlier eviction has cleared. */
  predicate TimelyOp(op: Op, horizon: int) {
    op.Evicting? || horizon <= Window(op.now)
  }

  function HorizonAfter(op: Op, horizon: int): int {
    if op.Evicting? then Max(horizon, Horizon(op.now)) else horizon
  }

  /** Clocks are read before the lock is taken, so operations may otherwise come out of order. */
  ghost predicate Timely(ops: seq<Op>, horizon: int) {
    ops == [] || (TimelyOp(ops[0], horizon) && Timely(ops[1..], HorizonAfter(ops[0], horizon)))
  }

  /** The two limiters agree on this window and every later one. */
  ghost predicate AgreeFrom(a: Buckets, b: Buckets, w: int) {
    forall ip, v: int | v >= w :: CountIn(a, ip, v) == CountIn(b, ip, v)
  }

  /** An eviction hides a window's count from nobody if and only if the window is not behind its horizon. */
  lemma EvictionHiddenIff(now: nat, w: int)
    ensures (forall buckets, ip :: CountIn(Evicted(buckets, now), ip, w) == CountIn(buckets, ip, w))
            <==> Horizon(now) <= w
  {
    if w < Horizon(now) {
      var buckets: Buckets := map["ip" := Bucket(w, 1)];
      assert CountIn(Evicted(buckets, now), "ip", w) != CountIn(buckets, "ip", w);
    }
  }

  lemma EvictKeepsAgreement(a: Buckets, b: Buckets, now: nat, w: int)
    requires AgreeFrom(a, b, w)
    ensures AgreeFrom(Evicted(a, now), b, Max(w, Horizon(now)))
  {
    forall ip, v: int | v >= Max(w, Horizon(now)) ensures CountIn(Evicted(a, now), ip, v) == CountIn(b, ip, v) {
      assert CountIn(a, ip, v) == CountIn(b, ip, v);
    }
  }

  lemma ChargeKeepsAgreement(a: Buckets, b: Buckets, ip: string, at: int, w: int)
    requires AgreeFrom(a, b, w) && w <= at
    ensures AgreeFrom(Charge(a, ip, at), Charge(b, ip, at), w)
  {
    assert CountIn(a, ip, at) == CountIn(b, ip, at);
    forall other, v: int | v >= w ensures CountIn(Charge(a, ip, at), other, v) == CountIn(Charge(b, ip, at), other, v) {
      assert CountIn(a, other, v) == CountIn(b, other, v);
    }
  }

  /** Limiters that differ only in cleared windows stay so under every timely operation. */
  lemma DoKeepsAgreement(rpm: int, a: Buckets, b: Buckets, op: Op, horizon: int)
    requires AgreeFrom(a, b, horizon) && TimelyOp(op, horizon)
    ensures op.Evicting? ==> AgreeFrom(Do(rpm, a, op), b, HorizonAfter(op, horizon))
    ensures !op.Evicting? ==>
              AgreeFrom(Do(rpm, a, op), Do(rpm, b, op), horizon) && Told(rpm, a, op) == Told(rpm, b, op)
  {
    match op
    case Evicting(now) => EvictKeepsAgreement(a, b, now, horizon);
    case Consulting(ip, now) => assert CountIn(a, ip, Window(now)) == CountIn(b, ip, Window(now));
    case Allowing(ip, now) =>
      assert CountIn(a, ip, Window(now)) == CountIn(b, ip, Window(now));
      ChargeKeepsAgreement(a, b, ip, Window(now), horizon);
  }

  /** However timely evictions are interleaved, every caller is told what it would have been told without them. */
  lemma {:induction false} EvictionInvisible(rpm: int, a: Buckets, b: Buckets, ops: seq<Op>, horizon: int)
    requires Timely(ops, horizon) && AgreeFrom(a, b, horizon)
    ensures Answers(rpm, a, ops) == Answers(rpm, b, WithoutEvictions(ops))
    decreases ops
  {
    if ops != [] {
      var op, rest := ops[0], ops[1..];
      DoKeepsAgreement(rpm, a, b, op, horizon);
      if op.Evicting? {
        EvictionInvisible(rpm, Do(rpm, a, op), b, rest, HorizonAfter(op, horizon));
        assert WithoutEvictions(ops) == WithoutEvictions(rest);
      } else {
        EvictionInvisible(rpm, Do(rpm, a, op), Do(rpm, b, op), rest, horizon);
        var kept := WithoutEvictions(rest);
        assert WithoutEvictions(ops) == [op] + kept && ([op] + kept)[0] == op && ([op] + kept)[1..] == kept;
      }
    }
  }

  /** Minutes, and how counting goes: one more in the window charged, which starts anew if the bucket was elsewhere. */
  lemma CountingMeans(buckets: Buckets, ip: string, now: nat, other: string)
    ensures Window(now) * 60_000_000_000 <= now < (Window(now) + 1) * 60_000_000_000
    ensures CountIn(buckets, ip, Window(now)) ==
              if ip in buckets && buckets[ip].windowStart == now / 60_000_000_000 then buckets[ip].count else 0
    ensures var after := Charge(buckets, ip, Window(now));
            && CountIn(after, ip, Window(now)) == CountIn(buckets, ip, Window(now)) + 1
            && (other != ip ==>
              (other in after <==> other in buckets) && (other in after ==> after[other] == buckets[other]))
  {
  }

  // ---------------------------------------------------------------- updates that come late

  /** An update in this window does not go behind a bucket that already counts in a later one. */
  predicate NotBehind(buckets: Buckets, ip: string, w: int) {
    !(ip in buckets && buckets[ip].windowStart > w && buckets[ip].count > 0)
  }

  /** A charge keeps the counts of all later windows if and only if it does not go behind its bucket. */
  lemma ChargeKeepsLaterIff(buckets: Buckets, ip: string, w: int)
    ensures (forall v: int | v > w :: CountIn(Charge(buckets, ip, w), ip, v) >= CountIn(buckets, ip, v))
            <==> NotBehind(buckets, ip, w)
  {
    if !NotBehind(buckets, ip, w) {
      var v := buckets[ip].windowStart;
      assert CountIn(Charge(buckets, ip, w), ip, v) < CountIn(buckets, ip, v);
    } else {
      forall v: int | v > w ensures CountIn(buckets, ip, v) == 0 {}
    }
  }
}
