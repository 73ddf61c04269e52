/**
 Bounded retry of rate-limited reads (internal/mcp/retry429.go). Times and
 durations are in nanoseconds. Time passes only while a request is in flight,
 while a retry slot is awaited and while the call sleeps.
 */
module Retry429 {
  import opened Wrappers
  import Slots = RetrySlots

  const MAX_BACKOFF: nat := 8 * SECOND
  const MAX_RETRY_AFTER_SECS: nat := 10 * 365 * 24 * 3600
  const FALLBACK_BASE: nat := 500_000_000
  const KEPT_BODY: nat := 65_536

  // ---------------------------------------------------------------- delays

  /** A Retry-After header as the parser sees it. */
  datatype RetryAfter = Absent | Malformed | DeltaSeconds(secs: int) | HttpDate(at: int)

  /** parseRetryAfter: None for an absent, malformed or negative value. */
  function ParseRetryAfter(h: RetryAfter, now: int): (d: Option<nat>) {
    match h
    case Absent => None
    case Malformed => None
    case DeltaSeconds(secs) =>
      if secs < 0 then None
      else Some((if secs > MAX_RETRY_AFTER_SECS then MAX_RETRY_AFTER_SECS else secs) * SECOND)
    case HttpDate(at) =>
      if at - now <= 0 then Some(0)
      else Some(if at - now >= INT64_LIMIT then INT64_LIMIT - 1 else at - now)
  }

  function Pow2(k: nat): nat {
    if k == 0 then 1 else 2 * Pow2(k - 1)
  }

  /** Two's complement 64-bit wrap-around. */
  function Wrap64(x: int): int {
    var m := x % (2 * INT64_LIMIT);
    if m >= INT64_LIMIT then m - 2 * INT64_LIMIT else m
  }

  /** The fallback of retryDelayFor: a wrapping left shift, bounded. */
  function Backoff(base: nat, attempt: nat): (d: nat)
    requires attempt >= 1
  {
    var shifted := Wrap64(base * Pow2(attempt - 1));
    if shifted > MAX_BACKOFF || shifted <= 0 then MAX_BACKOFF else shifted
  }

  /** retryDelayFor. */
  function Delay(base: nat, h: RetryAfter, attempt: nat, now: int): nat
    requires attempt >= 1
  {
    match ParseRetryAfter(h, now)
    case Some(d) => d
    case None => Backoff(base, attempt)
  }

  /** A valid delay never overflows a 64-bit duration; delta-seconds up to ten years are kept exactly. */
  lemma RetryAfterFits(h: RetryAfter, now: int)
    ensures ParseRetryAfter(h, now).Some? ==> ParseRetryAfter(h, now).value < INT64_LIMIT
    ensures h.DeltaSeconds? && 0 <= h.secs <= MAX_RETRY_AFTER_SECS ==> ParseRetryAfter(h, now) == Some(h.secs * SECOND)
    ensures h.DeltaSeconds? && h.secs > MAX_RETRY_AFTER_SECS ==>
      ParseRetryAfter(h, now).Some? && ParseRetryAfter(h, now).value == MAX_RETRY_AFTER_SECS * SECOND
  {
    if h.DeltaSeconds? && h.secs >= 0 {
      var secs := if h.secs > MAX_RETRY_AFTER_SECS then MAX_RETRY_AFTER_SECS else h.secs;
      assert secs * SECOND <= MAX_RETRY_AFTER_SECS * SECOND;
    }
  }

  /** The header asks for a wait of d from `now`: whole seconds up to ten years, or until a date. */
  ghost predicate AsksFor(h: RetryAfter, now: int, d: int) {
    match h
    case DeltaSeconds(secs) => secs >= 0 && d == (if secs <= 315_360_000 then secs else 315_360_000) * 1_000_000_000
    case HttpDate(at) =>
      var ahead := at - now;
      d == if ahead <= 0 then 0 else if ahead <= 9_223_372_036_854_775_807 then ahead else 9_223_372_036_854_775_807
    case Absent => false
    case Malformed => false
  }

  /** The header says nothing usable. */
  predicate AsksNothing(h: RetryAfter) {
    h == Absent || h == Malformed || (h.DeltaSeconds? && h.secs < 0)
  }

  lemma HeaderMeans(h: RetryAfter, now: int)
    ensures AsksNothing(h) <==> ParseRetryAfter(h, now) == None
    ensures forall d: nat :: AsksFor(h, now, d) <==> ParseRetryAfter(h, now) == Some(d)
  {
  }

  lemma {:induction false} Pow2Sum(j: nat, k: nat)
    ensures Pow2(j + k) == Pow2(j) * Pow2(k)
  {
    if j > 0 {
      Pow2Sum(j - 1, k);
      assert Pow2(j + k) == 2 * Pow2(j - 1 + k);
    }
  }

  lemma {:induction false} Pow2Monotone(j: nat, k: nat)
    requires j <= k
    ensures Pow2(j) <= Pow2(k)
  {
    if j < k { Pow2Monotone(j, k - 1); }
  }

  lemma Pow2Values()
    ensures Pow2(8) == 256 && Pow2(16) == 65_536 && Pow2(30) == 1_073_741_824
    ensures Pow2(32) == 4_294_967_296 && Pow2(33) == 8_589_934_592
  {
    assert Pow2(8) == 256;
    Pow2Sum(8, 8);
    Pow2Sum(16, 14);
    assert Pow2(14) == 64 * Pow2(8);
    Pow2Sum(16, 16);
    Pow2Sum(32, 1);
  }

  lemma SmallPow2(k: nat)
    requires k <= 32
    ensures 1 <= Pow2(k) <= 4_294_967_296
  {
    Pow2Values();
    Pow2Monotone(k, 32);
    Pow2Monotone(0, k);
  }

  /** A multiple of 2^33 wraps to a multiple of 2^33. */
  lemma WrapMultiple(m: nat)
    ensures Wrap64(m * 8_589_934_592) <= 0 || Wrap64(m * 8_589_934_592) >= 8_589_934_592
  {
    var q, r := m / 2_147_483_648, m % 2_147_483_648;
    var x := m * 8_589_934_592;
    assert x == q * (2 * INT64_LIMIT) + r * 8_589_934_592;
    assert 0 <= r * 8_589_934_592 < 2 * INT64_LIMIT;
    assert x % (2 * INT64_LIMIT) == r * 8_589_934_592;
  }

  lemma ProductBound(a: nat, b: nat, x: nat, y: nat)
    requires a <= x && b <= y
    ensures a * b <= x * y
  {
    assert a * b <= a * y;
    assert a * y <= x * y;
  }

  /** Up to 2^64 a shift keeps its value, turns negative or becomes zero. */
  lemma WrapOnce(x: nat)
    requires x <= 2 * INT64_LIMIT
    ensures if x < INT64_LIMIT then Wrap64(x) == x else Wrap64(x) <= 0
  {
    if x == 2 * INT64_LIMIT { assert x % (2 * INT64_LIMIT) == 0; }
  }

  lemma LargeShift(base: nat, k: nat) returns (m: nat)
    requires base > 0 && k >= 33
    ensures m >= 1 && base * Pow2(k) == m * 8_589_934_592
  {
    Pow2Values();
    Pow2Sum(k - 33, 33);
    Pow2Monotone(0, k - 33);
    var y := Pow2(k - 33);
    m := base * y;
    assert m >= 1;
    assert base * (y * 8_589_934_592) == (base * y) * 8_589_934_592;
  }

  /** The documented fallback: base * 2^(attempt-1), at most 8 s. */
  predicate Exact(base: nat, attempt: nat)
    requires attempt >= 1
  {
    var d := base * Pow2(attempt - 1);
    Backoff(base, attempt) == if d < 8_000_000_000 then d else 8_000_000_000
  }

  /** From attempt 34 on a shift is exact whatever the base: it is zero, negative or above 8 s. */
  lemma LateAttemptExact(base: nat, attempt: nat)
    requires base > 0 && attempt >= 34
    ensures Exact(base, attempt)
  {
    var m := LargeShift(base, attempt - 1);
    WrapMultiple(m);
  }

  /** For every base up to 2^32 ns and every attempt the wrapping shift gives min(8 s, base * 2^(attempt-1)). */
  lemma BackoffExact(base: nat, attempt: nat)
    requires 0 < base <= 4_294_967_296 && attempt >= 1
    ensures Exact(base, attempt)
  {
    if attempt >= 34 {
      LateAttemptExact(base, attempt);
    } else {
      SmallPow2(attempt - 1);
      ProductBound(base, Pow2(attempt - 1), 4_294_967_296, 4_294_967_296);
      ProductBound(1, 1, base, Pow2(attempt - 1));
      WrapOnce(base * Pow2(attempt - 1));
    }
  }

  /** 2^32 + 1 ns is the first base that wraps to a short delay, at attempt 33. */
  lemma NextBaseWraps()
    ensures Backoff(4_294_967_297, 33) == 4_294_967_296 < MAX_BACKOFF && !Exact(4_294_967_297, 33)
  {
    Pow2Values();
    assert 4_294_967_297 * Pow2(32) == 2 * INT64_LIMIT + 4_294_967_296;
  }

  /** Backoff is exact for all bases up to a bound, at every attempt, if and only if the bound is at most 2^32 ns. */
  lemma BackoffExactIff(bound: nat)
    ensures (forall base: nat, attempt: nat | 0 < base <= bound && attempt >= 1 :: Exact(base, attempt))
            <==> bound <= 4_294_967_296
  {
    if bound <= 4_294_967_296 {
      forall base: nat, attempt: nat | 0 < base <= bound && attempt >= 1 ensures Exact(base, attempt) {
        BackoffExact(base, attempt);
      }
    } else {
      NextBaseWraps();
    }
  }

  /** The program's own base meets the bound: 500 ms, 1 s, 2 s, 4 s, and 8 s from then on. */
  lemma DefaultBackoff(attempt: nat)
    requires attempt >= 1
    ensures Exact(FALLBACK_BASE, attempt)
    ensures attempt == 1 ==> Backoff(FALLBACK_BASE, attempt) == 500_000_000
    ensures attempt == 2 ==> Backoff(FALLBACK_BASE, attempt) == 1_000_000_000
    ensures attempt == 3 ==> Backoff(FALLBACK_BASE, attempt) == 2_000_000_000
    ensures attempt == 4 ==> Backoff(FALLBACK_BASE, attempt) == 4_000_000_000
    ensures attempt >= 5 ==> Backoff(FALLBACK_BASE, attempt) == 8_000_000_000
  {
    BackoffExact(FALLBACK_BASE, attempt);
    assert Pow2(4) == 16;
    if attempt <= 5 { Pow2Monotone(attempt - 1, 4); } else { Pow2Monotone(4, attempt - 1); }
  }

  // ---------------------------------------------------------------- one call

  datatype Answer = NetworkError | Response(status: nat, retryAfter: RetryAfter, body: Bytes)
  {
    predicate Throttled() {
      Response? && status == 429
    }
  }

  datatype Policy = Policy(maxAttempts: nat, budget: int, fallback: nat)

  datatype Slot = Got | TimedOut | ContextDone

  /**
   Everything a call meets, indexed by attempt (from 0): the server's answers,
   how long they take, the jitter, how the wait for a slot ends, and whether a
   sleep is cancelled or overruns.
   */
  datatype World = World(
    answer: nat -> Answer, answerTime: nat -> nat,
    jitter: (nat, nat) -> nat,
    slot: nat -> Slot, slotTime: nat -> nat,
    sleepCancelled: nat -> bool, overslept: nat -> nat)
  {
    ghost predicate Ok() {
      forall n: nat, d: nat :: jitter(n, d) <= d / 4
    }

    /** Sleeps take exactly as long as asked. */
    ghost predicate ExactSleep() {
      forall n: nat :: overslept(n) == 0
    }
  }

  datatype Outcome =
    | Returned(answer: Answer)  // the response as received
    | Restored(answer: Answer)  // a 429 whose body was buffered and put back
    | Cancelled                 // the caller's context ended

  /** One attempt: when it was sent, what came back and when, and the sleep completed after it, if any. */
  datatype Round = Round(sentAt: int, answer: Answer, answeredAt: int, slept: Option<Sleep>)

  datatype Sleep = Sleep(from: int, wait: nat, until: int)

  /** The response with the first 64 KiB of its body. */
  function Buffered(a: Answer): Answer
    requires a.Response?
  {
    a.(body := if |a.body| <= KEPT_BODY then a.body else a.body[..KEPT_BODY])
  }

  /** The delay the server or the fallback asks for after round i. */
  function DelayAfter(p: Policy, r: Round, i: nat): nat
    requires r.answer.Response?
  {
    Delay(p.fallback, r.answer.retryAfter, i + 1, r.answeredAt)
  }

  ghost predicate MayRetry(p: Policy, start: int, r: Round, i: nat) {
    && r.answer.Throttled()
    && i + 1 < p.maxAttempts
    && DelayAfter(p, r, i) <= p.budget - (r.answeredAt - start)
  }

  /** The wait chosen after round i: the delay plus at most a quarter, cut to what the budget had left. */
  ghost predicate WaitChosen(p: Policy, start: int, r: Round, i: nat, wait: nat) {
    && r.answer.Response?
    && DelayAfter(p, r, i) <= wait
    && wait <= DelayAfter(p, r, i) + DelayAfter(p, r, i) / 4
    && wait <= p.budget - (r.answeredAt - start)
  }

  /** Round i - 1 was throttled, slept its wait and left budget, so round i goes out at `at`. */
  ghost predicate Retried(p: Policy, w: World, start: int, before: Round, at: int, i: nat)
    requires i >= 1
  {
    && MayRetry(p, start, before, i - 1)
    && before.slept.Some?
    && var s := before.slept.value;
       && w.slot(i - 1) == Got && !w.sleepCancelled(i - 1)
       && s.from == before.answeredAt + w.slotTime(i - 1)
       && WaitChosen(p, start, before, i - 1, s.wait)
       && s.wait <= p.budget - (s.from - start)
       && s.until == s.from + s.wait + w.overslept(i - 1)
       && at == s.until
       && at - start < p.budget
  }

  /** How and why the last round's answer was handed over. */
  ghost predicate Ended(p: Policy, w: World, start: int, last: Round, i: nat, out: Outcome) {
    var heldAt := last.answeredAt + w.slotTime(i);
    match out
    case Returned(a) =>
      a == last.answer && !MayRetry(p, start, last, i)
    case Restored(a) =>
      && MayRetry(p, start, last, i) && a == Buffered(last.answer)
      && (|| w.slot(i) == TimedOut
          || (w.slot(i) == Got && last.slept.None? && exists wait: nat ::
                WaitChosen(p, start, last, i, wait) && wait > p.budget - (heldAt - start))
          || (w.slot(i) == Got && last.slept.Some? && last.slept.value.until - start >= p.budget))
    case Cancelled =>
      && MayRetry(p, start, last, i)
      && (w.slot(i) == ContextDone || (w.slot(i) == Got && w.sleepCancelled(i)))
  }

  /** A completed sleep was not meant to outlast the budget. */
  ghost predicate SleptWithin(p: Policy, w: World, start: int, r: Round, i: nat) {
    r.slept.Some? ==>
      && r.answer.Throttled()
      && var s := r.slept.value;
         && s.from == r.answeredAt + w.slotTime(i)
         && WaitChosen(p, start, r, i, s.wait)
         && s.wait <= p.budget - (s.from - start)
         && s.until == s.from + s.wait + w.overslept(i)
  }

  ghost predicate Answered(p: Policy, w: World, start: int, r: Round, i: nat) {
    && r.answer == w.answer(i) && r.answeredAt == r.sentAt + w.answerTime(i)
    && SleptWithin(p, w, start, r, i)
  }

  ghost predicate Run(p: Policy, w: World, start: int, rounds: seq<Round>, out: Outcome) {
    && |rounds| >= 1
    && rounds[0].sentAt == start
    && (forall i | 0 <= i < |rounds| :: Answered(p, w, start, rounds[i], i))
    && (forall i | 1 <= i < |rounds| :: Retried(p, w, start, rounds[i - 1], rounds[i].sentAt, i))
    && Ended(p, w, start, rounds[|rounds| - 1], |rounds| - 1, out)
  }

  /** What one turn of the retry loop leads to. */
  datatype Turn = Stop(out: Outcome) | Again(at: int)

  /**
   One turn of the loop in do429. A wait for a slot ends with one only if one is
   free. `steps` are the call's steps among those of other calls.
   */
  method TakeTurn(p: Policy, w: World, slots: Slots.Semaphore, start: int, attempt: nat, sentAt: int)
    returns (turn: Turn, round: Round, ghost steps: seq<Slots.Step>)
    requires w.Ok() && attempt >= 1
    requires slots.Valid() && (w.slot(attempt - 1) == Got ==> slots.used < Slots.CAPACITY)
    modifies slots
    ensures slots.Valid() && slots.used == old(slots.used)
    ensures round.sentAt == sentAt && round.answer == w.answer(attempt - 1)
    ensures round.answeredAt == sentAt + w.answerTime(attempt - 1)
    ensures SleptWithin(p, w, start, round, attempt - 1)
    ensures turn.Stop? ==> Ended(p, w, start, round, attempt - 1, turn.out)
    ensures turn.Again? ==> attempt < p.maxAttempts && Retried(p, w, start, round, turn.at, attempt)
    ensures Slots.Path(p.maxAttempts, Slots.Sending(attempt), steps,
                       if turn.Stop? then Slots.Done else Slots.Sending(attempt + 1))
  {
    Slots.ShortPaths(p.maxAttempts, attempt);
    var n := attempt - 1;
    var answer, now := w.answer(n), sentAt + w.answerTime(n);
    round := Round(sentAt, answer, now, None);
    if !answer.Throttled() { return Stop(Returned(answer)), round, [Slots.Deliver]; }
    var delay := Delay(p.fallback, answer.retryAfter, attempt, now);
    var remaining := p.budget - (now - start);
    if attempt >= p.maxAttempts || delay > remaining { return Stop(Returned(answer)), round, [Slots.Deliver]; }
    var wait: int := delay + w.jitter(n, delay);
    if wait > remaining { wait := remaining; }
    assert WaitChosen(p, start, round, n, wait);
    var buffered := Buffered(answer);
    now := now + w.slotTime(n);
    match w.slot(n) {
      case ContextDone => return Stop(Cancelled), round, [Slots.Throttle] + [Slots.Abandon];
      case TimedOut => return Stop(Restored(buffered)), round, [Slots.Throttle] + [Slots.Abandon];
      case Got => slots.Acquire();
    }
    remaining := p.budget - (now - start);
    if wait > remaining {
      slots.Release();
      Slots.SlotPath(p.maxAttempts, attempt, false, true);
      return Stop(Restored(buffered)), round, Slots.SlotSteps(false, true);
    }
    var sleep := Sleep(now, wait, now + wait + w.overslept(n));
    slots.Release();
    now := sleep.until;
    var exit := w.sleepCancelled(n) || now - start >= p.budget;
    steps := Slots.SlotSteps(true, exit);
    Slots.SlotPath(p.maxAttempts, attempt, true, exit);
    if w.sleepCancelled(n) { return Stop(Cancelled), round, steps; }
    round := round.(slept := Some(sleep));
    if now - start >= p.budget { return Stop(Restored(buffered)), round, steps; }
    return Again(now), round, steps;
  }

  /** do429, with what each of its runs promises. */
  method Do429(idempotent: bool, p: Policy, w: World, slots: Slots.Semaphore, start: int)
    returns (out: Outcome, rounds: seq<Round>, ghost steps: seq<Slots.Step>)
    requires w.Ok()
    requires slots.Valid() && ((exists n :: w.slot(n) == Got) ==> slots.used < Slots.CAPACITY)
    modifies slots
    ensures slots.Valid() && slots.used == old(slots.used)
    ensures Slots.Path(p.maxAttempts, Slots.Sending(1), steps, Slots.Done)
    ensures !idempotent ==> |rounds| == 1 && rounds[0].answer == w.answer(0) && out == Returned(w.answer(0))
    ensures idempotent ==> Run(p, w, start, rounds, out)
    ensures 1 <= |rounds| && (|rounds| == 1 || |rounds| <= p.maxAttempts)
    ensures forall i: nat | 1 <= i < |rounds| :: rounds[i].sentAt < start + p.budget
    ensures forall i: nat | 1 <= i < |rounds| :: Honoured(rounds[i - 1], rounds[i].sentAt)
    ensures w.ExactSleep() ==>
              forall i: nat | i < |rounds| && rounds[i].slept.Some? :: rounds[i].slept.value.until <= start + p.budget
  {
    Slots.ShortPaths(p.maxAttempts, 1);
    rounds, steps := [], [];
    if !idempotent {
      rounds := [Round(start, w.answer(0), start + w.answerTime(0), None)];
      return Returned(w.answer(0)), rounds, [Slots.Deliver];
    }
    out, rounds, steps := Retry(p, w, slots, start);
    RunPromises(p, w, start, rounds, out);
  }

  /** The rounds so far, all throttled and slept through, lead to another request at `sentAt`. */
  ghost predicate Underway(p: Policy, w: World, start: int, rounds: seq<Round>, sentAt: int) {
    && (if rounds == [] then sentAt == start
        else rounds[0].sentAt == start && Retried(p, w, start, rounds[|rounds| - 1], sentAt, |rounds|))
    && (forall i | 0 <= i < |rounds| :: Answered(p, w, start, rounds[i], i))
    && (forall i | 1 <= i < |rounds| :: Retried(p, w, start, rounds[i - 1], rounds[i].sentAt, i))
  }

  lemma RoundAdds(p: Policy, w: World, start: int, rounds: seq<Round>, round: Round, turn: Turn)
    requires Underway(p, w, start, rounds, round.sentAt) && Answered(p, w, start, round, |rounds|)
    requires turn.Stop? ==> Ended(p, w, start, round, |rounds|, turn.out)
    requires turn.Again? ==> Retried(p, w, start, round, turn.at, |rounds| + 1)
    ensures turn.Stop? ==> Run(p, w, start, rounds + [round], turn.out)
    ensures turn.Again? ==> Underway(p, w, start, rounds + [round], turn.at)
  {
    var more := rounds + [round];
    forall i | 0 <= i < |more| ensures Answered(p, w, start, more[i], i) {
      if i < |rounds| { assert more[i] == rounds[i]; }
    }
    forall i | 1 <= i < |more| ensures Retried(p, w, start, more[i - 1], more[i].sentAt, i) {
      assert more[i - 1] == rounds[i - 1];
      if i < |rounds| { assert more[i] == rounds[i]; }
    }
  }

  /** The retry loop. */
  method Retry(p: Policy, w: World, slots: Slots.Semaphore, start: int)
    returns (out: Outcome, rounds: seq<Round>, ghost steps: seq<Slots.Step>)
    requires w.Ok()
    requires slots.Valid() && ((exists n :: w.slot(n) == Got) ==> slots.used < Slots.CAPACITY)
    modifies slots
    ensures slots.Valid() && slots.used == old(slots.used)
    ensures Slots.Path(p.maxAttempts, Slots.Sending(1), steps, Slots.Done)
    ensures Run(p, w, start, rounds, out)
  {
    rounds, steps := [], [];
    var attempt, sentAt := 1, start;
    while true
      invariant attempt == |rounds| + 1
      invariant slots.Valid() && slots.used == old(slots.used)
      invariant Slots.Path(p.maxAttempts, Slots.Sending(1), steps, Slots.Sending(attempt))
      invariant |rounds| > 0 ==> attempt <= p.maxAttempts
      invariant Underway(p, w, start, rounds, sentAt)
      decreases p.maxAttempts + 1 - attempt
    {
      var turn, round;
      ghost var taken;
      turn, round, taken := TakeTurn(p, w, slots, start, attempt, sentAt);
      RoundAdds(p, w, start, rounds, round, turn);
      Slots.PathJoin(p.maxAttempts, Slots.Sending(1), steps, Slots.Sending(attempt), taken,
                     if turn.Stop? then Slots.Done else Slots.Sending(attempt + 1));
      rounds, steps := rounds + [round], steps + taken;
      if turn.Stop? { return turn.out, rounds, steps; }
      attempt, sentAt := attempt + 1, turn.at;
    }
  }

  // ---------------------------------------------------------------- what every run keeps

  /** At most maxAttempts requests, and at least one. */
  lemma SendsBounded(p: Policy, w: World, start: int, rounds: seq<Round>, out: Outcome)
    requires Run(p, w, start, rounds, out)
    ensures 1 <= |rounds| && (|rounds| == 1 || |rounds| <= p.maxAttempts)
  {
    if |rounds| > 1 {
      assert Retried(p, w, start, rounds[|rounds| - 2], rounds[|rounds| - 1].sentAt, |rounds| - 1);
    }
  }

  /** No request after the first is sent once the budget is spent. */
  lemma NoSendPastBudget(p: Policy, w: World, start: int, rounds: seq<Round>, out: Outcome, i: nat)
    requires Run(p, w, start, rounds, out) && 1 <= i < |rounds|
    ensures rounds[i].sentAt < start + p.budget
  {
    assert Retried(p, w, start, rounds[i - 1], rounds[i].sentAt, i);
  }

  /** With exact sleeps, every sleep ends by start plus budget. */
  lemma SleepsEndInBudget(p: Policy, w: World, start: int, rounds: seq<Round>, out: Outcome, i: nat)
    requires Run(p, w, start, rounds, out) && w.ExactSleep() && i < |rounds| && rounds[i].slept.Some?
    ensures rounds[i].slept.value.until <= start + p.budget
  {
    assert Answered(p, w, start, rounds[i], i);
  }

  /**
   On the header itself: the next request follows a 429, no earlier than the date or the
   seconds it asked for; a date beyond 64 bits of nanoseconds counts as the last one.
   */
  ghost predicate Honoured(before: Round, sentAt: int) {
    && before.answer.Response? && before.answer.status == 429
    && match before.answer.retryAfter
       case DeltaSeconds(secs) =>
         secs >= 0 ==>
           sentAt >= before.answeredAt + (if secs <= 315_360_000 then secs else 315_360_000) * 1_000_000_000
       case HttpDate(at) => sentAt >= at || sentAt >= before.answeredAt + 9_223_372_036_854_775_807
       case _ => true
  }

  /** Every retry follows a 429 and honours its Retry-After. */
  lemma RetryAfterHonoured(p: Policy, w: World, start: int, rounds: seq<Round>, out: Outcome, i: nat)
    requires Run(p, w, start, rounds, out) && 1 <= i < |rounds|
    ensures Honoured(rounds[i - 1], rounds[i].sentAt)
  {
    assert Retried(p, w, start, rounds[i - 1], rounds[i].sentAt, i);
    HeaderMeans(rounds[i - 1].answer.retryAfter, rounds[i - 1].answeredAt);
  }

  /**
   The other direction: what is asked for is exceeded by no more than a quarter, the wait
   for a slot and oversleep. After a date already past the next request goes out at once.
   */
  lemma RetriedWithoutDelay(p: Policy, w: World, start: int, rounds: seq<Round>, out: Outcome, i: nat, d: nat)
    requires Run(p, w, start, rounds, out) && 1 <= i < |rounds| && rounds[i - 1].answer.Response?
    requires AsksFor(rounds[i - 1].answer.retryAfter, rounds[i - 1].answeredAt, d)
    ensures rounds[i].sentAt <= rounds[i - 1].answeredAt + d + d / 4 + w.slotTime(i - 1) + w.overslept(i - 1)
    ensures var h := rounds[i - 1].answer.retryAfter;
            h.HttpDate? && h.at <= rounds[i - 1].answeredAt ==>
              rounds[i].sentAt == rounds[i - 1].answeredAt + w.slotTime(i - 1) + w.overslept(i - 1)
  {
    assert Retried(p, w, start, rounds[i - 1], rounds[i].sentAt, i);
    HeaderMeans(rounds[i - 1].answer.retryAfter, rounds[i - 1].answeredAt);
  }

  /**
   A response that is handed over untouched is not a 429, or it is the last one allowed, or
   it asks for more than the budget has left, or the budget is already overdrawn.
   */
  lemma GivesUpOnlyIfDue(p: Policy, w: World, start: int, rounds: seq<Round>, out: Outcome)
    requires Run(p, w, start, rounds, out) && out.Returned?
    ensures var n, last := |rounds|, rounds[|rounds| - 1];
            var left := p.budget - (last.answeredAt - start);
            || out.answer.NetworkError? || out.answer.status != 429 || n >= p.maxAttempts
            || (exists d: nat :: AsksFor(out.answer.retryAfter, last.answeredAt, d) && d > left)
            || (AsksNothing(out.answer.retryAfter) && Backoff(p.fallback, n) > left)
  {
    var last := rounds[|rounds| - 1];
    if last.answer.Response? {
      var h := last.answer.retryAfter;
      HeaderMeans(h, last.answeredAt);
      if !AsksNothing(h) {
        assert AsksFor(h, last.answeredAt, ParseRetryAfter(h, last.answeredAt).value);
      }
    }
  }

  /** A handed-over network error or response other than 429 ended the call at once. */
  lemma OthersAreNotRetried(p: Policy, w: World, start: int, rounds: seq<Round>, out: Outcome, i: nat)
    requires Run(p, w, start, rounds, out) && i < |rounds|
    requires w.answer(i).NetworkError? || w.answer(i).status != 429
    ensures i == |rounds| - 1 && out == Returned(w.answer(i))
  {
    LatestResponseReturned(p, w, start, rounds, out);
  }

  lemma RunPromises(p: Policy, w: World, start: int, rounds: seq<Round>, out: Outcome)
    requires Run(p, w, start, rounds, out)
    ensures |rounds| == 1 || |rounds| <= p.maxAttempts
    ensures forall i: nat | 1 <= i < |rounds| :: rounds[i].sentAt < start + p.budget
    ensures forall i: nat | 1 <= i < |rounds| :: Honoured(rounds[i - 1], rounds[i].sentAt)
    ensures w.ExactSleep() ==>
              forall i: nat | i < |rounds| && rounds[i].slept.Some? :: rounds[i].slept.value.until <= start + p.budget
  {
    SendsBounded(p, w, start, rounds, out);
    forall i: nat | 1 <= i < |rounds|
      ensures rounds[i].sentAt < start + p.budget && Honoured(rounds[i - 1], rounds[i].sentAt)
    {
      NoSendPastBudget(p, w, start, rounds, out, i);
      RetryAfterHonoured(p, w, start, rounds, out, i);
    }
    if w.ExactSleep() {
      forall i: nat | i < |rounds| && rounds[i].slept.Some? ensures rounds[i].slept.value.until <= start + p.budget {
        SleepsEndInBudget(p, w, start, rounds, out, i);
      }
    }
  }

  /**
   Without a usable header, retries back off: the pause before retry i is
   min(8 s, base * 2^(i-1)), and up to a quarter, the slot wait and oversleep more.
   */
  lemma {:induction false} FallbackBacksOff(p: Policy, w: World, start: int, rounds: seq<Round>, out: Outcome, i: nat)
    requires Run(p, w, start, rounds, out) && 1 <= i < |rounds|
    requires rounds[i - 1].answer.Response? && AsksNothing(rounds[i - 1].answer.retryAfter)
    requires 0 < p.fallback <= 4_294_967_296
    ensures var d := p.fallback * Pow2(i - 1);
            var pause := if d < 8_000_000_000 then d else 8_000_000_000;
            && rounds[i].sentAt >= rounds[i - 1].answeredAt + pause
            && rounds[i].sentAt
               <= rounds[i - 1].answeredAt + pause + pause / 4 + w.slotTime(i - 1) + w.overslept(i - 1)
  {
    HeaderMeans(rounds[i - 1].answer.retryAfter, rounds[i - 1].answeredAt);
    assert Retried(p, w, start, rounds[i - 1], rounds[i].sentAt, i);
    BackoffExact(p.fallback, i);
  }

  /**
   A handed-over response is the latest one, headers intact; only a buffered
   429 can lose body, and only past 64 KiB. Anything but a 429 is never retried.
   */
  lemma LatestResponseReturned(p: Policy, w: World, start: int, rounds: seq<Round>, out: Outcome)
    requires Run(p, w, start, rounds, out)
    ensures var last := w.answer(|rounds| - 1);
            match out
            case Returned(a) => a == last
            case Restored(a) =>
              && last.Response? && last.status == 429 && a.Response? && a.status == 429
              && a.retryAfter == last.retryAfter
              && a.body <= last.body && |a.body| == (if |last.body| < 65_536 then |last.body| else 65_536)
            case Cancelled => last.Response? && last.status == 429
    ensures forall i | 0 <= i < |rounds| - 1 :: w.answer(i).Response? && w.answer(i).status == 429
  {
    forall i | 0 <= i < |rounds| - 1 ensures w.answer(i).Response? && w.answer(i).status == 429 {
      assert Retried(p, w, start, rounds[i + 1 - 1], rounds[i + 1].sentAt, i + 1);
    }
  }
}
