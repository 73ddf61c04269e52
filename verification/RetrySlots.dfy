/**
 The semaphore that bounds how many calls of one client wait out a 429 at once
 (internal/mcp/retry429.go:37-40, 144-231), as interleaved steps of any number
 of concurrent calls.
 */
module RetrySlots {
  import opened Wrappers

  const CAPACITY: nat := 4

  /** Where a call stands in do429; `attempt` counts its requests. */
  datatype Pc =
    | Sending(attempt: nat)        // a request is in flight
    | AwaitingSlot(attempt: nat)   // blocked sending into the slot channel
    | Holding(attempt: nat)        // slot acquired, budget being re-checked
    | Sleeping(attempt: nat)
    | Releasing(attempt: nat, exit: bool)  // about to receive from the channel; then return or resend
    | Done

  /** `slots` is the number of values in the channel. */
  datatype State = State(slots: nat, calls: map<nat, Pc>)

  predicate HoldsSlot(pc: Pc) {
    pc.Holding? || pc.Sleeping? || pc.Releasing?
  }

  ghost function Holders(s: State): set<nat> {
    set c | c in s.calls && HoldsSlot(s.calls[c])
  }

  datatype Step =
    | Begin                    // a new call sends its first request
    | Deliver                  // the answer ends the call
    | Throttle                 // a 429 that may be retried
    | Acquire                  // the channel send goes through
    | Abandon                  // the slot wait times out or the context ends
    | TooLate                  // the budget no longer covers the wait
    | FallAsleep
    | Wake(exit: bool)         // the sleep ends: cancelled or spent, or about to resend
    | Release                  // the channel receive goes through

  /** The step call c may take, and its effect. */
  ghost predicate Next(maxAttempts: nat, s: State, c: nat, step: Step, s': State) {
    match step
    case Begin =>
      c !in s.calls && s' == s.(calls := s.calls[c := Sending(1)])
    case Deliver =>
      c in s.calls && s.calls[c].Sending? && s' == s.(calls := s.calls[c := Done])
    case Throttle =>
      && c in s.calls && s.calls[c].Sending? && s.calls[c].attempt < maxAttempts
      && s' == s.(calls := s.calls[c := AwaitingSlot(s.calls[c].attempt)])
    case Acquire =>
      && c in s.calls && s.calls[c].AwaitingSlot? && s.slots < CAPACITY
      && s' == State(s.slots + 1, s.calls[c := Holding(s.calls[c].attempt)])
    case Abandon =>
      c in s.calls && s.calls[c].AwaitingSlot? && s' == s.(calls := s.calls[c := Done])
    case TooLate =>
      && c in s.calls && s.calls[c].Holding?
      && s' == s.(calls := s.calls[c := Releasing(s.calls[c].attempt, true)])
    case FallAsleep =>
      && c in s.calls && s.calls[c].Holding?
      && s' == s.(calls := s.calls[c := Sleeping(s.calls[c].attempt)])
    case Wake(exit) =>
      && c in s.calls && s.calls[c].Sleeping?
      && s' == s.(calls := s.calls[c := Releasing(s.calls[c].attempt, exit)])
    case Release =>
      && c in s.calls && s.calls[c].Releasing? && s.slots > 0
      && s' == State(s.slots - 1,
                     s.calls[c := if s.calls[c].exit then Done else Sending(s.calls[c].attempt + 1)])
  }

  /** What a step does to the call that takes it, whatever other calls do. */
  function Local(maxAttempts: nat, pc: Pc, step: Step): Option<Pc> {
    match (pc, step)
    case (Sending(_), Deliver) => Some(Done)
    case (Sending(a), Throttle) => if a < maxAttempts then Some(AwaitingSlot(a)) else None
    case (AwaitingSlot(a), Acquire) => Some(Holding(a))
    case (AwaitingSlot(_), Abandon) => Some(Done)
    case (Holding(a), TooLate) => Some(Releasing(a, true))
    case (Holding(a), FallAsleep) => Some(Sleeping(a))
    case (Sleeping(a), Wake(exit)) => Some(Releasing(a, exit))
    case (Releasing(a, exit), Release) => Some(if exit then Done else Sending(a + 1))
    case _ => None
  }

  /** The call goes from pc to pc' by these steps of its own. */
  predicate Path(maxAttempts: nat, pc: Pc, steps: seq<Step>, pc': Pc)
    decreases steps
  {
    if steps == [] then pc == pc'
    else
      var next := Local(maxAttempts, pc, steps[0]);
      next.Some? && Path(maxAttempts, next.value, steps[1..], pc')
  }

  lemma PathCons(maxAttempts: nat, pc: Pc, step: Step, next: Pc, steps: seq<Step>, pc': Pc)
    requires Local(maxAttempts, pc, step) == Some(next) && Path(maxAttempts, next, steps, pc')
    ensures Path(maxAttempts, pc, [step] + steps, pc')
  {
    assert ([step] + steps)[1..] == steps;
  }

  /** The steps of a throttled call that gets a slot: it gives up at once, or sleeps and then ends or resends. */
  function SlotSteps(slept: bool, exit: bool): seq<Step> {
    [Throttle] + ([Acquire] + ((if slept then [FallAsleep, Wake(exit)] else [TooLate]) + [Release]))
  }

  lemma SlotPath(maxAttempts: nat, a: nat, slept: bool, exit: bool)
    requires a < maxAttempts && (!slept ==> exit)
    ensures Path(maxAttempts, Sending(a), SlotSteps(slept, exit), if exit then Done else Sending(a + 1))
  {
    var end := if exit then Done else Sending(a + 1);
    PathCons(maxAttempts, Releasing(a, exit), Release, end, [], end);
    assert [Release] + [] == [Release];
    if slept {
      PathCons(maxAttempts, Sleeping(a), Wake(exit), Releasing(a, exit), [Release], end);
      PathCons(maxAttempts, Holding(a), FallAsleep, Sleeping(a), [Wake(exit)] + [Release], end);
      assert [FallAsleep] + ([Wake(exit)] + [Release]) == [FallAsleep, Wake(exit)] + [Release];
    } else {
      PathCons(maxAttempts, Holding(a), TooLate, Releasing(a, exit), [Release], end);
    }
    var rest := (if slept then [FallAsleep, Wake(exit)] else [TooLate]) + [Release];
    PathCons(maxAttempts, AwaitingSlot(a), Acquire, Holding(a), rest, end);
    PathCons(maxAttempts, Sending(a), Throttle, AwaitingSlot(a), [Acquire] + rest, end);
  }

  lemma ShortPaths(maxAttempts: nat, a: nat)
    ensures Path(maxAttempts, Sending(a), [Deliver], Done)
    ensures a < maxAttempts ==> Path(maxAttempts, Sending(a), [Throttle] + [Abandon], Done)
  {
    PathCons(maxAttempts, Sending(a), Deliver, Done, [], Done);
    assert [Deliver] + [] == [Deliver] && [Abandon] + [] == [Abandon];
    if a < maxAttempts {
      PathCons(maxAttempts, AwaitingSlot(a), Abandon, Done, [], Done);
      PathCons(maxAttempts, Sending(a), Throttle, AwaitingSlot(a), [Abandon], Done);
    }
  }

  lemma {:induction false} PathJoin(maxAttempts: nat, pc: Pc, steps: seq<Step>, mid: Pc, more: seq<Step>, pc': Pc)
    requires Path(maxAttempts, pc, steps, mid) && Path(maxAttempts, mid, more, pc')
    ensures Path(maxAttempts, pc, steps + more, pc')
    decreases steps
  {
    if steps == [] {
      assert steps + more == more;
    } else {
      PathJoin(maxAttempts, Local(maxAttempts, pc, steps[0]).value, steps[1..], mid, more, pc');
      assert (steps + more)[1..] == steps[1..] + more;
    }
  }

  ghost predicate AttemptsBounded(maxAttempts: nat, s: State) {
    forall c | c in s.calls ::
      match s.calls[c]
      case Done => true
      case Sending(a) => 1 <= a && (a == 1 || a <= maxAttempts)
      case AwaitingSlot(a) => 1 <= a < maxAttempts
      case Holding(a) => 1 <= a < maxAttempts
      case Sleeping(a) => 1 <= a < maxAttempts
      case Releasing(a, _) => 1 <= a < maxAttempts
  }

  /** The channel holds one value per call between acquire and release, and never more than four. */
  ghost predicate Inv(maxAttempts: nat, s: State) {
    && s.slots == |Holders(s)|
    && s.slots <= CAPACITY
    && AttemptsBounded(maxAttempts, s)
  }

  lemma HoldersAfter(s: State, c: nat, pc: Pc, slots: nat)
    ensures Holders(State(slots, s.calls[c := pc])) ==
      if HoldsSlot(pc) then Holders(s) + {c} else Holders(s) - {c}
  {
  }

  lemma StepKeepsInv(maxAttempts: nat, s: State, c: nat, step: Step, s': State)
    requires Inv(maxAttempts, s) && Next(maxAttempts, s, c, step, s')
    ensures Inv(maxAttempts, s')
  {
    HoldersAfter(s, c, s'.calls[c], s'.slots);
    assert s' == State(s'.slots, s.calls[c := s'.calls[c]]);
  }

  /** Every interleaving: any sequence of steps by any calls from the idle client. */
  ghost predicate Run(maxAttempts: nat, states: seq<State>, who: seq<nat>, steps: seq<Step>) {
    && |states| == |steps| + 1 && |who| == |steps|
    && states[0] == State(0, map[])
    && forall i | 0 <= i < |steps| :: Next(maxAttempts, states[i], who[i], steps[i], states[i + 1])
  }

  /** Slots in use equal the calls between acquire and release, and never exceed four. */
  lemma {:induction false} EveryRunKeepsSlots(
    maxAttempts: nat, states: seq<State>, who: seq<nat>, steps: seq<Step>, n: nat)
    requires Run(maxAttempts, states, who, steps) && n < |states|
    ensures Inv(maxAttempts, states[n])
    ensures states[n].slots == |Holders(states[n])| <= 4
  {
    if n == 0 {
      assert Holders(states[0]) == {};
    } else {
      EveryRunKeepsSlots(maxAttempts, states, who, steps, n - 1);
      assert Next(maxAttempts, states[n - 1], who[n - 1], steps[n - 1], states[n - 1 + 1]);
      StepKeepsInv(maxAttempts, states[n - 1], who[n - 1], steps[n - 1], states[n]);
    }
  }

  /**
   In every state, any other calls beside it, a call can take exactly its own local
   steps, except that an acquire waits for a free slot.
   */
  lemma LocalStepsAreSteps(maxAttempts: nat, s: State, c: nat, step: Step)
    requires Inv(maxAttempts, s) && c in s.calls && !step.Begin?
    ensures (exists s' :: Next(maxAttempts, s, c, step, s'))
            <==> Local(maxAttempts, s.calls[c], step).Some? && (step.Acquire? ==> s.slots < CAPACITY)
    ensures forall s' | Next(maxAttempts, s, c, step, s') ::
              c in s'.calls && Local(maxAttempts, s.calls[c], step) == Some(s'.calls[c])
  {
    var pc := Local(maxAttempts, s.calls[c], step);
    if pc.Some? && (step.Acquire? ==> s.slots < CAPACITY) {
      if step.Release? { assert c in Holders(s); }
      var slots := if step.Acquire? then s.slots + 1 else if step.Release? then s.slots - 1 else s.slots;
      assert Next(maxAttempts, s, c, step, State(slots, s.calls[c := pc.value]));
    }
  }

  /**
   Every exit path: the step that ends a call leaves it holding no slot, and the
   slots in use are exactly those of the other calls.
   */
  lemma ExitHoldsNothing(maxAttempts: nat, s: State, c: nat, step: Step, s': State)
    requires Inv(maxAttempts, s) && Next(maxAttempts, s, c, step, s') && s'.calls[c] == Done
    ensures c !in Holders(s') && Holders(s') == Holders(s) - {c} && s'.slots == |Holders(s) - {c}|
  {
    StepKeepsInv(maxAttempts, s, c, step, s');
    HoldersAfter(s, c, Done, s'.slots);
    assert s' == State(s'.slots, s.calls[c := Done]);
  }

  /** A call that has returned holds nothing: once all calls are done, every slot is back. */
  lemma AllDoneFreesAll(maxAttempts: nat, s: State)
    requires Inv(maxAttempts, s)
    requires forall c | c in s.calls :: s.calls[c] == Done
    ensures s.slots == 0
  {
    assert Holders(s) == {};
  }

  /** Releasing never blocks. */
  lemma ReleaseNeverBlocks(maxAttempts: nat, s: State, c: nat)
    requires Inv(maxAttempts, s) && c in s.calls && s.calls[c].Releasing?
    ensures exists s' :: Next(maxAttempts, s, c, Release, s')
  {
    assert c in Holders(s);
    var s' := State(s.slots - 1, s.calls[c := if s.calls[c].exit then Done else Sending(s.calls[c].attempt + 1)]);
    assert Next(maxAttempts, s, c, Release, s');
  }

  /**
   A waiting call is kept waiting only while four other calls hold slots, and
   each of those can move on without any other call's help.
   */
  lemma WaitingIsJustified(maxAttempts: nat, s: State, c: nat)
    requires Inv(maxAttempts, s) && c in s.calls && s.calls[c].AwaitingSlot?
    requires !exists s' :: Next(maxAttempts, s, c, Acquire, s')
    ensures |Holders(s)| == CAPACITY && c !in Holders(s)
    ensures forall h | h in Holders(s) :: exists step: Step, s' :: !step.Begin? && Next(maxAttempts, s, h, step, s')
  {
    if s.slots < CAPACITY {
      assert Next(maxAttempts, s, c, Acquire, State(s.slots + 1, s.calls[c := Holding(s.calls[c].attempt)]));
    }
    forall h | h in Holders(s) ensures exists step: Step, s' :: !step.Begin? && Next(maxAttempts, s, h, step, s') {
      var a := s.calls[h].attempt;
      match s.calls[h]
      case Holding(_) => assert Next(maxAttempts, s, h, TooLate, s.(calls := s.calls[h := Releasing(a, true)]));
      case Sleeping(_) => assert Next(maxAttempts, s, h, Wake(true), s.(calls := s.calls[h := Releasing(a, true)]));
      case Releasing(_, _) => ReleaseNeverBlocks(maxAttempts, s, h);
    }
  }

  /** How many of the first n steps sent a request of call c. */
  ghost function SendsOf(states: seq<State>, who: seq<nat>, steps: seq<Step>, c: nat, n: nat): nat
    requires |who| == |steps| && |states| == |steps| + 1 && n <= |steps|
  {
    if n == 0 then 0
    else
      SendsOf(states, who, steps, c, n - 1) +
      (if who[n - 1] == c && c in states[n].calls && states[n].calls[c].Sending? then 1 else 0)
  }

  /** In every interleaving a call sends at most maxAttempts requests. */
  lemma {:induction false} SendsBounded(
    maxAttempts: nat, states: seq<State>, who: seq<nat>, steps: seq<Step>, c: nat, n: nat)
    requires Run(maxAttempts, states, who, steps) && n <= |steps|
    ensures var sends, calls := SendsOf(states, who, steps, c, n), states[n].calls;
            if c !in calls then sends == 0
            else if calls[c].Done? then 1 <= sends && (sends == 1 || sends <= maxAttempts)
            else sends == calls[c].attempt
    ensures SendsOf(states, who, steps, c, n) <= 1 || SendsOf(states, who, steps, c, n) <= maxAttempts
  {
    EveryRunKeepsSlots(maxAttempts, states, who, steps, n);
    if n > 0 {
      SendsBounded(maxAttempts, states, who, steps, c, n - 1);
      EveryRunKeepsSlots(maxAttempts, states, who, steps, n - 1);
      assert Next(maxAttempts, states[n - 1], who[n - 1], steps[n - 1], states[n - 1 + 1]);
    }
  }

  // ---------------------------------------------------------------- the channel

  /** The slot channel: the number of values in it. */
  class Semaphore {
    var used: nat

    constructor ()
      ensures used == 0
    {
      used := 0;
    }

    ghost predicate Valid()
      reads this
    {
      used <= CAPACITY
    }

    /** The send of acquireRetrySlot once it goes through. */
    method Acquire()
      requires Valid() && used < CAPACITY
      modifies this
      ensures Valid() && used == old(used) + 1
    {
      used := used + 1;
    }

    /** The receive of releaseRetrySlot. */
    method Release()
      requires Valid() && used > 0
      modifies this
      ensures Valid() && used == old(used) - 1
    {
      used := used - 1;
    }
  }
}
