/**
 Deferred authentication (internal/mcp/client_info.go:96-118): double-checked
 locking as interleaved steps of any number of tool calls.
 */
module DeferredAuth {
  import opened Wrappers

  /** Where a tool call stands in the middleware. */
  datatype Pc =
    | Arrived
    | WantsLock
    | Locked                  // holds the mutex, session to be re-checked
    | Authenticating          // holds the mutex
    | Unlocking(ok: bool)     // holds the mutex, about to release it
    | Handling                // the tool handler runs
    | Refused                 // answered with the authentication error

  /** `accepted` lists the sessions successful authentications produced. */
  datatype State = State(session: Option<nat>, lock: Option<nat>, calls: map<nat, Pc>, accepted: seq<nat>)

  datatype Step =
    | Arrive
    | Check                    // the lock-free load of the session pointer
    | Lock
    | Recheck                  // the second load, under the mutex
    | Accept(session: nat)     // authenticate succeeds and its session is stored
    | Reject                   // authenticate fails
    | Unlock

  predicate At(s: State, c: nat, pc: Pc) {
    c in s.calls && s.calls[c] == pc
  }

  function Goto(s: State, c: nat, pc: Pc): State {
    s.(calls := s.calls[c := pc])
  }

  ghost predicate Next(s: State, c: nat, step: Step, s': State) {
    match step
    case Arrive => c !in s.calls && s' == Goto(s, c, Arrived)
    case Check => At(s, c, Arrived) && s' == Goto(s, c, if s.session.Some? then Handling else WantsLock)
    case Lock => At(s, c, WantsLock) && s.lock == None && s' == Goto(s, c, Locked).(lock := Some(c))
    case Recheck => At(s, c, Locked) && s' == Goto(s, c, if s.session.Some? then Unlocking(true) else Authenticating)
    case Accept(session) =>
      && At(s, c, Authenticating)
      && s' == Goto(s, c, Unlocking(true)).(session := Some(session), accepted := s.accepted + [session])
    case Reject => At(s, c, Authenticating) && s' == Goto(s, c, Unlocking(false))
    case Unlock =>
      && c in s.calls && s.calls[c].Unlocking?
      && s' == Goto(s, c, if s.calls[c].ok then Handling else Refused).(lock := None)
  }

  predicate Critical(pc: Pc) {
    pc.Locked? || pc.Authenticating? || pc.Unlocking?
  }

  ghost predicate Inv(s: State) {
    // the mutex is held by exactly the call in the critical section
    && (forall c | c in s.calls :: Critical(s.calls[c]) <==> s.lock == Some(c))
    && (s.lock.Some? ==> s.lock.value in s.calls)
    // the session is the one successful authentication, if there was one
    && s.accepted == (if s.session.Some? then [s.session.value] else [])
    // nobody authenticates, or has just failed to, once there is a session
    && (forall c | c in s.calls && s.calls[c] in {Authenticating, Unlocking(false)} :: s.session.None?)
    // no handler runs without a session
    && (forall c | c in s.calls && s.calls[c] in {Handling, Unlocking(true)} :: s.session.Some?)
  }

  lemma StepKeepsInv(s: State, c: nat, step: Step, s': State)
    requires Inv(s) && Next(s, c, step, s')
    ensures Inv(s')
    ensures s.session.Some? ==> s'.session == s.session
  {
  }

  ghost predicate Run(states: seq<State>, who: seq<nat>, steps: seq<Step>) {
    && |states| == |steps| + 1 && |who| == |steps|
    && states[0] == State(None, None, map[], [])
    && forall i | 0 <= i < |steps| :: Next(states[i], who[i], steps[i], states[i + 1])
  }

  /**
   In every interleaving at most one authentication ever succeeds, a stored
   session never changes, and no handler runs before one is stored.
   */
  lemma {:induction false} EveryRun(states: seq<State>, who: seq<nat>, steps: seq<Step>, m: nat, n: nat)
    requires Run(states, who, steps) && m <= n < |states|
    ensures Inv(states[n]) && |states[n].accepted| <= 1
    ensures states[m].session.Some? ==> states[n].session == states[m].session
    ensures forall c | c in states[n].calls && states[n].calls[c] == Handling :: states[n].session.Some?
    decreases n
  {
    if n > 0 {
      EveryRun(states, who, steps, if m < n then m else n - 1, n - 1);
      assert Next(states[n - 1], who[n - 1], steps[n - 1], states[n - 1 + 1]);
      StepKeepsInv(states[n - 1], who[n - 1], steps[n - 1], states[n]);
    }
  }

  /** The call took this step before state n. */
  ghost predicate Took(who: seq<nat>, steps: seq<Step>, c: nat, step: Step, n: nat)
    requires |who| == |steps|
  {
    exists i :: 0 <= i < n && i < |steps| && who[i] == c && steps[i] == step
  }

  ghost predicate Authenticated(who: seq<nat>, steps: seq<Step>, c: nat, n: nat)
    requires |who| == |steps|
  {
    exists i :: 0 <= i < n && i < |steps| && who[i] == c && steps[i].Accept?
  }

  /**
   Over every run: a call is refused only after its own authentication was rejected, and
   one whose authentication succeeded goes on to its handler.
   */
  lemma {:induction false} OwnOutcome(states: seq<State>, who: seq<nat>, steps: seq<Step>, c: nat, n: nat)
    requires Run(states, who, steps) && n < |states|
    ensures c in states[n].calls && states[n].calls[c] in {Refused, Unlocking(false)} ==> Took(who, steps, c, Reject, n)
    ensures Authenticated(who, steps, c, n) ==>
              c in states[n].calls && states[n].calls[c] in {Unlocking(true), Handling}
  {
    if n > 0 {
      OwnOutcome(states, who, steps, c, n - 1);
      var s, s', step := states[n - 1], states[n - 1 + 1], steps[n - 1];
      assert Next(s, who[n - 1], step, s');
      if who[n - 1] == c && step == Reject { assert Took(who, steps, c, Reject, n); }
      if who[n - 1] != c || !step.Accept? {
        assert Authenticated(who, steps, c, n) ==> Authenticated(who, steps, c, n - 1);
      }
    }
  }

  /** A failed attempt, like a successful one, leaves the mutex free and the session as it was. */
  lemma UnlockFrees(s: State, c: nat, s': State)
    requires Inv(s) && Next(s, c, Unlock, s')
    ensures s'.lock == None && s'.session == s.session
    ensures s.calls[c] == Unlocking(false) ==> s'.calls[c] == Refused && s'.session == None
    ensures forall w | w in s'.calls && s'.calls[w] == WantsLock :: exists s'' :: Next(s', w, Lock, s'')
  {
    forall w | w in s'.calls && s'.calls[w] == WantsLock ensures exists s'' :: Next(s', w, Lock, s'') {
      assert Next(s', w, Lock, Goto(s', w, Locked).(lock := Some(w)));
    }
  }

  /** A waiting call waits only for a lock holder that can itself move on. */
  lemma HolderCanMove(s: State)
    requires Inv(s) && s.lock.Some?
    ensures exists step: Step, s' :: step != Arrive && Next(s, s.lock.value, step, s')
  {
    var c := s.lock.value;
    match s.calls[c]
    case Locked =>
      assert Next(s, c, Recheck, Goto(s, c, if s.session.Some? then Unlocking(true) else Authenticating));
    case Authenticating =>
      assert Next(s, c, Reject, Goto(s, c, Unlocking(false)));
    case Unlocking(ok) =>
      assert Next(s, c, Unlock, Goto(s, c, if ok then Handling else Refused).(lock := None));
  }

  /** Once a session is stored, the only step of a newly arriving call is into its handler. */
  lemma FastPath(s: State, c: nat)
    requires Inv(s) && At(s, c, Arrived) && s.session.Some?
    ensures Next(s, c, Check, Goto(s, c, Handling))
    ensures forall step: Step, s' | Next(s, c, step, s') :: s' == Goto(s, c, Handling) && s'.lock == s.lock
  {
  }

  /**
   In every run, a call that arrives once a session is stored never waits for the
   mutex or takes it: it is either about to load the session or in its handler.
   */
  lemma {:induction false} LateCallsSkipLock(
    states: seq<State>, who: seq<nat>, steps: seq<Step>, c: nat, m: nat, n: nat)
    requires Run(states, who, steps) && m <= n < |states|
    requires states[m].session.Some? && c !in states[m].calls
    ensures c in states[n].calls ==> states[n].calls[c] in {Arrived, Handling} && states[n].lock != Some(c)
    decreases n
  {
    EveryRun(states, who, steps, m, n);
    if m < n {
      LateCallsSkipLock(states, who, steps, c, m, n - 1);
      EveryRun(states, who, steps, m, n - 1);
      assert Next(states[n - 1], who[n - 1], steps[n - 1], states[n - 1 + 1]);
    }
  }
}
