/**
 Background eviction under every interleaving (main.go:819-837, ratelimit.go:94-107):
 it leaves no trace as long as nobody has read the clock before an eviction that got the
 lock ahead of them, API calls in flight included.
 */
module AuthEviction {
  import opened Wrappers
  import RL = RateLimit
  import opened SessionCache
  import opened AuthGate

  predicate Evicts(step: Step) {
    step.EvictSessions? || step.EvictBuckets?
  }

  /**
   The step has not read the clock before a session eviction that got the lock ahead of
   it, and does not use a window behind those that an idle eviction has cleared.
   */
  predicate Timely(s: Gate, step: Step) {
    match step
    case Arrive(_, _, _, _, read) => s.swept <= read + 1
    case LookUp(_, read) => s.swept <= read + 1
    case PassLimiter(_, read) => s.horizon <= RL.Window(read)
    case Respond(id, read) => Rejected(s, id) ==> s.horizon <= RL.Window(read)
    case _ => true
  }

  ghost predicate RunTimely(states: seq<Gate>, steps: seq<Step>)
    requires |states| == |steps| + 1
  {
    forall i | 0 <= i < |steps| :: Timely(states[i], steps[i])
  }

  /** Nobody who comes in time can tell the two gates apart. */
  ghost predicate Alike(s: Gate, t: Gate) {
    && s == t.(caches := s.caches, buckets := s.buckets, swept := s.swept, horizon := s.horizon)
    && AgreeFrom(s.caches, t.caches, s.swept - 1)
    && RL.AgreeFrom(s.buckets, t.buckets, s.horizon)
  }

  lemma EvictingStaysAlike(c: Config, s: Gate, step: Step, s': Gate, t: Gate)
    requires Next(c, s, step, s') && Evicts(step) && Alike(s, t)
    ensures Alike(s', t)
  {
    match step
    case EvictSessions(read) => EvictKeepsAgreement(s.caches, t.caches, s.swept, read);
    case EvictBuckets(read) => RL.EvictKeepsAgreement(s.buckets, t.buckets, read, s.horizon);
  }

  lemma LimiterStaysAlike(c: Config, s: Gate, t: Gate, ip: string, read: nat)
    requires Alike(s, t) && s.horizon <= RL.Window(read)
    ensures Spent(c.rpm, s.buckets, ip, read) <==> Spent(c.rpm, t.buckets, ip, read)
    ensures RL.AgreeFrom(ChargeIf(c.rpm, s.buckets, ip, RL.Window(read)),
                         ChargeIf(c.rpm, t.buckets, ip, RL.Window(read)), s.horizon)
  {
    assert RL.CountIn(s.buckets, ip, RL.Window(read)) == RL.CountIn(t.buckets, ip, RL.Window(read));
    RL.ChargeKeepsAgreement(s.buckets, t.buckets, ip, RL.Window(read), s.horizon);
  }

  lemma ArrivalStaysAlike(s: Gate, t: Gate, id: nat, key: string, ip: string, oauth: bool, read: nat)
    requires Alike(s, t) && s.swept <= read + 1
    ensures Alike(Arrived(s, id, key, ip, oauth, read), Arrived(t, id, key, ip, oauth, read))
  {
    AgreeOnLookup(s.caches, t.caches, s.swept - 1, key, read);
  }

  lemma PassingStaysAlike(c: Config, s: Gate, t: Gate, id: nat, read: nat)
    requires Alike(s, t) && id in s.flights && s.horizon <= RL.Window(read)
    ensures Alike(PastLimiter(c, s, id, read), PastLimiter(c, t, id, read))
  {
    LimiterStaysAlike(c, s, t, s.flights[id].ip, read);
  }

  lemma LookupStaysAlike(s: Gate, t: Gate, id: nat, read: nat)
    requires Alike(s, t) && id in s.flights && s.swept <= read + 1
    ensures Alike(LookedUp(s, id, read), LookedUp(t, id, read))
  {
    AgreeOnLookup(s.caches, t.caches, s.swept - 1, s.flights[id].key, read);
  }

  lemma RecordStaysAlike(c: Config, s: Gate, t: Gate, id: nat)
    requires Alike(s, t) && HasVerdict(s, id)
    ensures Alike(Recorded(c, s, id), Recorded(c, t, id))
  {
    RecordKeepsAgreement(c.ttls, s.caches, t.caches, s.flights[id].key,
                         s.api[s.flights[id].phase.call].verdict, s.swept - 1, s.now);
  }

  lemma ReplyStaysAlike(c: Config, s: Gate, t: Gate, id: nat, read: nat)
    requires Alike(s, t) && Answerable(s, id) && (Rejected(s, id) ==> s.horizon <= RL.Window(read))
    ensures Alike(Responded(c, s, id, read), Responded(c, t, id, read))
  {
    if Rejected(s, id) { LimiterStaysAlike(c, s, t, s.flights[id].ip, read); }
  }

  /** Any other timely step can be taken in the gate without evictions as well, and to the same effect. */
  lemma StepStaysAlike(c: Config, s: Gate, step: Step, s': Gate, t: Gate) returns (t': Gate)
    requires Next(c, s, step, s') && !Evicts(step) && Timely(s, step) && Alike(s, t)
    ensures Next(c, t, step, t') && Alike(s', t')
  {
    match step
    case Tick(to) => t' := t.(now := to);
    case Arrive(id, key, ip, oauth, read) =>
      ArrivalStaysAlike(s, t, id, key, ip, oauth, read);
      t' := Arrived(t, id, key, ip, oauth, read);
    case PassLimiter(id, read) =>
      PassingStaysAlike(c, s, t, id, read);
      t' := PastLimiter(c, t, id, read);
    case LookUp(id, read) =>
      LookupStaysAlike(s, t, id, read);
      t' := LookedUp(t, id, read);
    case ApiAnswers(id, verdict) => t' := ApiAnswered(t, id, verdict);
    case RecordVerdict(id) =>
      RecordStaysAlike(c, s, t, id);
      t' := Recorded(c, t, id);
    case Respond(id, read) =>
      ReplyStaysAlike(c, s, t, id, read);
      t' := Responded(c, t, id, read);
  }

  function WithoutEvictions(steps: seq<Step>): seq<Step> {
    if steps == [] then []
    else
      var init, last := steps[..|steps| - 1], steps[|steps| - 1];
      if Evicts(last) then WithoutEvictions(init) else WithoutEvictions(init) + [last]
  }

  /**
   Whatever expired sessions, failures and idle buckets are evicted, and whenever: if
   every step is timely, the same run without evictions tells every request the same,
   asks the API the same and charges the same.
   */
  lemma {:induction false} EvictionLeavesNoTrace(c: Config, states: seq<Gate>, steps: seq<Step>)
    returns (clean: seq<Gate>)
    requires Run(c, states, steps) && RunTimely(states, steps)
    ensures Run(c, clean, WithoutEvictions(steps))
    ensures Alike(states[|steps|], clean[|clean| - 1])
  {
    var n := |steps|;
    if n == 0 { return [INIT]; }
    var init, s, s' := steps[..n - 1], states[n - 1], states[n - 1 + 1];
    assert Next(c, s, steps[n - 1], s') && Timely(s, steps[n - 1]);
    clean := EvictionLeavesNoTrace(c, states[..n], init);
    var t := clean[|clean| - 1];
    if Evicts(steps[n - 1]) {
      EvictingStaysAlike(c, s, steps[n - 1], s', t);
    } else {
      var t' := StepStaysAlike(c, s, steps[n - 1], s', t);
      StretchSnoc(c, clean, WithoutEvictions(init), steps[n - 1], t');
      clean := clean + [t'];
    }
  }

  /**
   A lookup that read the clock when its session was still alive, and got the lock after
   an eviction that read it later: the session is not found, and the API is asked.
   */
  lemma LateLookupAsksAgain(s: Gate, id: nat, session: nat, expiresAt: int, read: nat, sweep: nat)
    requires AtPhase(s, id, Looking) && Reads(s, id, read) && read < expiresAt < sweep <= s.now
    requires s.caches == Caches(map[s.flights[id].key := Live(session, expiresAt)], map[])
    ensures LookedUp(s, id, read).flights[id].phase == Answering(Ok(session))
    ensures LookedUp(s.(caches := Evicted(s.caches, sweep)), id, read).flights[id].phase == Calling
  {
  }
}
