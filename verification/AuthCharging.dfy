/**
 How many credentials the limiter lets through: the two charging disciplines under
 every interleaving (main.go:556-584, ratelimit.go:62-107). The clock is read before the
 limiter's lock is taken, so an update can come late; what that costs is stated too.
 */
module AuthCharging {
  import opened Wrappers
  import RL = RateLimit
  import opened SessionCache
  import opened AuthGate

  // ---------------------------------------------------------------- counting

  /** Rejections from ip both let in and charged in window w. */
  ghost function Both(charges: seq<Charged>, ip: string, w: int): nat {
    if charges == [] then 0
    else
      var last := charges[|charges| - 1];
      Both(charges[..|charges| - 1], ip, w) + (if last == Charged(ip, w, Some(w)) then 1 else 0)
  }

  /** Agent-key requests from ip let past in window w. */
  ghost function PassedIn(admitted: seq<Admitted>, ip: string, w: int): nat {
    if admitted == [] then 0
    else
      var last := admitted[|admitted| - 1];
      PassedIn(admitted[..|admitted| - 1], ip, w) + (if last == Admitted(ip, w) then 1 else 0)
  }

  lemma BothSnoc(charges: seq<Charged>, last: Charged, ip: string, w: int)
    ensures Both(charges + [last], ip, w) == Both(charges, ip, w) + (if last == Charged(ip, w, Some(w)) then 1 else 0)
  {
    assert (charges + [last])[..|charges|] == charges;
  }

  lemma PassedSnoc(admitted: seq<Admitted>, last: Admitted, ip: string, w: int)
    ensures PassedIn(admitted + [last], ip, w) == PassedIn(admitted, ip, w) + (if last == Admitted(ip, w) then 1 else 0)
  {
    assert (admitted + [last])[..|admitted|] == admitted;
  }

  lemma {:induction false} NothingBothYet(charges: seq<Charged>, ip: string, w: int)
    requires forall i | 0 <= i < |charges| && charges[i].ip == ip :: charges[i].window != w
    ensures Both(charges, ip, w) == 0
  {
    if charges != [] { NothingBothYet(charges[..|charges| - 1], ip, w); }
  }

  lemma {:induction false} NothingPassedYet(admitted: seq<Admitted>, ip: string, w: int)
    requires forall i | 0 <= i < |admitted| && admitted[i].ip == ip :: admitted[i].window != w
    ensures PassedIn(admitted, ip, w) == 0
  {
    if admitted != [] { NothingPassedYet(admitted[..|admitted| - 1], ip, w); }
  }

  ghost function InFlight(s: Gate, ip: string): set<nat> {
    set id | id in s.flights && s.flights[id].ip == ip
  }

  /** Requests from ip let in during window w and still in flight. */
  ghost function LetIn(s: Gate, ip: string, w: int): set<nat> {
    set id | id in s.flights && s.flights[id].ip == ip && s.flights[id].checked == Some(w)
  }

  // ---------------------------------------------------------------- charges that come in time

  /** The address and window a step charges, if any. */
  function ChargeOf(s: Gate, step: Step): Option<(string, int)> {
    match step
    case PassLimiter(id, read) =>
      if id in s.flights && !s.flights[id].oauth then Some((s.flights[id].ip, RL.Window(read))) else None
    case Respond(id, read) =>
      if Rejected(s, id) then Some((s.flights[id].ip, RL.Window(read))) else None
    case _ => None
  }

  /** A charge in window w goes neither behind ip's bucket nor behind what idle evictions have cleared. */
  predicate AtFront(buckets: RL.Buckets, horizon: int, ip: string, w: int) {
    RL.NotBehind(buckets, ip, w) && horizon <= w
  }

  /** If the step charges ip, it does so in time. */
  predicate InTime(s: Gate, step: Step, ip: string) {
    match ChargeOf(s, step)
    case None => true
    case Some((to, w)) => to == ip ==> AtFront(s.buckets, s.horizon, ip, w)
  }

  ghost predicate RunInTime(states: seq<Gate>, steps: seq<Step>, ip: string)
    requires |states| == |steps| + 1
  {
    forall i | 0 <= i < |steps| :: InTime(states[i], steps[i], ip)
  }

  // ---------------------------------------------------------------- the books of one address

  /** A window in which something was charged: the bucket has reached it, or it has been cleared. */
  predicate Reached(buckets: RL.Buckets, horizon: int, ip: string, w: int) {
    if ip in buckets then w <= buckets[ip].windowStart else w < horizon
  }

  /** The bucket counts at least what the history holds of its window, and nothing is charged beyond it. */
  ghost predicate Booked(
    buckets: RL.Buckets, horizon: int, charges: seq<Charged>, admitted: seq<Admitted>, ip: string)
  {
    && (ip in buckets ==>
          var b := buckets[ip];
          && b.count > 0
          && Both(charges, ip, b.windowStart) <= b.count && PassedIn(admitted, ip, b.windowStart) <= b.count)
    && (forall i | 0 <= i < |charges| && charges[i].ip == ip :: Reached(buckets, horizon, ip, charges[i].window))
    && (forall i | 0 <= i < |admitted| && admitted[i].ip == ip :: Reached(buckets, horizon, ip, admitted[i].window))
  }

  /** A window at the front or ahead of it is counted in full. */
  lemma FrontIsCounted(
    buckets: RL.Buckets, horizon: int, charges: seq<Charged>, admitted: seq<Admitted>, ip: string, w: int)
    requires Booked(buckets, horizon, charges, admitted, ip) && AtFront(buckets, horizon, ip, w)
    ensures Both(charges, ip, w) <= RL.CountIn(buckets, ip, w)
    ensures PassedIn(admitted, ip, w) <= RL.CountIn(buckets, ip, w)
  {
    if !(ip in buckets && buckets[ip].windowStart == w) {
      NothingBothYet(charges, ip, w);
      NothingPassedYet(admitted, ip, w);
    }
  }

  /** A charge at the front keeps the books, whatever it charges for. */
  lemma ChargeIsBooked(
    buckets: RL.Buckets, horizon: int, charges: seq<Charged>, admitted: seq<Admitted>, ip: string, to: string, w: int,
    charges': seq<Charged>, admitted': seq<Admitted>)
    requires Booked(buckets, horizon, charges, admitted, ip) && (to == ip ==> AtFront(buckets, horizon, ip, w))
    requires charges' == charges || exists checked :: charges' == charges + [Charged(to, w, checked)]
    requires admitted' == admitted || admitted' == admitted + [Admitted(to, w)]
    ensures Booked(RL.Charge(buckets, to, w), horizon, charges', admitted', ip)
  {
    if charges' != charges {
      var checked :| charges' == charges + [Charged(to, w, checked)];
      forall v: int { BothSnoc(charges, Charged(to, w, checked), ip, v); }
    }
    if admitted' != admitted {
      forall v: int { PassedSnoc(admitted, Admitted(to, w), ip, v); }
    }
    if to == ip { FrontIsCounted(buckets, horizon, charges, admitted, ip, w); }
  }

  lemma EvictionIsBooked(
    buckets: RL.Buckets, horizon: int, charges: seq<Charged>, admitted: seq<Admitted>, ip: string, read: nat)
    requires Booked(buckets, horizon, charges, admitted, ip)
    ensures Booked(RL.Evicted(buckets, read), Max(horizon, RL.Horizon(read)), charges, admitted, ip)
  {
  }

  ghost predicate BookedIn(s: Gate, ip: string) {
    Booked(s.buckets, s.horizon, s.charges, s.admitted, ip)
  }

  lemma StepIsBooked(c: Config, s: Gate, step: Step, s': Gate, ip: string)
    requires c.rpm > 0 && BookedIn(s, ip) && Next(c, s, step, s') && InTime(s, step, ip)
    ensures BookedIn(s', ip)
  {
    match step
    case PassLimiter(id, read) =>
      var f, w := s.flights[id], RL.Window(read);
      if !f.oauth {
        ChargeIsBooked(s.buckets, s.horizon, s.charges, s.admitted, ip, f.ip, w, s'.charges, s'.admitted);
      }
    case Respond(id, read) =>
      var f, w := s.flights[id], RL.Window(read);
      if Rejected(s, id) {
        ChargeIsBooked(s.buckets, s.horizon, s.charges, s.admitted, ip, f.ip, w, s'.charges, s'.admitted);
      }
    case EvictBuckets(read) => EvictionIsBooked(s.buckets, s.horizon, s.charges, s.admitted, ip, read);
    case _ =>
  }

  // ---------------------------------------------------------------- the bounds

  /** At most rpm agent-key requests, and at most rpm + k - 1 rejections, those that may still come included. */
  ghost predicate Bounded(c: Config, s: Gate, ip: string, k: nat) {
    && (forall w: int :: PassedIn(s.admitted, ip, w) <= c.rpm)
    && (forall w: int :: Both(s.charges, ip, w) <= c.rpm - 1 + k)
    && (forall w: int | AtFront(s.buckets, s.horizon, ip, w) ::
          Both(s.charges, ip, w) + |LetIn(s, ip, w)| <= c.rpm - 1 + k)
  }

  /** A window at the front stays there only if it was there. */
  lemma FrontMovesOn(c: Config, s: Gate, step: Step, s': Gate, ip: string, w: int)
    requires c.rpm > 0 && BookedIn(s, ip) && Next(c, s, step, s') && InTime(s, step, ip)
    requires AtFront(s'.buckets, s'.horizon, ip, w)
    ensures AtFront(s.buckets, s.horizon, ip, w)
  {
  }

  /** Letting an OAuth request in: the budget was not spent, and those in flight are at most k. */
  lemma EntryKeepsBound(c: Config, s: Gate, id: nat, read: nat, s': Gate, ip: string, k: nat)
    requires c.rpm > 0 && BookedIn(s, ip) && Bounded(c, s, ip, k) && |InFlight(s', ip)| <= k
    requires AtPhase(s, id, AtLimiter) && s.flights[id].oauth && s' == PastLimiter(c, s, id, read)
    ensures Bounded(c, s', ip, k)
  {
    forall w: int | AtFront(s.buckets, s.horizon, ip, w)
      ensures Both(s.charges, ip, w) + |LetIn(s', ip, w)| <= c.rpm - 1 + k
    {
      if id in s'.flights && s'.flights[id].ip == ip && s'.flights[id].checked == Some(w) {
        FrontIsCounted(s.buckets, s.horizon, s.charges, s.admitted, ip, w);
        SubsetSize(LetIn(s', ip, w), InFlight(s', ip));
      } else {
        assert LetIn(s', ip, w) <= LetIn(s, ip, w);
        SubsetSize(LetIn(s', ip, w), LetIn(s, ip, w));
      }
    }
  }

  /** Letting an agent-key request past charges it: the count was below rpm. */
  lemma AdmissionKeepsBound(c: Config, s: Gate, id: nat, read: nat, s': Gate, ip: string, k: nat)
    requires c.rpm > 0 && BookedIn(s, ip) && Bounded(c, s, ip, k)
    requires AtPhase(s, id, AtLimiter) && !s.flights[id].oauth && s' == PastLimiter(c, s, id, read)
    requires Next(c, s, PassLimiter(id, read), s') && InTime(s, PassLimiter(id, read), ip)
    ensures Bounded(c, s', ip, k)
  {
    var f, at := s.flights[id], RL.Window(read);
    forall w: int ensures PassedIn(s'.admitted, ip, w) <= c.rpm {
      PassedSnoc(s.admitted, Admitted(f.ip, at), ip, w);
      if f.ip == ip && w == at { FrontIsCounted(s.buckets, s.horizon, s.charges, s.admitted, ip, w); }
    }
    forall w: int | AtFront(s'.buckets, s'.horizon, ip, w)
      ensures Both(s'.charges, ip, w) + |LetIn(s', ip, w)| <= c.rpm - 1 + k
    {
      FrontMovesOn(c, s, PassLimiter(id, read), s', ip, w);
      assert LetIn(s', ip, w) <= LetIn(s, ip, w);
      SubsetSize(LetIn(s', ip, w), LetIn(s, ip, w));
    }
  }

  lemma LetInWithout(c: Config, s: Gate, id: nat, read: nat, ip: string, w: int)
    requires Answerable(s, id)
    ensures |LetIn(Responded(c, s, id, read), ip, w)| == |LetIn(s, ip, w)| - if id in LetIn(s, ip, w) then 1 else 0
  {
    assert LetIn(Responded(c, s, id, read), ip, w) == LetIn(s, ip, w) - {id};
  }

  /** A rejection is counted if it is charged in the window in which it was let in. */
  lemma BothAfter(c: Config, s: Gate, id: nat, read: nat, ip: string, w: int)
    requires Answerable(s, id)
    ensures Both(Responded(c, s, id, read).charges, ip, w) == Both(s.charges, ip, w) +
              if Rejected(s, id) && RL.Window(read) == w && id in LetIn(s, ip, w) then 1 else 0
  {
    var f := s.flights[id];
    BothSnoc(s.charges, Charged(f.ip, RL.Window(read), f.checked), ip, w);
  }

  /** Answering a request moves it from "in flight" to "charged", or just lets it go. */
  lemma RespondKeepsBound(c: Config, s: Gate, id: nat, read: nat, s': Gate, ip: string, k: nat)
    requires c.rpm > 0 && BookedIn(s, ip) && Bounded(c, s, ip, k)
    requires Next(c, s, Respond(id, read), s') && InTime(s, Respond(id, read), ip)
    ensures Bounded(c, s', ip, k)
  {
    forall w: int ensures Both(s'.charges, ip, w) <= c.rpm - 1 + k {
      BothAfter(c, s, id, read, ip, w);
      LetInWithout(c, s, id, read, ip, w);
    }
    forall w: int | AtFront(s'.buckets, s'.horizon, ip, w)
      ensures Both(s'.charges, ip, w) + |LetIn(s', ip, w)| <= c.rpm - 1 + k
    {
      FrontMovesOn(c, s, Respond(id, read), s', ip, w);
      BothAfter(c, s, id, read, ip, w);
      LetInWithout(c, s, id, read, ip, w);
    }
  }

  lemma OtherStepsLetNobodyIn(c: Config, s: Gate, step: Step, s': Gate, ip: string, w: int)
    requires Next(c, s, step, s') && !step.PassLimiter? && !step.Respond?
    ensures LetIn(s', ip, w) == LetIn(s, ip, w) && s'.charges == s.charges && s'.admitted == s.admitted
  {
  }

  lemma StepKeepsBound(c: Config, s: Gate, step: Step, s': Gate, ip: string, k: nat)
    requires c.rpm > 0 && BookedIn(s, ip) && Bounded(c, s, ip, k) && |InFlight(s', ip)| <= k
    requires Next(c, s, step, s') && InTime(s, step, ip)
    ensures Bounded(c, s', ip, k)
  {
    match step
    case PassLimiter(id, read) =>
      if s.flights[id].oauth { EntryKeepsBound(c, s, id, read, s', ip, k); }
      else { AdmissionKeepsBound(c, s, id, read, s', ip, k); }
    case Respond(id, read) => RespondKeepsBound(c, s, id, read, s', ip, k);
    case _ =>
      OtherStepsLetNobodyIn(c, s, step, s', ip, 0);
      forall w: int | AtFront(s'.buckets, s'.horizon, ip, w)
        ensures Both(s'.charges, ip, w) + |LetIn(s', ip, w)| <= c.rpm - 1 + k
      {
        FrontMovesOn(c, s, step, s', ip, w);
        OtherStepsLetNobodyIn(c, s, step, s', ip, w);
      }
  }

  lemma {:induction false} EveryRunBounded(c: Config, states: seq<Gate>, steps: seq<Step>, ip: string, k: nat, n: nat)
    requires c.rpm > 0 && Run(c, states, steps) && RunInTime(states, steps, ip) && n < |states|
    requires forall m | 0 <= m < |states| :: |InFlight(states[m], ip)| <= k
    ensures BookedIn(states[n], ip) && Bounded(c, states[n], ip, k)
  {
    if n == 0 {
      assert forall w: int :: LetIn(INIT, ip, w) == {};
    } else {
      EveryRunBounded(c, states, steps, ip, k, n - 1);
      assert Next(c, states[n - 1], steps[n - 1], states[n - 1 + 1]) && InTime(states[n - 1], steps[n - 1], ip);
      StepIsBooked(c, states[n - 1], steps[n - 1], states[n], ip);
      StepKeepsBound(c, states[n - 1], steps[n - 1], states[n], ip, k);
    }
  }

  /**
   If no charge of an address comes late, then with at most k of its requests in flight,
   its rejected OAuth requests both let in and charged in one minute number at most
   rpm + k - 1; requests that come one at a time never exceed rpm. Checks may come late.
   */
  lemma ChargingBound(c: Config, states: seq<Gate>, steps: seq<Step>, ip: string, k: nat, n: nat, w: int)
    requires c.rpm > 0 && Run(c, states, steps) && RunInTime(states, steps, ip) && n < |states|
    requires forall m | 0 <= m < |states| :: |InFlight(states[m], ip)| <= k
    ensures Both(states[n].charges, ip, w) <= c.rpm + k - 1
    ensures k == 1 ==> Both(states[n].charges, ip, w) <= c.rpm
  {
    EveryRunBounded(c, states, steps, ip, k, n);
  }

  ghost function MostInFlight(states: seq<Gate>, ip: string): nat {
    if states == [] then 0
    else
      var before, last := MostInFlight(states[..|states| - 1], ip), |InFlight(states[|states| - 1], ip)|;
      if before < last then last else before
  }

  lemma {:induction false} MostIsMost(states: seq<Gate>, ip: string, m: nat)
    requires m < |states|
    ensures |InFlight(states[m], ip)| <= MostInFlight(states, ip)
  {
    if m < |states| - 1 {
      assert states[..|states| - 1][m] == states[m];
      MostIsMost(states[..|states| - 1], ip, m);
    }
  }

  /**
   The other discipline: if no charge of an address comes late, the agent-key requests of
   that address let past the limiter in one minute number at most rpm, however many are
   in flight.
   */
  lemma AdmissionBound(c: Config, states: seq<Gate>, steps: seq<Step>, ip: string, n: nat, w: int)
    requires c.rpm > 0 && Run(c, states, steps) && RunInTime(states, steps, ip) && n < |states|
    ensures PassedIn(states[n].admitted, ip, w) <= c.rpm
  {
    forall m | 0 <= m < |states| ensures |InFlight(states[m], ip)| <= MostInFlight(states, ip) {
      MostIsMost(states, ip, m);
    }
    EveryRunBounded(c, states, steps, ip, MostInFlight(states, ip), n);
  }

  /** No step of an OAuth request changes a bucket, except answering a rejection. */
  lemma OnlyRejectionsCharge(c: Config, s: Gate, step: Step, s': Gate)
    requires Next(c, s, step, s') && s'.buckets != s.buckets
    ensures || step.EvictBuckets?
            || (step.PassLimiter? && !s.flights[step.id].oauth)
            || (step.Respond? && s.flights[step.id].oauth && s.flights[step.id].phase.result.Err?
                && IsCredentialRejection(s.flights[step.id].phase.result.error))
  {
  }

  // ---------------------------------------------------------------- what one late charge costs

  const ONE := Config(Ttls(0, 0, 0), 1)

  const TOKEN := "mot_x"

  const REJECTION := AuthFailed(ApiError(401))

  /** A run so far, with at most two requests of the address "ip" in flight. */
  ghost predicate Trace(states: seq<Gate>, steps: seq<Step>, s: Gate) {
    && Run(ONE, states, steps) && states[|steps|] == s
    && forall m | 0 <= m < |states| :: |InFlight(states[m], "ip")| <= 2
  }

  lemma TraceSnoc(states: seq<Gate>, steps: seq<Step>, s: Gate, step: Step, s': Gate)
    requires Trace(states, steps, s) && Next(ONE, s, step, s') && |InFlight(s', "ip")| <= 2
    ensures Trace(states + [s'], steps + [step], s')
  {
    StretchSnoc(ONE, states, steps, step, s');
  }

  /** Flights of two ids at most. */
  ghost predicate Few(s: Gate, a: nat, b: nat) {
    forall id | id in s.flights :: id == a || id == b
  }

  lemma FewInFlight(s: Gate, a: nat, b: nat)
    requires Few(s, a, b)
    ensures |InFlight(s, "ip")| <= 2
  {
    SubsetSize(InFlight(s, "ip"), {a, b});
  }

  function Entered(read: nat): Flight {
    Flight(TOKEN, "ip", true, Some(RL.Window(read)), read, Looking)
  }

  /** A token that is not known good enters while the budget of the window is not spent. */
  lemma Enter(states: seq<Gate>, steps: seq<Step>, s: Gate, id: nat, other: nat)
    returns (states': seq<Gate>, steps': seq<Step>, s': Gate)
    requires Trace(states, steps, s) && id !in s.flights && Few(s, other, other)
    requires s.caches.sessions == map[] && RL.CountIn(s.buckets, "ip", RL.Window(s.now)) == 0
    ensures Trace(states', steps', s') && s' == s.(flights := s.flights[id := Entered(s.now)])
  {
    var arrived := Arrived(s, id, TOKEN, "ip", true, s.now);
    FewInFlight(arrived, id, other);
    TraceSnoc(states, steps, s, Arrive(id, TOKEN, "ip", true, s.now), arrived);
    states', steps' := states + [arrived], steps + [Arrive(id, TOKEN, "ip", true, s.now)];
    s' := PastLimiter(ONE, arrived, id, s.now);
    FewInFlight(s', id, other);
    TraceSnoc(states', steps', arrived, PassLimiter(id, s.now), s');
    states', steps' := states' + [s'], steps' + [PassLimiter(id, s.now)];
    assert s'.flights == s.flights[id := Entered(s.now)];
  }

  /** A remembered rejection is looked up. */
  lemma FindRejection(states: seq<Gate>, steps: seq<Step>, s: Gate, id: nat, other: nat)
    returns (states': seq<Gate>, steps': seq<Step>, s': Gate)
    requires Trace(states, steps, s) && Few(s, id, other)
    requires id in s.flights && s.flights[id] == Entered(s.now)
    requires Lookup(s.caches, TOKEN, s.now) == Some(Err(REJECTION))
    ensures Trace(states', steps', s') && Few(s', id, other)
    ensures s' == s.(told := s'.told, flights := s.flights[id := Entered(s.now).(phase := Answering(Err(REJECTION)))])
  {
    s' := LookedUp(s, id, s.now);
    FewInFlight(s', id, other);
    TraceSnoc(states, steps, s, LookUp(id, s.now), s');
    states', steps' := states + [s'], steps + [LookUp(id, s.now)];
  }

  /** ... and answered, which charges it in the window read at `read`. */
  lemma Reject(states: seq<Gate>, steps: seq<Step>, s: Gate, id: nat, other: nat, read: nat)
    returns (states': seq<Gate>, steps': seq<Step>, s': Gate)
    requires Trace(states, steps, s) && Few(s, id, other) && Reads(s, id, read)
    requires s.flights[id].oauth && s.flights[id].ip == "ip" && s.flights[id].phase == Answering(Err(REJECTION))
    ensures Trace(states', steps', s') && Few(s', other, other)
    ensures s' == s.(sent := s'.sent, flights := s.flights - {id},
                     buckets := RL.Charge(s.buckets, "ip", RL.Window(read)),
                     charges := s.charges + [Charged("ip", RL.Window(read), s.flights[id].checked)])
  {
    s' := Responded(ONE, s, id, read);
    FewInFlight(s', other, other);
    TraceSnoc(states, steps, s, Respond(id, read), s');
    states', steps' := states + [s'], steps + [Respond(id, read)];
  }

  const BEFORE: nat := RL.MINUTE - SECOND

  const REMEMBERED := map[TOKEN := Live(REJECTION, BEFORE + DEFAULT_FAIL_TTL)]

  lemma Windows()
    ensures RL.Window(BEFORE) == 0 && RL.Window(RL.MINUTE) == 1
  {
  }

  /** The first request: let in one second before the minute, rejected by the API, and not yet charged. */
  lemma FirstIsRejected() returns (states: seq<Gate>, steps: seq<Step>, s: Gate)
    ensures Trace(states, steps, s) && s.now == BEFORE && s.buckets == map[] && s.charges == []
    ensures s.caches == Caches(map[], REMEMBERED)
    ensures s.flights == map[0 := Flight(TOKEN, "ip", true, Some(0), BEFORE, Answering(Err(REJECTION)))]
  {
    FewInFlight(INIT, 0, 0);
    states, steps, s := [INIT], [], INIT.(now := BEFORE);
    FewInFlight(s, 0, 0);
    TraceSnoc(states, steps, INIT, Tick(BEFORE), s);
    states, steps := [INIT] + [s], [] + [Tick(BEFORE)];
    Windows();
    states, steps, s := Enter(states, steps, s, 0, 0);
    var asked := LookedUp(s, 0, BEFORE);
    FewInFlight(asked, 0, 0);
    TraceSnoc(states, steps, s, LookUp(0, BEFORE), asked);
    states, steps := states + [asked], steps + [LookUp(0, BEFORE)];
    var judged := ApiAnswered(asked, 0, ApiError(401));
    FewInFlight(judged, 0, 0);
    TraceSnoc(states, steps, asked, ApiAnswers(0, ApiError(401)), judged);
    states, steps := states + [judged], steps + [ApiAnswers(0, ApiError(401))];
    s := Recorded(ONE, judged, 0);
    FewInFlight(s, 0, 0);
    TraceSnoc(states, steps, judged, RecordVerdict(0), s);
    states, steps := states + [s], steps + [RecordVerdict(0)];
  }

  lemma Remembered()
    ensures Lookup(Caches(map[], REMEMBERED), TOKEN, RL.MINUTE) == Some(Err(REJECTION))
  {
  }

  /** The minute turns, a second request is let in, rejected and charged; then the first one is charged, late. */
  lemma LateChargeGoesThrough() returns (states: seq<Gate>, steps: seq<Step>, s: Gate)
    ensures Trace(states, steps, s) && s.now == RL.MINUTE && s.flights == map[]
    ensures s.caches == Caches(map[], REMEMBERED) && s.buckets == map["ip" := RL.Bucket(0, 1)]
    ensures s.charges == [Charged("ip", 1, Some(1)), Charged("ip", 0, Some(0))]
  {
    Windows();
    Remembered();
    states, steps, s := FirstIsRejected();
    var turned := s.(now := RL.MINUTE);
    FewInFlight(turned, 0, 0);
    TraceSnoc(states, steps, s, Tick(RL.MINUTE), turned);
    states, steps := states + [turned], steps + [Tick(RL.MINUTE)];
    states, steps, s := Enter(states, steps, turned, 1, 0);
    states, steps, s := FindRejection(states, steps, s, 1, 0);
    states, steps, s := Reject(states, steps, s, 1, 0, RL.MINUTE);
    assert s.buckets == map["ip" := RL.Bucket(1, 1)] && s.flights[0].since == BEFORE;
    states, steps, s := Reject(states, steps, s, 0, 0, BEFORE);
    assert s.flights == map[];
  }

  /**
   With a budget of one and never more than two requests of the address in flight, three
   rejections are let in and charged in one minute: the late charge has cleared the count.
   */
  lemma LateChargeBreaksBound() returns (states: seq<Gate>, steps: seq<Step>)
    ensures ONE.rpm == 1 && Run(ONE, states, steps)
    ensures forall m | 0 <= m < |states| :: |InFlight(states[m], "ip")| <= 2
    ensures Both(states[|steps|].charges, "ip", 1) == 3 > ONE.rpm + 2 - 1
  {
    Windows();
    Remembered();
    var s;
    states, steps, s := LateChargeGoesThrough();
    states, steps, s := Enter(states, steps, s, 1, 1);
    states, steps, s := Enter(states, steps, s, 2, 1);
    states, steps, s := FindRejection(states, steps, s, 1, 2);
    states, steps, s := Reject(states, steps, s, 1, 2, RL.MINUTE);
    states, steps, s := FindRejection(states, steps, s, 2, 1);
    states, steps, s := Reject(states, steps, s, 2, 1, RL.MINUTE);
    ThreeBoth(s.charges);
  }

  lemma ThreeBoth(charges: seq<Charged>)
    requires charges == [Charged("ip", 1, Some(1)), Charged("ip", 0, Some(0))] + [Charged("ip", 1, Some(1))]
                        + [Charged("ip", 1, Some(1))]
    ensures Both(charges, "ip", 1) == 3
  {
    var first, late := Charged("ip", 1, Some(1)), Charged("ip", 0, Some(0));
    BothSnoc([], first, "ip", 1);
    BothSnoc([first], late, "ip", 1);
    BothSnoc([first, late], first, "ip", 1);
    BothSnoc([first, late] + [first], first, "ip", 1);
    assert [] + [first] == [first] && [first] + [late] == [first, late];
  }
}
