/**
 The authentication gate of the Streamable HTTP endpoints (main.go:529-590,
 ratelimit.go:135-150): one request through it, and any number of requests
 interleaved over time, with the Mesh API as an oracle.
 */
module AuthGate {
  import opened Wrappers
  import RL = RateLimit
  import opened SessionCache

  // ---------------------------------------------------------------- one request

  datatype Reply =
    | BadRequest               // 400: the key came in the URL
    | Unauthorized             // 401 with a challenge
    | TooManyRequests          // 429, Retry-After 60
    | Unavailable              // 503, Retry-After 5
    | Forbidden                // 403: a rejected agent key
    | Forwarded(session: nat)  // handed to the MCP transport

  /** How an authentication result is answered; `viaOAuth` says which kind of credential it was. */
  function Answer(viaOAuth: bool, r: Result<nat, Failure>): Reply {
    match r
    case Ok(session) => Forwarded(session)
    case Err(f) =>
      if !viaOAuth then Forbidden
      else if IsCredentialRejection(f) then Unauthorized
      else Unavailable
  }

  /** By code: for an OAuth token a rejection is told from passing trouble, for an agent key it is not. */
  lemma AnswerMeans(r: Result<nat, Failure>)
    ensures r.Ok? ==> Answer(true, r) == Answer(false, r) == Forwarded(r.value)
    ensures r.Err? ==> Answer(false, r) == Forbidden
    ensures r == Err(InvalidAgentData) ==> Answer(true, r) == Unavailable
    ensures r.Err? && r.error.AuthFailed? ==>
              match r.error.verdict
              case ApiError(code) =>
                Answer(true, r)
                == if 400 <= code <= 499 && code != 408 && code != 429 then Unauthorized else Unavailable
              case _ => Answer(true, r) == Unavailable
  {
  }

  /** A missing limiter behaves as one without a budget. */
  function Rpm(limiter: RL.IpRateLimiter?): int {
    if limiter == null then 0 else limiter.rpm
  }

  function BucketsOf(limiter: RL.IpRateLimiter?): RL.Buckets
    reads limiter
  {
    if limiter == null then map[] else limiter.buckets
  }

  function ChargeIf(rpm: int, buckets: RL.Buckets, ip: string, w: int): RL.Buckets {
    if rpm > 0 then RL.Charge(buckets, ip, w) else buckets
  }

  predicate Spent(rpm: int, buckets: RL.Buckets, ip: string, now: nat) {
    rpm > 0 && RL.CountIn(buckets, ip, RL.Window(now)) >= rpm
  }

  /** As many attempts as the budget allows are counted in this very minute. */
  lemma SpentMeans(rpm: int, buckets: RL.Buckets, ip: string, now: nat)
    ensures Spent(rpm, buckets, ip, now) <==>
              && 0 < rpm && ip in buckets
              && buckets[ip].windowStart == now / 60_000_000_000 && buckets[ip].count >= rpm
  {
  }

  /** checkAuthRateLimit. */
  method CheckAuthRateLimit(limiter: RL.IpRateLimiter?, ip: string, now: nat) returns (ok: bool)
    modifies limiter
    ensures ok <==> !Spent(Rpm(limiter), old(BucketsOf(limiter)), ip, now)
    ensures BucketsOf(limiter) == ChargeIf(Rpm(limiter), old(BucketsOf(limiter)), ip, RL.Window(now))
  {
    if limiter == null { return true; }
    ok := limiter.Allow(ip, now);
  }

  /**
   One request with a usable credential, met by no other one: the gate is passed at
   `now`, the API answers `verdict` if asked, and the rest happens at `later`.
   */
  ghost predicate Handled(
    ttls: Ttls, rpm: int, key: string, viaOAuth: bool, ip: string, now: nat, verdict: Verdict, later: nat,
    caches: Caches, buckets: RL.Buckets, reply: Reply, asked: bool, caches': Caches, buckets': RL.Buckets)
  {
    var known, hit := PeekValid(caches, key, now), Lookup(caches, key, now);
    // an agent key that is not known good is charged before its attempt, an OAuth token only when it is rejected
    var charged := if known || viaOAuth then buckets else ChargeIf(rpm, buckets, ip, RL.Window(now));
    if !known && Spent(rpm, buckets, ip, now) then
      // a spent budget stops it before the API is asked
      reply == TooManyRequests && !asked && caches' == caches && buckets' == charged
    else
      // otherwise the caches decide, or the API does
      && asked == hit.None?
      && caches' == (if asked then Record(ttls, caches, key, verdict, later) else caches)
      && reply == Answer(viaOAuth, if asked then Outcome(verdict) else hit.value)
      && buckets' == if viaOAuth && reply == Unauthorized then ChargeIf(rpm, charged, ip, RL.Window(later)) else charged
  }

  /** requireCredential. An empty key stands for no credential. */
  method RequireCredential(
    cache: AgentSessionCache, limiter: RL.IpRateLimiter?, keyInUrl: bool, key: string, oauth: bool,
    ip: string, now: nat, verdict: Verdict, later: nat) returns (reply: Reply, asked: bool)
    modifies cache, limiter
    ensures keyInUrl || key == "" ==>
              && reply == (if keyInUrl then BadRequest else Unauthorized) && !asked
              && cache.Value() == old(cache.Value()) && BucketsOf(limiter) == old(BucketsOf(limiter))
    ensures !keyInUrl && key != "" ==>
              Handled(cache.ttls, Rpm(limiter), key, oauth && IsOAuthToken(key), ip, now, verdict, later,
                      old(cache.Value()), old(BucketsOf(limiter)), reply, asked, cache.Value(), BucketsOf(limiter))
  {
    if keyInUrl { return BadRequest, false; }
    if key == "" { return Unauthorized, false; }
    var viaOAuth := oauth && IsOAuthToken(key);
    var known := PeekValid(cache.Value(), key, now);
    if viaOAuth {
      if !known && limiter != null {
        var spent := limiter.Over(ip, now);
        if spent { return TooManyRequests, false; }
      }
    } else if !known {
      var ok := CheckAuthRateLimit(limiter, ip, now);
      if !ok { return TooManyRequests, false; }
    }
    var r;
    r, asked := cache.GetOrAuthenticate(key, now, verdict, later);
    reply := Answer(viaOAuth, r);
    if viaOAuth && reply == Unauthorized {
      var _ := CheckAuthRateLimit(limiter, ip, later);
    }
  }

  // ---------------------------------------------------------------- interleaved requests

  datatype Config = Config(ttls: Ttls, rpm: int)

  datatype ApiCall = ApiCall(key: string, verdict: Verdict, at: nat)

  /** The verdict of API call `call` was recorded at `at`. */
  datatype Store = Store(call: nat, at: nat)

  /** A rejection charged to ip in `window`; `checked` is the window in which the limiter let the request in. */
  datatype Charged = Charged(ip: string, window: int, checked: Option<int>)

  /** An agent-key request of ip that the limiter let past in `window`. */
  datatype Admitted = Admitted(ip: string, window: int)

  datatype Source = FromCache | FromApi(call: nat)

  /** What a request was told at `at`, by the clock it read at `read`. */
  datatype Report = Told(key: string, read: nat, at: nat, result: Result<nat, Failure>, source: Source)

  /** What a request was answered. */
  datatype Sent = Sent(id: nat, key: string, reply: Reply)

  datatype Phase =
    | AtLimiter                // not known good when it arrived
    | Looking
    | Calling                  // the API request is in flight
    | Judged(call: nat)        // the verdict is in, not yet recorded
    | Answering(result: Result<nat, Failure>)

  /** `since` is the request's latest clock reading. */
  datatype Flight = Flight(key: string, ip: string, oauth: bool, checked: Option<int>, since: nat, phase: Phase)

  /**
   The state shared by all requests, and what has happened so far: `swept` and `horizon`
   are how far evictions have reached, in the session caches and in the limiter.
   */
  datatype Gate = Gate(
    now: nat, caches: Caches, buckets: RL.Buckets, flights: map<nat, Flight>,
    api: seq<ApiCall>, stores: seq<Store>, charges: seq<Charged>, admitted: seq<Admitted>,
    told: seq<Report>, sent: seq<Sent>, swept: int, horizon: int)

  /**
   Each step is what happens under one lock. `read` is the clock reading it works with,
   taken before the lock and so possibly some time ago; only a verdict is stored under
   the lock's own reading.
   */
  datatype Step =
    | Tick(to: nat)
    | Arrive(id: nat, key: string, ip: string, oauth: bool, read: nat)
    | PassLimiter(id: nat, read: nat)
    | LookUp(id: nat, read: nat)
    | ApiAnswers(id: nat, verdict: Verdict)
    | RecordVerdict(id: nat)
    | Respond(id: nat, read: nat)
    | EvictSessions(read: nat)
    | EvictBuckets(read: nat)

  predicate AtPhase(s: Gate, id: nat, p: Phase) {
    id in s.flights && s.flights[id].phase == p
  }

  /** A request's clock readings follow each other and are not ahead of the clock. */
  predicate Reads(s: Gate, id: nat, read: nat) {
    id in s.flights && s.flights[id].since <= read <= s.now
  }

  function Move(s: Gate, id: nat, since: nat, p: Phase): Gate
    requires id in s.flights
  {
    s.(flights := s.flights[id := s.flights[id].(phase := p, since := since)])
  }

  /** peekValid: a request known good goes straight to the caches. */
  function Arrived(s: Gate, id: nat, key: string, ip: string, oauth: bool, read: nat): Gate {
    var phase := if PeekValid(s.caches, key, read) then Looking else AtLimiter;
    s.(flights := s.flights[id := Flight(key, ip, oauth, None, read, phase)])
  }

  /** The limiter: an agent key is charged, an OAuth token is not, and a spent budget ends the request. */
  function PastLimiter(c: Config, s: Gate, id: nat, read: nat): Gate
    requires id in s.flights
  {
    var f, w := s.flights[id], RL.Window(read);
    var gated := if f.oauth then s else s.(buckets := ChargeIf(c.rpm, s.buckets, f.ip, w));
    if Spent(c.rpm, s.buckets, f.ip, read)
    then gated.(flights := s.flights - {id}, sent := s.sent + [Sent(id, f.key, TooManyRequests)])
    else if f.oauth then s.(flights := s.flights[id := f.(phase := Looking, since := read, checked := Some(w))])
    else Move(gated, id, read, Looking).(admitted := s.admitted + [Admitted(f.ip, w)])
  }

  /** The caches answer, or the API is asked. */
  function LookedUp(s: Gate, id: nat, read: nat): Gate
    requires id in s.flights
  {
    var f := s.flights[id];
    match Lookup(s.caches, f.key, read)
    case None => Move(s, id, read, Calling)
    case Some(r) => Move(s, id, read, Answering(r)).(told := s.told + [Told(f.key, read, s.now, r, FromCache)])
  }

  function ApiAnswered(s: Gate, id: nat, verdict: Verdict): Gate
    requires id in s.flights
  {
    Move(s, id, s.now, Judged(|s.api|)).(api := s.api + [ApiCall(s.flights[id].key, verdict, s.now)])
  }

  predicate HasVerdict(s: Gate, id: nat) {
    id in s.flights && s.flights[id].phase.Judged? && s.flights[id].phase.call < |s.api|
  }

  function Recorded(c: Config, s: Gate, id: nat): Gate
    requires HasVerdict(s, id)
  {
    var f, call := s.flights[id], s.flights[id].phase.call;
    Move(s, id, s.now, Answering(Outcome(s.api[call].verdict))).(
      caches := Record(c.ttls, s.caches, f.key, s.api[call].verdict, s.now),
      stores := s.stores + [Store(call, s.now)],
      told := s.told + [Told(f.key, s.now, s.now, Outcome(s.api[call].verdict), FromApi(call))])
  }

  predicate Answerable(s: Gate, id: nat) {
    id in s.flights && s.flights[id].phase.Answering?
  }

  /** The request is an OAuth token's and about to be answered with a rejection, which is charged. */
  predicate Rejected(s: Gate, id: nat) {
    Answerable(s, id) && s.flights[id].oauth && Answer(true, s.flights[id].phase.result) == Unauthorized
  }

  /** The reply is sent; a rejected OAuth token is charged. */
  function Responded(c: Config, s: Gate, id: nat, read: nat): Gate
    requires Answerable(s, id)
  {
    var f, w := s.flights[id], RL.Window(read);
    var done := s.(flights := s.flights - {id}, sent := s.sent + [Sent(id, f.key, Answer(f.oauth, f.phase.result))]);
    if Rejected(s, id)
    then done.(buckets := ChargeIf(c.rpm, s.buckets, f.ip, w), charges := s.charges + [Charged(f.ip, w, f.checked)])
    else done
  }

  function BucketsEvicted(c: Config, s: Gate, read: nat): Gate {
    if c.rpm > 0
    then s.(buckets := RL.Evicted(s.buckets, read), horizon := Max(s.horizon, RL.Horizon(read)))
    else s
  }

  ghost predicate Next(c: Config, s: Gate, step: Step, s': Gate) {
    match step
    case Tick(to) => s.now <= to && s' == s.(now := to)
    case Arrive(id, key, ip, oauth, read) =>
      id !in s.flights && read <= s.now && s' == Arrived(s, id, key, ip, oauth, read)
    case PassLimiter(id, read) => AtPhase(s, id, AtLimiter) && Reads(s, id, read) && s' == PastLimiter(c, s, id, read)
    case LookUp(id, read) => AtPhase(s, id, Looking) && Reads(s, id, read) && s' == LookedUp(s, id, read)
    case ApiAnswers(id, verdict) => AtPhase(s, id, Calling) && s' == ApiAnswered(s, id, verdict)
    case RecordVerdict(id) => HasVerdict(s, id) && s' == Recorded(c, s, id)
    case Respond(id, read) => Answerable(s, id) && Reads(s, id, read) && s' == Responded(c, s, id, read)
    case EvictSessions(read) =>
      read <= s.now && s' == s.(caches := Evicted(s.caches, read), swept := Max(s.swept, read))
    case EvictBuckets(read) => read <= s.now && s' == BucketsEvicted(c, s, read)
  }

  const INIT := Gate(0, Caches(map[], map[]), map[], map[], [], [], [], [], [], [], 0, 0)

  ghost predicate Run(c: Config, states: seq<Gate>, steps: seq<Step>) {
    Stretch(c, states, steps) && states[0] == INIT
  }

  /** A stretch of a run. */
  ghost predicate Stretch(c: Config, states: seq<Gate>, steps: seq<Step>) {
    |states| == |steps| + 1 && forall i | 0 <= i < |steps| :: Next(c, states[i], steps[i], states[i + 1])
  }

  lemma StretchSnoc(c: Config, states: seq<Gate>, steps: seq<Step>, step: Step, s': Gate)
    requires Stretch(c, states, steps) && Next(c, states[|steps|], step, s')
    ensures Stretch(c, states + [s'], steps + [step])
  {
    var longer, more := states + [s'], steps + [step];
    forall i | 0 <= i < |more| ensures Next(c, longer[i], more[i], longer[i + 1]) {
      assert longer[i] == states[i];
      if i < |steps| { assert longer[i + 1] == states[i + 1]; }
    }
  }

  // ---------------------------------------------------------------- trust

  /** Store j recorded this key's acceptance of the session. */
  ghost predicate RecordedSession(s: Gate, j: nat, key: string, session: nat) {
    && j < |s.stores| && s.stores[j].call < |s.api|
    && s.api[s.stores[j].call].key == key
    && s.api[s.stores[j].call].verdict == Accepted(session)
  }

  /** Store j recorded this key's rejection. */
  ghost predicate RecordedFailure(s: Gate, j: nat, key: string, f: Failure) {
    && j < |s.stores| && s.stores[j].call < |s.api|
    && s.api[s.stores[j].call].key == key
    && IsRejection(s.api[s.stores[j].call].verdict)
    && f == AuthFailed(s.api[s.stores[j].call].verdict)
  }

  ghost predicate SessionBacked(c: Config, s: Gate, key: string, session: nat, expiresAt: int) {
    exists j: nat :: RecordedSession(s, j, key, session) && expiresAt == s.stores[j].at + c.ttls.Entry(key)
  }

  ghost predicate FailureBacked(c: Config, s: Gate, key: string, f: Failure, expiresAt: int) {
    exists j: nat :: RecordedFailure(s, j, key, f) && expiresAt == s.stores[j].at + c.ttls.Fail()
  }

  predicate InLifetime(t: Report, from: int, lifetime: nat) {
    from <= t.at && t.read < from + lifetime
  }

  /** What a caller was told is justified by what the API said, and alive by the clock the caller read. */
  ghost predicate Justified(c: Config, s: Gate, t: Report) {
    match t.source
    case FromApi(call) =>
      call < |s.api| && s.api[call].key == t.key && t.result == Outcome(s.api[call].verdict) && s.api[call].at <= t.at
    case FromCache =>
      match t.result
      case Ok(session) =>
        exists j: nat :: RecordedSession(s, j, t.key, session) && InLifetime(t, s.stores[j].at, c.ttls.Entry(t.key))
      case Err(f) =>
        exists j: nat :: RecordedFailure(s, j, t.key, f) && InLifetime(t, s.stores[j].at, c.ttls.Fail())
  }

  /** API calls are logged in the past, and recorded after they were answered. */
  ghost predicate TimesOk(s: Gate) {
    && (forall i | 0 <= i < |s.api| :: s.api[i].at <= s.now)
    && (forall j | 0 <= j < |s.stores| ::
          s.stores[j].call < |s.api| && s.api[s.stores[j].call].at <= s.stores[j].at <= s.now)
  }

  /** A request that has a verdict has its own key's. */
  ghost predicate JudgedOk(s: Gate) {
    forall id | id in s.flights && s.flights[id].phase.Judged? ::
      s.flights[id].phase.call < |s.api| && s.api[s.flights[id].phase.call].key == s.flights[id].key
  }

  ghost predicate LogsOk(s: Gate) {
    TimesOk(s) && JudgedOk(s)
  }

  ghost predicate CachesOk(c: Config, s: Gate) {
    && (forall key | key in s.caches.sessions ::
          SessionBacked(c, s, key, s.caches.sessions[key].value, s.caches.sessions[key].expiresAt))
    && (forall key | key in s.caches.failures ::
          FailureBacked(c, s, key, s.caches.failures[key].value, s.caches.failures[key].expiresAt))
  }

  ghost predicate Trust(c: Config, s: Gate) {
    && LogsOk(s) && CachesOk(c, s)
    && forall i | 0 <= i < |s.told| :: Justified(c, s, s.told[i]) && s.told[i].read <= s.told[i].at
  }

  /** Histories only grow. */
  ghost predicate Extends(s: Gate, s': Gate) {
    s.api <= s'.api && s.stores <= s'.stores && s.told <= s'.told && s.now <= s'.now
  }

  lemma NextExtends(c: Config, s: Gate, step: Step, s': Gate)
    requires Next(c, s, step, s')
    ensures Extends(s, s')
  {
  }

  /** Whatever backed a cache entry or an answer still does when histories grow. */
  lemma BackingPersists(c: Config, s: Gate, s': Gate)
    requires LogsOk(s) && Extends(s, s')
    ensures forall key, v, e :: SessionBacked(c, s, key, v, e) ==> SessionBacked(c, s', key, v, e)
    ensures forall key, f, e :: FailureBacked(c, s, key, f, e) ==> FailureBacked(c, s', key, f, e)
    ensures forall t :: Justified(c, s, t) ==> Justified(c, s', t)
  {
    forall j: nat, key, v | RecordedSession(s, j, key, v)
      ensures RecordedSession(s', j, key, v) && s'.stores[j] == s.stores[j]
    {}
    forall j: nat, key, f | RecordedFailure(s, j, key, f)
      ensures RecordedFailure(s', j, key, f) && s'.stores[j] == s.stores[j]
    {}
    forall t | Justified(c, s, t) ensures Justified(c, s', t) {
      if t.source == FromCache {
        if t.result.Ok? {
          var j: nat :| RecordedSession(s, j, t.key, t.result.value)
                        && InLifetime(t, s.stores[j].at, c.ttls.Entry(t.key));
          assert RecordedSession(s', j, t.key, t.result.value);
        } else {
          var j: nat :| RecordedFailure(s, j, t.key, t.result.error)
                        && InLifetime(t, s.stores[j].at, c.ttls.Fail());
          assert RecordedFailure(s', j, t.key, t.result.error);
        }
      }
    }
  }

  lemma CachesStayBacked(c: Config, s: Gate, step: Step, s': Gate)
    requires LogsOk(s) && CachesOk(c, s) && Next(c, s, step, s')
    ensures CachesOk(c, s')
  {
    NextExtends(c, s, step, s');
    BackingPersists(c, s, s');
    if step.RecordVerdict? {
      var f, call := s.flights[step.id], s.flights[step.id].phase.call;
      var j := |s.stores|;
      assert s'.stores[j] == Store(call, s.now);
      match s.api[call].verdict
      case Accepted(session) => assert RecordedSession(s', j, f.key, session);
      case ApiError(_) =>
        if IsRejection(s.api[call].verdict) { assert RecordedFailure(s', j, f.key, AuthFailed(s.api[call].verdict)); }
      case NoAnswer =>
      case BadAgentData =>
    }
  }

  lemma ReportsStayJustified(c: Config, s: Gate, step: Step, s': Gate)
    requires Trust(c, s) && Next(c, s, step, s')
    ensures forall i | 0 <= i < |s'.told| :: Justified(c, s', s'.told[i]) && s'.told[i].read <= s'.told[i].at
  {
    NextExtends(c, s, step, s');
    BackingPersists(c, s, s');
    forall i | 0 <= i < |s'.told| ensures Justified(c, s', s'.told[i]) && s'.told[i].read <= s'.told[i].at {
      if i < |s.told| {
        assert Justified(c, s, s.told[i]);
      } else if step.LookUp? {
        CachedReport(c, s, step.id, step.read, s');
      }
    }
  }

  /** An answer from the caches is justified when it is given. */
  lemma CachedReport(c: Config, s: Gate, id: nat, read: nat, s': Gate)
    requires Trust(c, s) && AtPhase(s, id, Looking) && s' == LookedUp(s, id, read) && s'.told != s.told
    ensures Justified(c, s', s'.told[|s.told|])
  {
    var f := s.flights[id];
    if PeekValid(s.caches, f.key, read) {
      var e := s.caches.sessions[f.key];
      assert SessionBacked(c, s, f.key, e.value, e.expiresAt);
      var j: nat :| RecordedSession(s, j, f.key, e.value) && e.expiresAt == s.stores[j].at + c.ttls.Entry(f.key);
      assert RecordedSession(s', j, f.key, e.value);
    } else {
      var e := s.caches.failures[f.key];
      assert FailureBacked(c, s, f.key, e.value, e.expiresAt);
      var j: nat :| RecordedFailure(s, j, f.key, e.value) && e.expiresAt == s.stores[j].at + c.ttls.Fail();
      assert RecordedFailure(s', j, f.key, e.value);
    }
  }

  lemma TimesStayOk(c: Config, s: Gate, step: Step, s': Gate)
    requires TimesOk(s) && Next(c, s, step, s')
    ensures TimesOk(s')
  {
    assert step.ApiAnswers? || s'.api == s.api;
    assert step.RecordVerdict? || s'.stores == s.stores;
  }

  lemma JudgedStayOk(c: Config, s: Gate, step: Step, s': Gate)
    requires JudgedOk(s) && Next(c, s, step, s')
    ensures JudgedOk(s')
  {
    forall id | id in s'.flights && s'.flights[id].phase.Judged?
      ensures s'.flights[id].phase.call < |s'.api| && s'.api[s'.flights[id].phase.call].key == s'.flights[id].key
    {
      if !step.ApiAnswers? || id != step.id { assert id in s.flights && s'.flights[id] == s.flights[id]; }
    }
  }

  lemma {:induction false} StepKeepsTrust(c: Config, s: Gate, step: Step, s': Gate)
    requires Trust(c, s) && Next(c, s, step, s')
    ensures Trust(c, s')
  {
    TimesStayOk(c, s, step, s');
    JudgedStayOk(c, s, step, s');
    CachesStayBacked(c, s, step, s');
    ReportsStayJustified(c, s, step, s');
  }

  /** In every run and every interleaving, whatever a request was told is justified. */
  lemma {:induction false} EveryRunTrusts(c: Config, states: seq<Gate>, steps: seq<Step>, n: nat)
    requires Run(c, states, steps) && n < |states|
    ensures Trust(c, states[n])
  {
    if n > 0 {
      EveryRunTrusts(c, states, steps, n - 1);
      assert Next(c, states[n - 1], steps[n - 1], states[n - 1 + 1]);
      StepKeepsTrust(c, states[n - 1], steps[n - 1], states[n]);
    }
  }

  /**
   The trust bound: if verdicts are recorded within `lag` of the API giving them (0 when
   verifying and storing are one step) and the lookup got its lock within `stall` of
   reading the clock, a session served from the cache was accepted by the API less than
   its lifetime plus lag and stall ago, and a remembered failure is a rejection (a 4xx
   other than 408 and 429) less than the failure lifetime plus lag and stall old.
   */
  lemma TrustBound(c: Config, s: Gate, i: nat, lag: nat, stall: nat) returns (call: nat)
    requires Trust(c, s) && i < |s.told| && s.told[i].source == FromCache
    requires forall j | 0 <= j < |s.stores| :: s.stores[j].at <= s.api[s.stores[j].call].at + lag
    requires s.told[i].at <= s.told[i].read + stall
    ensures call < |s.api| && s.api[call].key == s.told[i].key && s.api[call].at <= s.told[i].at
    ensures s.told[i].result.Ok? ==>
              && s.api[call].verdict == Accepted(s.told[i].result.value)
              && s.told[i].at < s.api[call].at + lag + stall + c.ttls.Entry(s.told[i].key)
    ensures s.told[i].result.Err? ==>
              && s.told[i].result.error == AuthFailed(s.api[call].verdict)
              && (match s.api[call].verdict
                  case ApiError(code) => 400 <= code <= 499 && code != 408 && code != 429
                  case _ => false)
              && s.told[i].at < s.api[call].at + lag + stall + c.ttls.Fail()
  {
    var t := s.told[i];
    assert Justified(c, s, t);
    var j: nat;
    if t.result.Ok? {
      j :| RecordedSession(s, j, t.key, t.result.value) && InLifetime(t, s.stores[j].at, c.ttls.Entry(t.key));
    } else {
      j :| RecordedFailure(s, j, t.key, t.result.error) && InLifetime(t, s.stores[j].at, c.ttls.Fail());
    }
    call := s.stores[j].call;
  }

  /** An OAuth session lives the smaller of the OAuth and the session lifetime. */
  lemma OAuthTtlIsSmaller(t: Ttls, key: string)
    requires IsOAuthToken(key)
    ensures var oauthTtl := if t.oauthTtl <= 0 then DEFAULT_OAUTH_TTL else t.oauthTtl;
            && t.Entry(key) <= t.Session() && t.Entry(key) <= oauthTtl
            && (t.Entry(key) == t.Session() || t.Entry(key) == oauthTtl)
  {
  }

  /** Only an acceptance or a rejection of the key itself changes the caches, apart from eviction. */
  lemma PassingTroubleChangesNothing(c: Config, s: Gate, step: Step, s': Gate)
    requires Next(c, s, step, s') && s'.caches != s.caches
    ensures || step.EvictSessions?
            || (step.RecordVerdict?
                && match s.api[s.flights[step.id].phase.call].verdict
                   case Accepted(_) => true
                   case ApiError(code) => 400 <= code <= 499 && code != 408 && code != 429
                   case _ => false)
  {
  }

  /** In one request: a passing trouble is not remembered, and an OAuth token is neither blamed nor charged for it. */
  lemma PassingTroubleIsUnavailable(
    ttls: Ttls, rpm: int, key: string, viaOAuth: bool, ip: string, now: nat, verdict: Verdict, later: nat,
    caches: Caches, buckets: RL.Buckets, reply: Reply, caches': Caches, buckets': RL.Buckets)
    requires Handled(ttls, rpm, key, viaOAuth, ip, now, verdict, later, caches, buckets, reply, true, caches', buckets')
    requires PassingTrouble(verdict)
    ensures caches' == caches
    ensures viaOAuth ==> reply == Unavailable && buckets' == buckets
    ensures !viaOAuth ==> reply == Forbidden
  {
  }

  /** In every interleaving: so is the request that is in flight with one. */
  lemma TroubleInFlight(c: Config, s: Gate, id: nat, read: nat, verdict: Verdict)
    requires HasVerdict(s, id) && s.api[s.flights[id].phase.call].verdict == verdict && PassingTrouble(verdict)
    ensures var recorded := Recorded(c, s, id);
            && recorded.caches == s.caches && Answerable(recorded, id)
            && var done := Responded(c, recorded, id, read);
               s.flights[id].oauth ==>
                 && done.buckets == s.buckets && done.charges == s.charges
                 && done.sent == s.sent + [Sent(id, s.flights[id].key, Unavailable)]
  {
  }

  // ---------------------------------------------------------------- every reply has its reason

  ghost predicate ToldSession(s: Gate, key: string, session: nat) {
    exists i :: 0 <= i < |s.told| && s.told[i].key == key && s.told[i].result == Ok(session)
  }

  ghost predicate ToldFailure(s: Gate, key: string, f: Failure) {
    exists i :: 0 <= i < |s.told| && s.told[i].key == key && s.told[i].result == Err(f)
  }

  ghost predicate ToldResult(s: Gate, key: string, r: Result<nat, Failure>) {
    match r
    case Ok(session) => ToldSession(s, key, session)
    case Err(f) => ToldFailure(s, key, f)
  }

  /** A forwarded request has the session its key was told; a refused one was told a failure. */
  ghost predicate HasReason(s: Gate, r: Sent) {
    match r.reply
    case Forwarded(session) => ToldSession(s, r.key, session)
    case Unauthorized => exists code: int :: 400 <= code <= 499 && code != 408 && code != 429
                                             && ToldFailure(s, r.key, AuthFailed(ApiError(code)))
    case Unavailable => exists f :: ToldFailure(s, r.key, f)
    case Forbidden => exists f :: ToldFailure(s, r.key, f)
    case TooManyRequests => true
    case BadRequest => false
  }

  ghost predicate Reasons(s: Gate) {
    && (forall id | id in s.flights && s.flights[id].phase.Answering? ::
          ToldResult(s, s.flights[id].key, s.flights[id].phase.result))
    && (forall n | 0 <= n < |s.sent| :: HasReason(s, s.sent[n]))
  }

  lemma ToldPersists(s: Gate, s': Gate, key: string, r: Result<nat, Failure>)
    requires s.told <= s'.told && ToldResult(s, key, r)
    ensures ToldResult(s', key, r)
  {
    var i :| 0 <= i < |s.told| && s.told[i].key == key && s.told[i].result == r;
    assert s'.told[i] == s.told[i];
  }

  lemma ReasonPersists(s: Gate, s': Gate, r: Sent)
    requires s.told <= s'.told && HasReason(s, r)
    ensures HasReason(s', r)
  {
    match r.reply
    case Forwarded(session) => ToldPersists(s, s', r.key, Ok(session));
    case Unauthorized =>
      var code: int :| 400 <= code <= 499 && code != 408 && code != 429
                       && ToldFailure(s, r.key, AuthFailed(ApiError(code)));
      ToldPersists(s, s', r.key, Err(AuthFailed(ApiError(code))));
    case Unavailable =>
      var f :| ToldFailure(s, r.key, f);
      ToldPersists(s, s', r.key, Err(f));
    case Forbidden =>
      var f :| ToldFailure(s, r.key, f);
      ToldPersists(s, s', r.key, Err(f));
    case TooManyRequests =>
  }

  lemma AnswerHasReason(s: Gate, id: nat, key: string, oauth: bool, r: Result<nat, Failure>)
    requires ToldResult(s, key, r)
    ensures HasReason(s, Sent(id, key, Answer(oauth, r)))
  {
    AnswerMeans(r);
    if r.Err? && oauth && r.error.AuthFailed? && r.error.verdict.ApiError? {
      var code := r.error.verdict.code;
      assert ToldFailure(s, key, AuthFailed(ApiError(code)));
    }
  }

  lemma StepKeepsReasons(c: Config, s: Gate, step: Step, s': Gate)
    requires Reasons(s) && Next(c, s, step, s')
    ensures Reasons(s')
  {
    NextExtends(c, s, step, s');
    forall id | id in s'.flights && s'.flights[id].phase.Answering?
      ensures ToldResult(s', s'.flights[id].key, s'.flights[id].phase.result)
    {
      if id in s.flights && s.flights[id] == s'.flights[id] {
        ToldPersists(s, s', s.flights[id].key, s.flights[id].phase.result);
      } else {
        assert s'.told[|s.told|].key == s'.flights[id].key && s'.told[|s.told|].result == s'.flights[id].phase.result;
      }
    }
    forall n | 0 <= n < |s'.sent| ensures HasReason(s', s'.sent[n]) {
      if n < |s.sent| {
        ReasonPersists(s, s', s.sent[n]);
      } else if step.Respond? {
        var f := s.flights[step.id];
        AnswerHasReason(s, step.id, f.key, f.oauth, f.phase.result);
        ReasonPersists(s, s', s'.sent[n]);
      }
    }
  }

  lemma {:induction false} EveryReplyHasReason(c: Config, states: seq<Gate>, steps: seq<Step>, n: nat)
    requires Run(c, states, steps) && n < |states|
    ensures Reasons(states[n])
  {
    if n > 0 {
      EveryReplyHasReason(c, states, steps, n - 1);
      assert Next(c, states[n - 1], steps[n - 1], states[n - 1 + 1]);
      StepKeepsReasons(c, states[n - 1], steps[n - 1], states[n]);
    }
  }

  /** In every run, a request is forwarded only with a session the API accepted for its very key. */
  lemma ForwardedIsAccepted(c: Config, states: seq<Gate>, steps: seq<Step>, n: nat, m: nat) returns (call: nat)
    requires Run(c, states, steps) && n < |states| && m < |states[n].sent| && states[n].sent[m].reply.Forwarded?
    ensures var s := states[n];
            && call < |s.api| && s.api[call].key == s.sent[m].key
            && s.api[call].verdict == Accepted(s.sent[m].reply.session)
  {
    var s := states[n];
    EveryReplyHasReason(c, states, steps, n);
    EveryRunTrusts(c, states, steps, n);
    var r := s.sent[m];
    assert HasReason(s, r);
    var i :| 0 <= i < |s.told| && s.told[i].key == r.key && s.told[i].result == Ok(r.reply.session);
    assert Justified(c, s, s.told[i]);
    match s.told[i].source
    case FromApi(asked) => call := asked;
    case FromCache =>
      var j: nat :| RecordedSession(s, j, r.key, r.reply.session)
                    && InLifetime(s.told[i], s.stores[j].at, c.ttls.Entry(r.key));
      call := s.stores[j].call;
  }

  // ---------------------------------------------------------------- one request is a path

  /** From the lookup of a request on: the caches or the API decide, and the reply is sent at `later`. */
  lemma LookupIsPath(
    c: Config, s: Gate, id: nat, verdict: Verdict, later: nat, states: seq<Gate>, steps: seq<Step>)
    returns (states': seq<Gate>, steps': seq<Step>)
    requires Stretch(c, states, steps) && states[|steps|] == s
    requires AtPhase(s, id, Looking) && Reads(s, id, s.now) && s.now <= later
    ensures Stretch(c, states', steps') && states'[0] == states[0]
    ensures var f, end := s.flights[id], states'[|steps'|];
            var hit := Lookup(s.caches, f.key, s.now);
            var reply := Answer(f.oauth, if hit.Some? then hit.value else Outcome(verdict));
            && end.caches == (if hit.Some? then s.caches else Record(c.ttls, s.caches, f.key, verdict, later))
            && end.buckets == (if f.oauth && reply == Unauthorized
                               then ChargeIf(c.rpm, s.buckets, f.ip, RL.Window(later)) else s.buckets)
            && end.sent == s.sent + [Sent(id, f.key, reply)] && end.flights == s.flights - {id} && end.now == later
  {
    var f := s.flights[id];
    var looked := LookedUp(s, id, s.now);
    states', steps' := states + [looked], steps + [LookUp(id, s.now)];
    StretchSnoc(c, states, steps, LookUp(id, s.now), looked);
    var asked := looked;
    if Lookup(s.caches, f.key, s.now).None? {
      asked := ApiAnswered(looked, id, verdict);
      StretchSnoc(c, states', steps', ApiAnswers(id, verdict), asked);
      states', steps' := states' + [asked], steps' + [ApiAnswers(id, verdict)];
    }
    var ticked := asked.(now := later);
    StretchSnoc(c, states', steps', Tick(later), ticked);
    states', steps' := states' + [ticked], steps' + [Tick(later)];
    var told := ticked;
    if Lookup(s.caches, f.key, s.now).None? {
      told := Recorded(c, ticked, id);
      StretchSnoc(c, states', steps', RecordVerdict(id), told);
      states', steps' := states' + [told], steps' + [RecordVerdict(id)];
    }
    var done := Responded(c, told, id, later);
    StretchSnoc(c, states', steps', Respond(id, later), done);
    states', steps' := states' + [done], steps' + [Respond(id, later)];
    assert done.flights == s.flights - {id};
  }

  /**
   Every outcome requireCredential can have for one request is a stretch of steps of
   the interleaved gate, from any state in which the request is not yet in flight.
   */
  lemma HandledIsPath(
    c: Config, s: Gate, id: nat, key: string, viaOAuth: bool, ip: string, verdict: Verdict, later: nat,
    reply: Reply, asked: bool, caches': Caches, buckets': RL.Buckets)
    returns (states: seq<Gate>, steps: seq<Step>)
    requires id !in s.flights && s.now <= later
    requires Handled(c.ttls, c.rpm, key, viaOAuth, ip, s.now, verdict, later,
                     s.caches, s.buckets, reply, asked, caches', buckets')
    ensures Stretch(c, states, steps) && states[0] == s
    ensures var end := states[|steps|];
            && end.caches == caches' && end.buckets == buckets' && end.flights == s.flights
            && end.sent == s.sent + [Sent(id, key, reply)]
  {
    var arrived := Arrived(s, id, key, ip, viaOAuth, s.now);
    states, steps := [s], [];
    StretchSnoc(c, states, steps, Arrive(id, key, ip, viaOAuth, s.now), arrived);
    states, steps := states + [arrived], steps + [Arrive(id, key, ip, viaOAuth, s.now)];
    var passed := arrived;
    if !PeekValid(s.caches, key, s.now) {
      passed := PastLimiter(c, arrived, id, s.now);
      StretchSnoc(c, states, steps, PassLimiter(id, s.now), passed);
      states, steps := states + [passed], steps + [PassLimiter(id, s.now)];
    }
    if PeekValid(s.caches, key, s.now) || !Spent(c.rpm, s.buckets, ip, s.now) {
      states, steps := LookupIsPath(c, passed, id, verdict, later, states, steps);
    }
  }
}
