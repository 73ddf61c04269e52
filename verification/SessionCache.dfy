/**
 The positive and negative authentication caches (main.go:90-98, 718-924).
 Times and durations are in nanoseconds.
 */
module SessionCache {
  import opened Wrappers

  const DEFAULT_SESSION_TTL: nat := 15 * 60 * SECOND
  const DEFAULT_FAIL_TTL: nat := 30 * SECOND
  const DEFAULT_OAUTH_TTL: nat := 60 * SECOND

  /** How one call of the Mesh API for a key ends. */
  datatype Verdict =
    | Accepted(session: nat)
    | ApiError(code: int)     // an HTTP error status
    | NoAnswer                // a network error before any response
    | BadAgentData            // accepted, but the answer names no valid agent

  /** A failed authentication as the caller sees it: the API's error, or bad agent data. */
  datatype Failure = AuthFailed(verdict: Verdict) | InvalidAgentData

  /** A verdict on the credential itself, rather than a passing trouble. */
  predicate IsRejection(v: Verdict) {
    v.ApiError? && 400 <= v.code < 500 && v.code != 408 && v.code != 429
  }

  predicate IsCredentialRejection(f: Failure) {
    f.AuthFailed? && IsRejection(f.verdict)
  }

  predicate IsOAuthToken(key: string) {
    "mot_" <= key
  }

  /** Configured lifetimes; zero or less stands for the default. */
  datatype Ttls = Ttls(ttl: int, oauthTtl: int, negTtl: int)
  {
    function Session(): nat {
      if ttl <= 0 then DEFAULT_SESSION_TTL else ttl
    }

    function Entry(key: string): nat {
      if !IsOAuthToken(key) then Session()
      else
        var t := if oauthTtl <= 0 then DEFAULT_OAUTH_TTL else oauthTtl;
        if Session() < t then Session() else t
    }

    function Fail(): nat {
      if negTtl <= 0 then DEFAULT_FAIL_TTL else negTtl
    }
  }

  datatype Live<T> = Live(value: T, expiresAt: int)

  datatype Caches = Caches(sessions: map<string, Live<nat>>, failures: map<string, Live<Failure>>)

  /** What the caches answer for a key: a session, a remembered failure, or nothing. */
  function Lookup(c: Caches, key: string, now: int): Option<Result<nat, Failure>> {
    if key in c.sessions && now < c.sessions[key].expiresAt then Some(Ok(c.sessions[key].value))
    else if key in c.failures && now < c.failures[key].expiresAt then Some(Err(c.failures[key].value))
    else None
  }

  predicate PeekValid(c: Caches, key: string, now: int) {
    key in c.sessions && now < c.sessions[key].expiresAt
  }

  function Outcome(v: Verdict): Result<nat, Failure> {
    match v
    case Accepted(session) => Ok(session)
    case BadAgentData => Err(InvalidAgentData)
    case _ => Err(AuthFailed(v))
  }

  /** The caches after the API's verdict on a key is recorded. */
  function Record(t: Ttls, c: Caches, key: string, v: Verdict, now: int): Caches {
    match v
    case Accepted(session) =>
      Caches(c.sessions[key := Live(session, now + t.Entry(key))], c.failures - {key})
    case ApiError(_) =>
      if IsRejection(v) then c.(failures := c.failures[key := Live(AuthFailed(v), now + t.Fail())]) else c
    case NoAnswer => c
    case BadAgentData => c
  }

  function DropExpired<T>(m: map<string, Live<T>>, now: int): map<string, Live<T>> {
    map k | k in m && !(now > m[k].expiresAt) :: m[k]
  }

  function Evicted(c: Caches, now: int): Caches {
    Caches(DropExpired(c.sessions, now), DropExpired(c.failures, now))
  }

  class AgentSessionCache {
    const ttls: Ttls
    var cache: map<string, Live<nat>>
    var negCache: map<string, Live<Failure>>

    constructor (ttls: Ttls)
      ensures this.ttls == ttls && Value() == Caches(map[], map[])
    {
      this.ttls := ttls;
      cache, negCache := map[], map[];
    }

    function Value(): Caches
      reads this
    {
      Caches(cache, negCache)
    }

    /** GetOrAuthenticate at time `now`; on a miss the API answers `verdict` and it is recorded at `later`. */
    method GetOrAuthenticate(key: string, now: int, verdict: Verdict, later: int)
      returns (r: Result<nat, Failure>, asked: bool)
      modifies this
      ensures asked <==> Lookup(old(Value()), key, now).None?
      ensures !asked ==> Value() == old(Value()) && r == Lookup(old(Value()), key, now).value
      ensures asked ==> Value() == Record(ttls, old(Value()), key, verdict, later) && r == Outcome(verdict)
      // 408, 429, anything but a 4xx, no answer and bad agent data are not remembered
      ensures match verdict
              case ApiError(code) =>
                if 400 <= code <= 499 && code != 408 && code != 429
                then asked ==> key in negCache && negCache[key] == Live(AuthFailed(verdict), later + ttls.Fail())
                else Value() == old(Value())
              case NoAnswer => Value() == old(Value())
              case BadAgentData => Value() == old(Value())
              case Accepted(session) => asked ==> key in cache && cache[key] == Live(session, later + ttls.Entry(key))
    {
      if key in cache && now < cache[key].expiresAt { return Ok(cache[key].value), false; }
      if key in negCache && now < negCache[key].expiresAt { return Err(negCache[key].value), false; }
      if verdict.BadAgentData? { return Err(InvalidAgentData), true; }
      if !verdict.Accepted? {
        var failure := AuthFailed(verdict);
        if IsCredentialRejection(failure) {
          negCache := negCache[key := Live(failure, later + ttls.Fail())];
        }
        return Err(failure), true;
      }
      cache := cache[key := Live(verdict.session, later + ttls.Entry(key))];
      negCache := negCache - {key};
      return Ok(verdict.session), true;
    }

    /** One tick of evictExpiredLoop. */
    method EvictExpired(now: int)
      modifies this
      ensures Value() == Evicted(old(Value()), now)
    {
      cache := Sweep(cache, now);
      negCache := Sweep(negCache, now);
    }
  }

  /** The deleting loop over one map. */
  method Sweep<T>(m: map<string, Live<T>>, now: int) returns (swept: map<string, Live<T>>)
    ensures swept == DropExpired(m, now)
  {
    swept := m;
    var rest := m.Keys;
    while rest != {}
      invariant rest <= m.Keys
      invariant swept == map k | k in m && (k in rest || !(now > m[k].expiresAt)) :: m[k]
      decreases rest
    {
      var k :| k in rest;
      rest := rest - {k};
      if now > m[k].expiresAt { swept := swept - {k}; }
    }
  }

  // ---------------------------------------------------------------- in numbers

  /** A passing trouble says nothing about the credential: no verdict at all, or not the API's word on it. */
  predicate PassingTrouble(v: Verdict) {
    match v
    case Accepted(_) => false
    case ApiError(code) => code < 400 || code > 499 || code == 408 || code == 429
    case NoAnswer => true
    case BadAgentData => true
  }

  lemma RejectionMeans(v: Verdict)
    ensures IsRejection(v) <==> v.ApiError? && 400 <= v.code <= 499 && v.code != 408 && v.code != 429
    ensures IsRejection(v) <==> !v.Accepted? && !PassingTrouble(v)
  {
  }

  /** Lifetimes: 15 minutes for a session, 60 seconds at most for an OAuth one, 30 seconds for a failure, unless set. */
  lemma LifetimesMean(t: Ttls, key: string)
    ensures t.Session() == if t.ttl > 0 then t.ttl else 900_000_000_000
    ensures t.Fail() == if t.negTtl > 0 then t.negTtl else 30_000_000_000
    ensures var oauth := if t.oauthTtl > 0 then t.oauthTtl else 60_000_000_000;
            t.Entry(key) == if |key| >= 4 && key[..4] == "mot_" && oauth < t.Session() then oauth else t.Session()
  {
    assert "mot_" <= key <==> |key| >= 4 && key[..4] == "mot_";
  }

  /** What is recorded is served: a session for its lifetime, then a failure of its own, and nothing else of the key. */
  lemma RecordedIsServed(t: Ttls, c: Caches, key: string, v: Verdict, at: int, read: int)
    ensures v.Accepted? && read < at + t.Entry(key) ==>
              && Lookup(Record(t, c, key, v, at), key, read) == Some(Ok(v.session))
              && PeekValid(Record(t, c, key, v, at), key, read)
    ensures v.Accepted? && read >= at + t.Entry(key) ==> Lookup(Record(t, c, key, v, at), key, read) == None
    ensures v.ApiError? && 400 <= v.code <= 499 && v.code != 408 && v.code != 429 && !PeekValid(c, key, read) ==>
              Lookup(Record(t, c, key, v, at), key, read) ==
                if read < at + t.Fail() then Some(Err(AuthFailed(v))) else None
    ensures PassingTrouble(v) ==> Record(t, c, key, v, at) == c
    ensures forall other | other != key :: Lookup(Record(t, c, key, v, at), other, read) == Lookup(c, other, read)
    ensures PeekValid(c, key, read) <==> Lookup(c, key, read).Some? && Lookup(c, key, read).value.Ok?
  {
  }

  // ---------------------------------------------------------------- when eviction is invisible

  /**
   What happens to the caches, each under its lock and with the clock reading it uses:
   the lookup and the store of a GetOrAuthenticate are two operations, so anything may
   come between them.
   */
  datatype Op =
    | Search(key: string, read: int)
    | Peek(key: string, read: int)
    | StoreVerdict(key: string, verdict: Verdict, at: int)
    | Evict(read: int)

  function Do(t: Ttls, c: Caches, op: Op): Caches {
    match op
    case Search(_, _) => c
    case Peek(_, _) => c
    case StoreVerdict(key, verdict, at) => Record(t, c, key, verdict, at)
    case Evict(read) => Evicted(c, read)
  }

  /** What a caller is told; None means that the API has to be asked. */
  datatype Event = Found(r: Option<Result<nat, Failure>>) | Peeked(valid: bool)

  function Told(c: Caches, op: Op): seq<Event> {
    match op
    case Search(key, read) => [Found(Lookup(c, key, read))]
    case Peek(key, read) => [Peeked(PeekValid(c, key, read))]
    case StoreVerdict(_, _, _) => []
    case Evict(_) => []
  }

  function Events(t: Ttls, c: Caches, ops: seq<Op>): seq<Event>
    decreases ops
  {
    if ops == [] then [] else Told(c, ops[0]) + Events(t, Do(t, c, ops[0]), ops[1..])
  }

  function WithoutEvictions(ops: seq<Op>): seq<Op> {
    if ops == [] then []
    else (if ops[0].Evict? then [] else [ops[0]]) + WithoutEvictions(ops[1..])
  }

  /** A lookup has not read the clock before an eviction that got the lock first; `swept` is their latest reading. */
  predicate TimelyOp(op: Op, swept: int) {
    match op
    case Search(_, read) => swept <= read + 1
    case Peek(_, read) => swept <= read + 1
    case StoreVerdict(_, _, _) => true
    case Evict(_) => true
  }

  function SweptAfter(op: Op, swept: int): int {
    if op.Evict? then Max(swept, op.read) else swept
  }

  ghost predicate Timely(ops: seq<Op>, swept: int) {
    ops == [] || (TimelyOp(ops[0], swept) && Timely(ops[1..], SweptAfter(ops[0], swept)))
  }

  ghost predicate SameLive<T>(a: map<string, Live<T>>, b: map<string, Live<T>>, from: int) {
    forall k ::
      && (k in a && from < a[k].expiresAt ==> k in b && b[k] == a[k])
      && (k in b && from < b[k].expiresAt ==> k in a && a[k] == b[k])
  }

  /** Nobody who reads the clock at `from` or later can tell the two caches apart. */
  ghost predicate AgreeFrom(a: Caches, b: Caches, from: int) {
    SameLive(a.sessions, b.sessions, from) && SameLive(a.failures, b.failures, from)
  }

  lemma AgreeOnLookup(a: Caches, b: Caches, from: int, key: string, read: int)
    requires AgreeFrom(a, b, from) && from <= read
    ensures Lookup(a, key, read) == Lookup(b, key, read) && PeekValid(a, key, read) == PeekValid(b, key, read)
  {
  }

  lemma RecordKeepsAgreement(t: Ttls, a: Caches, b: Caches, key: string, v: Verdict, from: int, at: int)
    requires AgreeFrom(a, b, from)
    ensures AgreeFrom(Record(t, a, key, v, at), Record(t, b, key, v, at), from)
  {
  }

  lemma EvictKeepsAgreement(a: Caches, b: Caches, swept: int, read: int)
    requires AgreeFrom(a, b, swept - 1)
    ensures AgreeFrom(Evicted(a, read), b, Max(swept, read) - 1)
  {
  }

  /**
   An eviction that reads the clock at `read` is hidden from a later lookup, whatever the
   caches hold, if and only if the lookup has not read the clock before it.
   */
  lemma EvictionHiddenIff(read: int, lookup: int)
    ensures (forall c: Caches, key :: Lookup(Evicted(c, read), key, lookup) == Lookup(c, key, lookup))
            <==> read <= lookup + 1
  {
    if read > lookup + 1 {
      var c := Caches(map["key" := Live(0, lookup + 1)], map[]);
      assert Lookup(c, "key", lookup) == Some(Ok(0)) && Lookup(Evicted(c, read), "key", lookup) == None;
    } else {
      forall c: Caches, key ensures Lookup(Evicted(c, read), key, lookup) == Lookup(c, key, lookup) {
        EvictKeepsAgreement(c, c, read, read);
        AgreeOnLookup(Evicted(c, read), c, read - 1, key, lookup);
      }
    }
  }

  /** Caches that differ only in entries no timely reader can see stay so under every operation. */
  lemma DoKeepsAgreement(t: Ttls, a: Caches, b: Caches, op: Op, swept: int)
    requires AgreeFrom(a, b, swept - 1) && TimelyOp(op, swept)
    ensures op.Evict? ==> AgreeFrom(Do(t, a, op), b, SweptAfter(op, swept) - 1)
    ensures !op.Evict? ==> AgreeFrom(Do(t, a, op), Do(t, b, op), swept - 1) && Told(a, op) == Told(b, op)
  {
    match op
    case Search(key, read) => AgreeOnLookup(a, b, swept - 1, key, read);
    case Peek(key, read) => AgreeOnLookup(a, b, swept - 1, key, read);
    case StoreVerdict(key, verdict, at) => RecordKeepsAgreement(t, a, b, key, verdict, swept - 1, at);
    case Evict(read) => EvictKeepsAgreement(a, b, swept, read);
  }

  /** With timely lookups, every answer and every need to ask the API is the same as without evictions. */
  lemma {:induction false} EvictionInvisible(t: Ttls, a: Caches, b: Caches, ops: seq<Op>, swept: int)
    requires Timely(ops, swept) && AgreeFrom(a, b, swept - 1)
    ensures Events(t, a, ops) == Events(t, b, WithoutEvictions(ops))
    decreases ops
  {
    if ops != [] {
      var op, rest := ops[0], ops[1..];
      DoKeepsAgreement(t, a, b, op, swept);
      if op.Evict? {
        EvictionInvisible(t, Do(t, a, op), b, rest, SweptAfter(op, swept));
        assert WithoutEvictions(ops) == WithoutEvictions(rest);
      } else {
        EvictionInvisible(t, Do(t, a, op), Do(t, b, op), rest, swept);
        var kept := WithoutEvictions(rest);
        assert WithoutEvictions(ops) == [op] + kept && ([op] + kept)[0] == op && ([op] + kept)[1..] == kept;
      }
    }
  }
}
