/**
 The bounded cache of rendered task snapshots
 (internal/mcp/my_tasks_snapshot.go:23-106).
 */
module SnapshotCache {
  import opened Wrappers
  import MapSum

  const CACHE_BYTES: nat := 33_554_432
  const CACHE_ENTRIES: nat := 128
  const CACHE_TTL: nat := 1_800_000_000_000  // 30 minutes in nanoseconds

  datatype Base = Base(scope: string, body: Bytes, expires: int)

  type Bases = map<string, Base>

  /** The revision of a body in a scope. */
  type Digest = (string, Bytes) -> string

  // ---------------------------------------------------------------- what an exchange does

  function Live(bases: Bases, now: int): Bases {
    map k | k in bases && now < bases[k].expires :: bases[k]
  }

  ghost function Lengths(bases: Bases): map<string, nat> {
    map k | k in bases :: |bases[k].body|
  }

  ghost function TotalBytes(bases: Bases): nat {
    MapSum.Sum(Lengths(bases))
  }

  /** Room for one more body of n bytes. */
  ghost predicate Fits(bases: Bases, n: nat) {
    |bases| < CACHE_ENTRIES && TotalBytes(bases) + n <= CACHE_BYTES
  }

  ghost predicate SubMap(kept: Bases, pool: Bases) {
    forall k | k in kept :: k in pool && kept[k] == pool[k]
  }

  /** No victim outlives a survivor. */
  ghost predicate OldestFirst(pool: Bases, kept: Bases) {
    forall v, s | v in pool && v !in kept && s in kept && s in pool :: pool[v].expires <= pool[s].expires
  }

  /** Without evicting `last`, the youngest victim, there would not have been room. */
  ghost predicate LastVictim(pool: Bases, kept: Bases, n: nat, last: string) {
    && last in pool && last !in kept
    && (forall v | v in pool && v !in kept :: pool[v].expires <= pool[last].expires)
    && !Fits(kept[last := pool[last]], n)
  }

  /** `kept` is what remains of `pool` after making room for n bytes, oldest first and no more than needed. */
  ghost predicate MadeRoom(pool: Bases, kept: Bases, n: nat) {
    && SubMap(kept, pool)
    && Fits(kept, n)
    && OldestFirst(pool, kept)
    && (kept == pool || exists last :: LastVictim(pool, kept, n, last))
  }

  /** The base an exchange answers with; no bytes stands for none. */
  function Previous(digest: Digest, bases: Bases, scope: string, known: string, body: Bytes, now: int): Bytes {
    if |body| > CACHE_BYTES then []
    else if
      && known in Live(bases, now)
      && bases[known].scope == scope
      && digest(scope, bases[known].body) == known
    then bases[known].body
    else []
  }

  /** The cache after an exchange. */
  ghost predicate Stored(bases: Bases, scope: string, revision: string, body: Bytes, now: int, after: Bases) {
    if |body| > CACHE_BYTES then after == Live(bases, now)
    else
      && revision in after
      && after[revision] == Base(scope, body, now + CACHE_TTL)
      && MadeRoom(Live(bases, now) - {revision}, after - {revision}, |body|)
  }

  ghost predicate WithinBounds(bases: Bases) {
    |bases| <= CACHE_ENTRIES && TotalBytes(bases) <= CACHE_BYTES
  }

  lemma RemoveBase(bases: Bases, k: string)
    requires k in bases
    ensures TotalBytes(bases) == TotalBytes(bases - {k}) + |bases[k].body|
    ensures |bases| == |bases - {k}| + 1
  {
    MapSum.SumSplit(Lengths(bases), k);
    assert Lengths(bases) - {k} == Lengths(bases - {k});
    assert bases.Keys == (bases - {k}).Keys + {k};
  }

  lemma AddBase(bases: Bases, k: string, base: Base)
    requires k !in bases
    ensures bases[k := base] - {k} == bases
    ensures TotalBytes(bases[k := base]) == TotalBytes(bases) + |base.body|
  {
    RemoveBase(bases[k := base], k);
    assert bases[k := base] - {k} == bases;
  }

  lemma EmptyHasRoom(n: nat)
    requires n <= CACHE_BYTES
    ensures Fits(map[], n)
  {
    assert Lengths(map[]) == map[];
  }

  /** Both bounds survive every exchange: 128 entries and 32 MiB. */
  lemma StoredWithinBounds(bases: Bases, scope: string, revision: string, body: Bytes, now: int, after: Bases)
    requires WithinBounds(bases) && Stored(bases, scope, revision, body, now, after)
    ensures WithinBounds(after) && |after| <= 128 && TotalBytes(after) <= 33_554_432
  {
    if |body| > CACHE_BYTES {
      SubMapBounds(after, bases);
    } else {
      RemoveBase(after, revision);
    }
  }

  lemma {:induction false} SubMapBounds(kept: Bases, pool: Bases)
    requires SubMap(kept, pool)
    ensures |kept| <= |pool| && TotalBytes(kept) <= TotalBytes(pool)
    decreases |pool|
  {
    if kept != pool {
      var k :| k in pool && k !in kept;
      RemoveBase(pool, k);
      SubMapBounds(kept, pool - {k});
    }
  }

  /** One turn of the eviction loop. */
  lemma EvictOldest(pool: Bases, kept: Bases, oldest: string, n: nat)
    requires SubMap(kept, pool) && OldestFirst(pool, kept) && !Fits(kept, n)
    requires oldest in kept && forall k | k in kept :: kept[oldest].expires <= kept[k].expires
    ensures SubMap(kept - {oldest}, pool) && OldestFirst(pool, kept - {oldest})
    ensures LastVictim(pool, kept - {oldest}, n, oldest)
  {
    assert (kept - {oldest})[oldest := pool[oldest]] == kept;
    forall v | v in pool && v !in kept - {oldest} ensures pool[v].expires <= pool[oldest].expires {
      assert v == oldest || v !in kept;
    }
  }

  lemma {:induction false} FitsBelow(kept: Bases, pool: Bases, n: nat)
    requires SubMap(kept, pool) && Fits(pool, n)
    ensures Fits(kept, n)
  {
    SubMapBounds(kept, pool);
  }

  /** Where there is room nothing is evicted. */
  lemma NoNeedlessEviction(pool: Bases, kept: Bases, n: nat)
    requires MadeRoom(pool, kept, n) && Fits(pool, n)
    ensures kept == pool
  {
    if kept != pool {
      var last :| LastVictim(pool, kept, n, last);
      FitsBelow(kept[last := pool[last]], pool, n);
    }
  }

  /**
   What an exchange keeps, in numbers: an entry lives for 30 minutes; one that is dropped
   has expired, is replaced, or gives way to a body up to 32 MiB for which there is no room.
   */
  lemma KeptUnlessDue(bases: Bases, scope: string, revision: string, body: Bytes, now: int, after: Bases, key: string)
    requires Stored(bases, scope, revision, body, now, after) && key in bases
    ensures |body| > 33_554_432 ==> (key in after <==> now < bases[key].expires)
    ensures |body| > 33_554_432 ==> after.Keys <= bases.Keys
    ensures |body| <= 33_554_432 ==>
              revision in after && after[revision] == Base(scope, body, now + 1_800_000_000_000)
    ensures key in after && key != revision ==> after[key] == bases[key] && now < bases[key].expires
    ensures |body| <= 33_554_432 && key != revision && now < bases[key].expires && key !in after ==>
              var live := Live(bases, now) - {revision};
              |live| >= 128 || TotalBytes(live) + |body| > 33_554_432
  {
    if |body| <= CACHE_BYTES && key != revision {
      var pool, kept := Live(bases, now) - {revision}, after - {revision};
      assert key in after <==> key in kept;
      if Fits(pool, |body|) { NoNeedlessEviction(pool, kept, |body|); }
    }
  }

  /** A base is answered exactly if it is held, alive, of this scope, and hashes to the known revision. */
  lemma KnownIsAnswered(digest: Digest, bases: Bases, scope: string, known: string, body: Bytes, now: int)
    requires |body| <= 33_554_432 && known in bases && bases[known].body != []
    ensures Previous(digest, bases, scope, known, body, now) == bases[known].body <==>
              && now < bases[known].expires && bases[known].scope == scope
              && digest(scope, bases[known].body) == known
    ensures Previous(digest, bases, scope, known, body, now) in {[], bases[known].body}
  {
  }

  // ---------------------------------------------------------------- the cache object

  class MyTasksSnapshots {
    const digest: Digest
    var bases: Bases
    var bytes: int

    constructor (digest: Digest)
      ensures Valid() && bases == map[] && this.digest == digest
    {
      this.digest := digest;
      bases, bytes := map[], 0;
      new;
      assert Lengths(bases) == map[];
    }

    /** The byte counter is exact and both bounds hold. */
    ghost predicate Valid()
      reads this
    {
      && bytes == TotalBytes(bases)
      && WithinBounds(bases)
      && "" !in bases
    }

    /** Drops an entry and its bytes. */
    method Drop(key: string)
      requires key in bases && bytes == TotalBytes(bases)
      modifies this
      ensures bases == old(bases) - {key} && bytes == TotalBytes(bases)
      ensures |bases| == |old(bases)| - 1
    {
      RemoveBase(bases, key);
      bytes := bytes - |bases[key].body|;
      bases := bases - {key};
    }

    method DropExpired(now: int)
      requires bytes == TotalBytes(bases)
      modifies this
      ensures bases == Live(old(bases), now) && bytes == TotalBytes(bases)
    {
      var rest := bases.Keys;
      while rest != {}
        invariant rest <= old(bases).Keys
        invariant bases == map k | k in old(bases) && (k in rest || now < old(bases)[k].expires) :: old(bases)[k]
        invariant bytes == TotalBytes(bases)
        decreases rest
      {
        var key :| key in rest;
        rest := rest - {key};
        if !(now < bases[key].expires) { Drop(key); }
      }
    }

    /** The key with the oldest expiry; "" stands for none seen yet. */
    method Oldest() returns (oldest: string)
      requires bases != map[] && "" !in bases
      ensures oldest in bases
      ensures forall k | k in bases :: bases[oldest].expires <= bases[k].expires
    {
      oldest := "";
      var rest := bases.Keys;
      while rest != {}
        invariant rest <= bases.Keys
        invariant oldest == "" <==> rest == bases.Keys
        invariant oldest != "" ==> oldest in bases
        invariant oldest != "" ==> forall k | k in bases && k !in rest :: bases[oldest].expires <= bases[k].expires
        decreases rest
      {
        var key :| key in rest;
        if oldest == "" || bases[key].expires < bases[oldest].expires { oldest := key; }
        rest := rest - {key};
      }
      assert bases.Keys != {};
    }

    /** The eviction loop: it ends because the counter is exact, so an empty cache always has room. */
    method MakeRoom(n: nat)
      requires bytes == TotalBytes(bases) && "" !in bases && n <= CACHE_BYTES
      modifies this
      ensures bytes == TotalBytes(bases)
      ensures MadeRoom(old(bases), bases, n)
    {
      ghost var pool := bases;
      EmptyHasRoom(n);
      while |bases| >= CACHE_ENTRIES || bytes + n > CACHE_BYTES
        invariant bytes == TotalBytes(bases) && "" !in bases
        invariant SubMap(bases, pool) && OldestFirst(pool, bases)
        invariant bases == pool || exists last :: LastVictim(pool, bases, n, last)
        decreases |bases|
      {
        ghost var before := bases;
        var oldest := Oldest();
        Drop(oldest);
        EvictOldest(pool, before, oldest, n);
      }
    }

    /** exchange: answers the known base, then stores the new body under its revision. */
    method Exchange(scope: string, revision: string, known: string, body: Bytes, now: int) returns (previous: Bytes)
      requires Valid() && revision != ""
      modifies this
      ensures Valid()
      ensures previous == Previous(digest, old(bases), scope, known, body, now)
      ensures Stored(old(bases), scope, revision, body, now, bases)
    {
      DropExpired(now);
      previous := [];
      if known in bases && bases[known].scope == scope && digest(scope, bases[known].body) == known {
        previous := bases[known].body;
      }
      assert Live(bases, now) == bases;
      if |body| > CACHE_BYTES {
        SubMapBounds(bases, old(bases));
        return [];
      }
      Store(scope, revision, body, now);
      StoredWithinBounds(old(bases), scope, revision, body, now, bases);
    }

    /** Replaces any entry of the revision, makes room and adds the new one. */
    method Store(scope: string, revision: string, body: Bytes, now: int)
      requires bytes == TotalBytes(bases) && "" !in bases && revision != "" && |body| <= CACHE_BYTES
      modifies this
      ensures bytes == TotalBytes(bases) && "" !in bases
      ensures revision in bases && bases[revision] == Base(scope, body, now + CACHE_TTL)
      ensures MadeRoom(old(bases) - {revision}, bases - {revision}, |body|)
    {
      if revision in bases { Drop(revision); }
      assert bases == old(bases) - {revision};
      MakeRoom(|body|);
      AddBase(bases, revision, Base(scope, body, now + CACHE_TTL));
      bytes := bytes + |body|;
      bases := bases[revision := Base(scope, body, now + CACHE_TTL)];
    }
  }

  // ---------------------------------------------------------------- every sequence of exchanges

  datatype Call = Call(scope: string, revision: string, known: string, body: Bytes, now: int)

  ghost predicate Step(digest: Digest, c: Call, before: Bases, answer: Bytes, after: Bases) {
    && answer == Previous(digest, before, c.scope, c.known, c.body, c.now)
    && Stored(before, c.scope, c.revision, c.body, c.now, after)
  }

  /** states[i] is the cache before call i, answers[i] what call i returned. */
  ghost predicate Run(digest: Digest, calls: seq<Call>, states: seq<Bases>, answers: seq<Bytes>) {
    && |states| == |calls| + 1 && |answers| == |calls|
    && states[0] == map[]
    && forall i | 0 <= i < |calls| :: Step(digest, calls[i], states[i], answers[i], states[i + 1])
  }

  /** Call i stored this entry. */
  ghost predicate StoredBy(c: Call, key: string, base: Base) {
    key == c.revision && base == Base(c.scope, c.body, c.now + CACHE_TTL)
  }

  /** An entry after a call is the call's own, or was there before. */
  lemma EntryComesFrom(c: Call, before: Bases, after: Bases, key: string)
    requires Stored(before, c.scope, c.revision, c.body, c.now, after) && key in after
    ensures StoredBy(c, key, after[key]) || (key in before && after[key] == before[key])
  {
    if |c.body| <= CACHE_BYTES && key != c.revision {
      assert key in after - {c.revision};
      assert SubMap(after - {c.revision}, Live(before, c.now) - {c.revision});
    }
  }

  lemma {:induction false} EveryEntryWasStored(
    digest: Digest, calls: seq<Call>, states: seq<Bases>, answers: seq<Bytes>, n: nat, key: string)
    returns (i: nat)
    requires Run(digest, calls, states, answers) && n <= |calls| && key in states[n]
    ensures i < n && StoredBy(calls[i], key, states[n][key])
  {
    var c := calls[n - 1];
    assert Step(digest, c, states[n - 1], answers[n - 1], states[n - 1 + 1]);
    EntryComesFrom(c, states[n - 1], states[n], key);
    if StoredBy(c, key, states[n][key]) {
      i := n - 1;
    } else {
      i := EveryEntryWasStored(digest, calls, states, answers, n - 1, key);
    }
  }

  /**
   Over every run: the bounds always hold, and a returned base was stored by an
   earlier call of the same scope under the known revision, has not expired and
   hashes to that revision.
   */
  lemma {:induction false} RunSafe(digest: Digest, calls: seq<Call>, states: seq<Bases>, answers: seq<Bytes>, n: nat)
    requires Run(digest, calls, states, answers) && n <= |calls|
    ensures WithinBounds(states[n]) && |states[n]| <= 128 && TotalBytes(states[n]) <= 33_554_432
    ensures n < |calls| && answers[n] != [] ==>
        && digest(calls[n].scope, answers[n]) == calls[n].known
        && exists i :: 0 <= i < n && calls[i].scope == calls[n].scope && calls[i].revision == calls[n].known
                       && calls[i].body == answers[n] && calls[n].now < calls[i].now + 1_800_000_000_000
  {
    if n == 0 {
      assert Lengths(states[0]) == map[];
    } else {
      RunSafe(digest, calls, states, answers, n - 1);
      var c := calls[n - 1];
      assert Step(digest, c, states[n - 1], answers[n - 1], states[n - 1 + 1]);
      StoredWithinBounds(states[n - 1], c.scope, c.revision, c.body, c.now, states[n]);
    }
    if n < |calls| && answers[n] != [] {
      assert Step(digest, calls[n], states[n], answers[n], states[n + 1]);
      var i := EveryEntryWasStored(digest, calls, states, answers, n, calls[n].known);
    }
  }
}
