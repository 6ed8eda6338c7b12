/** The agent gateway's handshake check and its fingerprint cache, against a database that changes over time. */
module CertCache {
  import opened Wrappers

  type Fingerprint = string

  /** The newest certificate row of a fingerprint, joined with its agent's status. */
  datatype CertRow = CertRow(agentId: string, revoked: bool, expiresAt: int, agentStatus: string)

  type Db = map<Fingerprint, CertRow>

  /** A cached handshake. `queriedAt` is when its row was read; the program does not store it. */
  datatype Cached = Cached(agentId: string, agentStatus: string, expiresAt: int, cachedAt: int, queriedAt: int)

  datatype Reason = NoCert | Unknown | Revoked | Expired | BadAgent(status: string)
  datatype Verdict = Accepted | Rejected(reason: Reason)

  /** Times are in milliseconds. */
  const CACHE_TTL := 30_000
  const CACHE_CAP := 4096

  predicate BadStatus(status: string) {
    status == "revoked" || status == "quarantined"
  }

  function CacheLookup(cache: map<Fingerprint, Cached>, fp: Fingerprint, now: int): Option<Cached> {
    if fp in cache && now - cache[fp].cachedAt < CACHE_TTL then Some(cache[fp]) else None
  }

  /** The hot path lets the handshake through without asking the database. */
  predicate CacheAccepts(cache: map<Fingerprint, Cached>, fp: Fingerprint, now: int) {
    var c := CacheLookup(cache, fp, now);
    c.Some? && now <= c.value.expiresAt && !BadStatus(c.value.agentStatus)
  }

  /** What the database path decides; a failed query counts as an unknown fingerprint. */
  function DbVerdict(db: Db, fp: Fingerprint, now: int, queryOk: bool): Verdict {
    if !queryOk || fp !in db then Rejected(Unknown)
    else if db[fp].revoked then Rejected(Revoked)
    else if now > db[fp].expiresAt then Rejected(Expired)
    else if BadStatus(db[fp].agentStatus) then Rejected(BadAgent(db[fp].agentStatus))
    else Accepted
  }

  /** The database vouches for the certificate. */
  predicate Vouched(db: Db, fp: Fingerprint) {
    fp in db && !db[fp].revoked && !BadStatus(db[fp].agentStatus)
  }

  /** An entry that a full cache may drop. */
  predicate IsVictim(cache: map<Fingerprint, Cached>, victim: Fingerprint) {
    |cache| >= CACHE_CAP ==> victim in cache
  }

  /** The cache after an insertion that found it full and dropped `victim`. */
  function CacheWithout(cache: map<Fingerprint, Cached>, victim: Fingerprint): map<Fingerprint, Cached> {
    if |cache| >= CACHE_CAP then cache - {victim} else cache
  }

  class CertVerifier {
    var cache: map<Fingerprint, Cached>

    constructor ()
      ensures cache == map[]
    {
      cache := map[];
    }

    method CacheGet(fp: Fingerprint, now: int) returns (c: Option<Cached>)
      ensures c == CacheLookup(cache, fp, now)
      ensures c.Some? <==> fp in cache && now - cache[fp].cachedAt < 30_000
    {
      if fp in cache && now - cache[fp].cachedAt < CACHE_TTL {
        return Some(cache[fp]);
      }
      return None;
    }

    method CachePut(fp: Fingerprint, c: Cached)
      modifies this
      ensures fp in cache && cache[fp] == c
      ensures forall k | k in cache && k != fp :: k in old(cache) && cache[k] == old(cache)[k]
      ensures exists victim :: IsVictim(old(cache), victim) && cache == CacheWithout(old(cache), victim)[fp := c]
      ensures |old(cache)| <= 4096 ==> |cache| <= 4096
      ensures |old(cache)| < 4096 ==> cache == old(cache)[fp := c]
    {
      ghost var before := cache;
      ghost var victim := fp;
      if |cache| >= CACHE_CAP {
        assert cache != map[];
        var k :| k in cache;
        victim := k;
        cache := cache - {k};
        assert cache.Keys == before.Keys - {k};
      }
      assert IsVictim(before, victim) && cache == CacheWithout(before, victim);
      PutSize(cache, fp, c);
      cache := cache[fp := c];
    }

    /** The application-level check on one presented leaf certificate. */
    method VerifyPeerCertificate(presented: Option<Fingerprint>, db: Db, now: int, queryOk: bool)
      returns (v: Verdict)
      modifies this
      ensures presented.None? ==> v == Rejected(NoCert) && cache == old(cache)
      ensures presented.Some? && CacheAccepts(old(cache), presented.value, now) ==> v == Accepted && cache == old(cache)
      ensures var fp := if presented.Some? then presented.value else "";
        v == Accepted <==>
          presented.Some? &&
          ((fp in old(cache) && now - old(cache)[fp].cachedAt < 30_000 && now <= old(cache)[fp].expiresAt
            && old(cache)[fp].agentStatus != "revoked" && old(cache)[fp].agentStatus != "quarantined")
           || (queryOk && fp in db && !db[fp].revoked && now <= db[fp].expiresAt
               && db[fp].agentStatus != "revoked" && db[fp].agentStatus != "quarantined"))
      ensures presented.Some? && !CacheAccepts(old(cache), presented.value, now) ==>
        var fp := presented.value;
        && v == DbVerdict(db, fp, now, queryOk)
        && (v.Rejected? ==> cache == old(cache))
        && (v.Accepted? ==>
             && fp in cache && cache[fp] == Cached(db[fp].agentId, db[fp].agentStatus, db[fp].expiresAt, now, now)
             && forall k | k in cache && k != fp :: k in old(cache) && cache[k] == old(cache)[k])
      ensures |old(cache)| <= CACHE_CAP ==> |cache| <= CACHE_CAP
    {
      if presented.None? {
        return Rejected(NoCert);
      }
      var fp := presented.value;
      var hit := CacheGet(fp, now);
      if hit.Some? && now <= hit.value.expiresAt && !BadStatus(hit.value.agentStatus) {
        return Accepted;
      }
      if !queryOk || fp !in db {
        return Rejected(Unknown);
      }
      var row := db[fp];
      if row.revoked {
        return Rejected(Revoked);
      }
      if now > row.expiresAt {
        return Rejected(Expired);
      }
      if BadStatus(row.agentStatus) {
        return Rejected(BadAgent(row.agentStatus));
      }
      CachePut(fp, Cached(row.agentId, row.agentStatus, row.expiresAt, now, now));
      return Accepted;
    }
  }

  /** The database path accepts exactly a fingerprint it knows, whose newest certificate is neither revoked nor past its
      expiry and whose agent is neither revoked nor quarantined; the first check that fails gives the reason. */
  lemma AcceptedExactly(db: Db, fp: Fingerprint, now: int, queryOk: bool)
    ensures DbVerdict(db, fp, now, queryOk) == Accepted <==>
      queryOk && fp in db && !db[fp].revoked && now <= db[fp].expiresAt
      && db[fp].agentStatus != "revoked" && db[fp].agentStatus != "quarantined"
    ensures DbVerdict(db, fp, now, queryOk) == Rejected(Unknown) <==> !queryOk || fp !in db
    ensures DbVerdict(db, fp, now, queryOk) == Rejected(Revoked) <==> queryOk && fp in db && db[fp].revoked
    ensures DbVerdict(db, fp, now, queryOk) == Rejected(Expired) <==>
      queryOk && fp in db && !db[fp].revoked && db[fp].expiresAt < now
  {
  }

  lemma PutSize(cache: map<Fingerprint, Cached>, fp: Fingerprint, c: Cached)
    ensures |cache[fp := c]| == if fp in cache then |cache| else |cache| + 1
  {
    assert cache[fp := c].Keys == cache.Keys + {fp};
  }

  // ---------- concurrent handshakes over time ----------

  /** A handshake that the database accepted and that has not yet written the cache. */
  datatype Pending = Pending(fp: Fingerprint, row: CertRow, queriedAt: int)

  /** A finished handshake; an acceptance remembers when the database was asked, a rejection whether it answered. */
  datatype Outcome =
    | Let(fp: Fingerprint, at: int, queriedAt: int)
    | Turned(fp: Fingerprint, at: int, answered: bool, reason: Reason)

  datatype State = State(now: int, cache: map<Fingerprint, Cached>, pending: map<int, Pending>, outcomes: seq<Outcome>)

  datatype Step =
    | Advance(to: int)
    | Hit(fp: Fingerprint)
    | Ask(handshake: int, fp: Fingerprint, answered: bool)
    | Store(handshake: int, victim: Fingerprint)

  /** `lag` bounds the time between a handshake's query and its cache write. */
  predicate Enabled(s: State, lag: nat, step: Step) {
    match step
    case Advance(t) => s.now <= t
    case Hit(fp) => CacheAccepts(s.cache, fp, s.now)
    case Ask(h, fp, _) => h !in s.pending && !CacheAccepts(s.cache, fp, s.now)
    case Store(h, victim) =>
      && h in s.pending && s.now - s.pending[h].queriedAt <= lag
      && IsVictim(s.cache, victim)
  }

  function Apply(db: int -> Db, s: State, lag: nat, step: Step): State
    requires Enabled(s, lag, step)
  {
    match step
    case Advance(t) => s.(now := t)
    case Hit(fp) => s.(outcomes := s.outcomes + [Let(fp, s.now, s.cache[fp].queriedAt)])
    case Ask(h, fp, answered) =>
      (match DbVerdict(db(s.now), fp, s.now, answered)
       case Accepted => s.(pending := s.pending[h := Pending(fp, db(s.now)[fp], s.now)])
       case Rejected(reason) => s.(outcomes := s.outcomes + [Turned(fp, s.now, answered, reason)]))
    case Store(h, victim) =>
      var p := s.pending[h];
      var c := Cached(p.row.agentId, p.row.agentStatus, p.row.expiresAt, s.now, p.queriedAt);
      s.(cache := CacheWithout(s.cache, victim)[p.fp := c], pending := s.pending - {h},
         outcomes := s.outcomes + [Let(p.fp, s.now, p.queriedAt)])
  }

  ghost predicate CachedOk(db: int -> Db, now: int, lag: nat, fp: Fingerprint, c: Cached) {
    && c.queriedAt <= c.cachedAt <= now && c.cachedAt - c.queriedAt <= lag
    && Vouched(db(c.queriedAt), fp)
    && c.expiresAt == db(c.queriedAt)[fp].expiresAt
  }

  ghost predicate PendingOk(db: int -> Db, now: int, p: Pending) {
    && p.queriedAt <= now && Vouched(db(p.queriedAt), p.fp)
    && p.row == db(p.queriedAt)[p.fp] && p.queriedAt <= p.row.expiresAt
  }

  /** A handshake let through was vouched for by the database less than TTL plus lag ago, and had not expired
      by the expiry read then when the last check was made; a handshake turned away is one that the database
      rejects at that very moment, or whose query failed. */
  ghost predicate OutcomeOk(db: int -> Db, lag: nat, o: Outcome) {
    match o
    case Let(fp, at, q) =>
      && q <= at < q + CACHE_TTL + lag && Vouched(db(q), fp)
      && (at <= db(q)[fp].expiresAt || (q <= db(q)[fp].expiresAt && at - q <= lag))
    case Turned(fp, at, answered, reason) =>
      if answered then DbVerdict(db(at), fp, at, true) == Rejected(reason) else reason == Unknown
  }

  ghost predicate Inv(db: int -> Db, lag: nat, s: State) {
    && |s.cache| <= CACHE_CAP
    && (forall fp | fp in s.cache :: CachedOk(db, s.now, lag, fp, s.cache[fp]))
    && (forall h | h in s.pending :: PendingOk(db, s.now, s.pending[h]))
    && (forall i | 0 <= i < |s.outcomes| :: OutcomeOk(db, lag, s.outcomes[i]))
  }

  lemma StepKeepsInv(db: int -> Db, lag: nat, s: State, step: Step)
    requires Inv(db, lag, s) && Enabled(s, lag, step)
    ensures Inv(db, lag, Apply(db, s, lag, step))
  {
    match step {
      case Advance(t) =>
      case Hit(fp) =>
        assert CachedOk(db, s.now, lag, fp, s.cache[fp]);
        assert OutcomeOk(db, lag, Let(fp, s.now, s.cache[fp].queriedAt));
      case Ask(h, fp, _) =>
      case Store(h, victim) => StoreKeepsInv(db, lag, s, h, victim);
    }
  }

  lemma StoreKeepsInv(db: int -> Db, lag: nat, s: State, h: int, victim: Fingerprint)
    requires Inv(db, lag, s) && Enabled(s, lag, Store(h, victim))
    ensures Inv(db, lag, Apply(db, s, lag, Store(h, victim)))
  {
    var p := s.pending[h];
    var s' := Apply(db, s, lag, Store(h, victim));
    assert PendingOk(db, s.now, p);
    var smaller := CacheWithout(s.cache, victim);
    assert |s.cache| >= CACHE_CAP ==> smaller.Keys == s.cache.Keys - {victim};
    PutSize(smaller, p.fp, s'.cache[p.fp]);
    forall fp | fp in s'.cache
      ensures CachedOk(db, s'.now, lag, fp, s'.cache[fp])
    {
      if fp != p.fp {
        assert CachedOk(db, s.now, lag, fp, s.cache[fp]);
      }
    }
    assert OutcomeOk(db, lag, Let(p.fp, s.now, p.queriedAt));
  }

  /** A handshake that nothing interrupts does what the VerifyPeerCertificate method does. */
  lemma UninterruptedHandshake(db: int -> Db, s: State, lag: nat, h: int, fp: Fingerprint, victim: Fingerprint)
    requires h !in s.pending && !CacheAccepts(s.cache, fp, s.now) && IsVictim(s.cache, victim)
    ensures var v, asked := DbVerdict(db(s.now), fp, s.now, true), Apply(db, s, lag, Ask(h, fp, true));
            if v == Accepted then
              && Enabled(asked, lag, Store(h, victim))
              && Apply(db, asked, lag, Store(h, victim)) ==
                 State(s.now, CacheWithout(s.cache, victim)[fp :=
                         Cached(db(s.now)[fp].agentId, db(s.now)[fp].agentStatus, db(s.now)[fp].expiresAt, s.now, s.now)],
                       s.pending, s.outcomes + [Let(fp, s.now, s.now)])
            else asked == s.(outcomes := s.outcomes + [Turned(fp, s.now, true, v.reason)])
  {
    var asked := Apply(db, s, lag, Ask(h, fp, true));
    if DbVerdict(db(s.now), fp, s.now, true) == Accepted {
      assert asked.pending - {h} == s.pending;
    }
  }

  ghost predicate IsRun(db: int -> Db, lag: nat, states: seq<State>, steps: seq<Step>) {
    && |states| == |steps| + 1 && states[0].cache == map[] && states[0].pending == map[] && states[0].outcomes == []
    && forall i | 0 <= i < |steps| ::
         Enabled(states[i], lag, steps[i]) && states[i + 1] == Apply(db, states[i], lag, steps[i])
  }

  /** However handshakes interleave with each other and with changes to the database: every outcome is sound and
      the cache stays bounded. */
  lemma {:induction false} HandshakesAreSound(db: int -> Db, lag: nat, states: seq<State>, steps: seq<Step>, n: nat)
    requires IsRun(db, lag, states, steps) && n < |states|
    ensures |states[n].cache| <= CACHE_CAP
    ensures forall i | 0 <= i < |states[n].outcomes| :: OutcomeOk(db, lag, states[n].outcomes[i])
    ensures Inv(db, lag, states[n])
  {
    if n > 0 {
      HandshakesAreSound(db, lag, states, steps, n - 1);
      assert states[n - 1 + 1] == Apply(db, states[n - 1], lag, steps[n - 1]);
      StepKeepsInv(db, lag, states[n - 1], steps[n - 1]);
    }
  }

  /** No handshake is turned away whose query was answered while the database vouched for its unexpired certificate. */
  lemma VouchedIsNotTurned(db: int -> Db, lag: nat, states: seq<State>, steps: seq<Step>, n: nat, i: nat)
    requires IsRun(db, lag, states, steps) && n < |states| && i < |states[n].outcomes|
    requires states[n].outcomes[i].Turned? && states[n].outcomes[i].answered
    ensures var o := states[n].outcomes[i];
      !(o.fp in db(o.at) && !db(o.at)[o.fp].revoked && o.at <= db(o.at)[o.fp].expiresAt
        && db(o.at)[o.fp].agentStatus != "revoked" && db(o.at)[o.fp].agentStatus != "quarantined")
  {
    HandshakesAreSound(db, lag, states, steps, n);
    var o := states[n].outcomes[i];
    assert OutcomeOk(db, lag, o);
    AcceptedExactly(db(o.at), o.fp, o.at, true);
  }

  /** With query and cache write taken as one instant, nothing is let through past the expiry it was read with. */
  lemma InstantWriteRespectsExpiry(db: int -> Db, o: Outcome)
    requires OutcomeOk(db, 0, o) && o.Let?
    ensures 0 <= o.at - o.queriedAt < CACHE_TTL && o.at <= db(o.queriedAt)[o.fp].expiresAt
  {
  }

  /** A certificate that the database stops vouching for at time r is let through no more from r + TTL + lag on. */
  lemma RevocationTakesEffect(db: int -> Db, lag: nat, states: seq<State>, steps: seq<Step>, n: nat,
                              fp: Fingerprint, r: int, i: nat)
    requires IsRun(db, lag, states, steps) && n < |states| && i < |states[n].outcomes|
    requires forall t | r <= t :: !Vouched(db(t), fp)
    requires states[n].outcomes[i].fp == fp && states[n].outcomes[i].at >= r + CACHE_TTL + lag
    ensures states[n].outcomes[i].Turned?
  {
    HandshakesAreSound(db, lag, states, steps, n);
    assert OutcomeOk(db, lag, states[n].outcomes[i]);
  }
}
