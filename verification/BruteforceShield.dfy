/** The per-IP brute-force shield, statement by statement: failures, lockouts, and a sweep that must not be
    observable. */
module BruteforceShield {
  import opened Wrappers

  type Ip = string

  datatype Failure = Failure(ip: Ip, at: int)

  /** Threshold, sliding window and lock duration; the shield accepts any values. */
  datatype Config = Config(threshold: int, window: int, lockFor: int)

  /** The rows of auth_ip_failures and auth_ip_lockouts. */
  datatype State = State(failures: seq<Failure>, lockouts: map<Ip, int>)

  const EMPTY := State([], map[])

  /** `count(*) WHERE ip = $1 AND occurred_at >= $2`. */
  function Count(failures: seq<Failure>, ip: Ip, since: int): nat {
    if failures == [] then 0
    else
      var last := failures[|failures| - 1];
      Count(failures[..|failures| - 1], ip, since) + if last.ip == ip && last.at >= since then 1 else 0
  }

  /** The failures a sweep leaves: those not before the bound. */
  function Since(failures: seq<Failure>, bound: int): seq<Failure> {
    if failures == [] then []
    else
      var init := Since(failures[..|failures| - 1], bound);
      if failures[|failures| - 1].at < bound then init else init + [failures[|failures| - 1]]
  }

  function Max(a: int, b: int): int {
    if a > b then a else b
  }

  function Raised(lockouts: map<Ip, int>, ip: Ip, until: int): map<Ip, int> {
    lockouts[ip := if ip in lockouts then Max(lockouts[ip], until) else until]
  }

  /** The lockouts a sweep leaves. */
  function Unexpired(lockouts: map<Ip, int>, now: int): map<Ip, int> {
    map ip | ip in lockouts && lockouts[ip] >= now :: lockouts[ip]
  }

  /** One SQL statement. The first three are RecordFailure's, the last two SweepExpired's. */
  datatype Op =
    | InsertFailure(ip: Ip)
    | CountFailures(ip: Ip, since: int)
    | RaiseLock(ip: Ip, until: int)
    | ReadLock(ip: Ip)
    | DeleteLock(ip: Ip)
    | PruneLockouts
    | PruneFailures

  /** A statement and the database time it runs at. */
  datatype Call = Call(op: Op, at: int)

  /** What a statement answers. A sweep's row counts are left out: they are its own report. */
  datatype Answer = Counted(n: nat) | Locked(until: Option<int>) | Done

  predicate IsSweep(op: Op) {
    op.PruneLockouts? || op.PruneFailures?
  }

  function LockedUntil(lockouts: map<Ip, int>, ip: Ip, now: int): Option<int> {
    if ip in lockouts && lockouts[ip] > now then Some(lockouts[ip]) else None
  }

  function Next(cfg: Config, s: State, c: Call): State {
    match c.op
    case InsertFailure(ip) => s.(failures := s.failures + [Failure(ip, c.at)])
    case CountFailures(_, _) => s
    case RaiseLock(ip, until) => s.(lockouts := Raised(s.lockouts, ip, until))
    case ReadLock(_) => s
    case DeleteLock(ip) => s.(lockouts := s.lockouts - {ip})
    case PruneLockouts => s.(lockouts := Unexpired(s.lockouts, c.at))
    case PruneFailures => s.(failures := Since(s.failures, c.at - 2 * cfg.window))
  }

  function Reply(s: State, c: Call): Answer {
    match c.op
    case CountFailures(ip, since) => Counted(Count(s.failures, ip, since))
    case ReadLock(ip) => Locked(LockedUntil(s.lockouts, ip, c.at))
    case _ => Done
  }

  function After(cfg: Config, s: State, calls: seq<Call>): State {
    if calls == [] then s else Next(cfg, After(cfg, s, calls[..|calls| - 1]), calls[|calls| - 1])
  }

  // ---------- the methods, uninterrupted ----------

  /** The times of RecordFailure's three statements: the two database clocks, and the application clock that the
      window and the lock are reckoned from. */
  datatype Times = Times(inserted: int, counted: int, raised: int)

  /** The statements RecordFailure gets through; `reached` is how many of them the database accepts. */
  function Statements(cfg: Config, failures: seq<Failure>, ip: Ip, at: Times, reached: nat): seq<Call> {
    var insert := Call(InsertFailure(ip), at.inserted);
    var count := Call(CountFailures(ip, at.counted - cfg.window), at.counted);
    var raise := Call(RaiseLock(ip, at.raised + cfg.lockFor), at.raised);
    if reached == 0 then []
    else if reached == 1 then [insert]
    else if Count(failures + [Failure(ip, at.inserted)], ip, at.counted - cfg.window) < cfg.threshold || reached == 2
    then [insert, count]
    else [insert, count, raise]
  }

  class Shield {
    const cfg: Config
    var failures: seq<Failure>
    var lockouts: map<Ip, int>

    constructor (cfg: Config)
      ensures this.cfg == cfg && failures == [] && lockouts == map[]
    {
      this.cfg := cfg;
      failures, lockouts := [], map[];
    }

    function Contents(): State
      reads this
    {
      State(failures, lockouts)
    }

    /** A nil address is ignored. A failure to write the lock is reported together with the trip; an earlier one
        is reported alone. */
    method RecordFailure(ip: Option<Ip>, at: Times, reached: nat) returns (tripped: bool, failed: bool)
      modifies this
      ensures ip.None? ==> !tripped && !failed && Contents() == old(Contents())
      ensures ip.Some? ==> Contents() == After(cfg, old(Contents()), Statements(cfg, old(failures), ip.value, at, reached))
      ensures ip.Some? ==>
        var enough := Count(old(failures) + [Failure(ip.value, at.inserted)], ip.value, at.counted - cfg.window)
                      >= cfg.threshold;
        && (tripped <==> reached >= 2 && Trips(cfg, Reply(
              After(cfg, old(Contents()), [Call(InsertFailure(ip.value), at.inserted)]),
              Call(CountFailures(ip.value, at.counted - cfg.window), at.counted))))
        && (failed <==> reached < 2 || (reached == 2 && enough))
        && (tripped && !failed ==>
             var until := at.raised + cfg.lockFor;
             lockouts == old(lockouts)[ip.value := if ip.value in old(lockouts) && old(lockouts)[ip.value] > until
                                                   then old(lockouts)[ip.value] else until])
        && (!tripped || failed ==> lockouts == old(lockouts))
        && failures == old(failures) + if reached == 0 then [] else [Failure(ip.value, at.inserted)]
    {
      if ip.None? {
        return false, false;
      }
      if reached == 0 {
        return false, true;
      }
      failures := failures + [Failure(ip.value, at.inserted)];
      AfterCount(cfg, old(Contents()), ip.value, at);
      if reached > 2 {
        AfterStatements(cfg, old(Contents()), ip.value, at, reached);
      }
      if reached == 1 {
        return false, true;
      }
      var count := Count(failures, ip.value, at.counted - cfg.window);
      if count < cfg.threshold {
        return false, false;
      }
      if reached == 2 {
        return true, true;
      }
      if ip.value in lockouts && lockouts[ip.value] > at.raised + cfg.lockFor {
        // GREATEST keeps the later lock
      } else {
        lockouts := lockouts[ip.value := at.raised + cfg.lockFor];
      }
      assert lockouts == Raised(old(lockouts), ip.value, at.raised + cfg.lockFor);
      return true, false;
    }

    /** A database error is passed on, for the caller to refuse the login. */
    method IsLocked(ip: Option<Ip>, now: int, answered: bool) returns (r: Result<Option<int>, string>)
      ensures r.Ok? <==> ip.None? || answered
      ensures r.Ok? && ip.None? ==> r.value == None
      ensures r.Ok? && ip.Some? ==>
        r.value == if ip.value in lockouts && lockouts[ip.value] > now then Some(lockouts[ip.value]) else None
      ensures r.Ok? && ip.Some? ==> Reply(Contents(), Call(ReadLock(ip.value), now)) == Locked(r.value)
    {
      if ip.None? {
        return Ok(None);
      }
      if !answered {
        return Err("query failed");
      }
      return Ok(if ip.value in lockouts && lockouts[ip.value] > now then Some(lockouts[ip.value]) else None);
    }

    method Unlock(ip: Option<Ip>, accepted: bool) returns (r: Result<(), string>)
      modifies this
      ensures r.Ok? <==> ip.Some? && accepted
      ensures Contents() == if r.Ok? then Next(cfg, old(Contents()), Call(DeleteLock(ip.value), 0)) else old(Contents())
      ensures failures == old(failures) && lockouts == if r.Ok? then old(lockouts) - {ip.value} else old(lockouts)
    {
      if ip.None? {
        return Err("auth: cannot unlock nil ip");
      }
      if !accepted {
        return Err("delete failed");
      }
      lockouts := lockouts - {ip.value};
      return Ok(());
    }

    /** Two statements, of which the database accepts the first `reached`; both counts are returned either way. */
    method SweepExpired(now: int, reached: nat) returns (lockoutsRemoved: nat, failuresPruned: nat, ok: bool)
      modifies this
      ensures ok <==> reached >= 2
      ensures Contents() ==
        if reached == 0 then old(Contents())
        else if reached == 1 then Next(cfg, old(Contents()), Call(PruneLockouts, now))
        else Next(cfg, Next(cfg, old(Contents()), Call(PruneLockouts, now)), Call(PruneFailures, now))
      ensures lockoutsRemoved == |old(lockouts)| - |lockouts| && failuresPruned == |old(failures)| - |failures|
      ensures reached >= 1 ==>
        && (forall ip :: ip in lockouts <==> ip in old(lockouts) && old(lockouts)[ip] >= now)
        && (forall ip | ip in lockouts :: lockouts[ip] == old(lockouts)[ip])
      ensures reached >= 2 ==> Leaves(old(failures), failures, now - 2 * cfg.window)
    {
      SinceLeaves(failures, now - 2 * cfg.window);
      if reached == 0 {
        return 0, 0, false;
      }
      var kept := Unexpired(lockouts, now);
      KeptIsSmaller(lockouts, kept);
      lockoutsRemoved, failuresPruned := |lockouts| - |kept|, 0;
      lockouts := kept;
      if reached == 1 {
        return lockoutsRemoved, 0, false;
      }
      SinceIsShorter(failures, now - 2 * cfg.window);
      var recent := Since(failures, now - 2 * cfg.window);
      failuresPruned := |failures| - |recent|;
      failures := recent;
      ok := true;
    }
  }

  lemma AfterOne(cfg: Config, s: State, c: Call)
    ensures After(cfg, s, [c]) == Next(cfg, s, c)
  {
    assert [c][..0] == [];
  }

  lemma AfterSnoc(cfg: Config, s: State, calls: seq<Call>, c: Call)
    ensures After(cfg, s, calls + [c]) == Next(cfg, After(cfg, s, calls), c)
  {
    assert (calls + [c])[..|calls|] == calls;
  }

  lemma AfterTwo(cfg: Config, s: State, c: Call, d: Call)
    ensures After(cfg, s, [c, d]) == Next(cfg, Next(cfg, s, c), d)
  {
    AfterOne(cfg, s, c);
    AfterSnoc(cfg, s, [c], d);
    assert [c] + [d] == [c, d];
  }

  /** The state after RecordFailure's count: the failure is there. */
  lemma AfterCount(cfg: Config, s: State, ip: Ip, at: Times)
    ensures After(cfg, s, Statements(cfg, s.failures, ip, at, 1)) == s.(failures := s.failures + [Failure(ip, at.inserted)])
    ensures After(cfg, s, Statements(cfg, s.failures, ip, at, 2)) == s.(failures := s.failures + [Failure(ip, at.inserted)])
  {
    var insert := Call(InsertFailure(ip), at.inserted);
    var count := Call(CountFailures(ip, at.counted - cfg.window), at.counted);
    AfterOne(cfg, s, insert);
    AfterTwo(cfg, s, insert, count);
  }

  /** And after all of its statements: the lock is raised if the count was high enough. */
  lemma AfterStatements(cfg: Config, s: State, ip: Ip, at: Times, reached: nat)
    requires reached > 2
    ensures var counted := s.(failures := s.failures + [Failure(ip, at.inserted)]);
            var enough := Count(counted.failures, ip, at.counted - cfg.window) >= cfg.threshold;
            var raise := Call(RaiseLock(ip, at.raised + cfg.lockFor), at.raised);
            After(cfg, s, Statements(cfg, s.failures, ip, at, reached)) == if enough then Next(cfg, counted, raise) else counted
  {
    var two := Statements(cfg, s.failures, ip, at, 2);
    var raise := Call(RaiseLock(ip, at.raised + cfg.lockFor), at.raised);
    AllStatements(cfg, s.failures, ip, at, reached);
    AfterCount(cfg, s, ip, at);
    AfterSnoc(cfg, s, two, raise);
  }

  lemma AllStatements(cfg: Config, failures: seq<Failure>, ip: Ip, at: Times, reached: nat)
    requires reached > 2
    ensures var enough := Count(failures + [Failure(ip, at.inserted)], ip, at.counted - cfg.window) >= cfg.threshold;
            var raise := Call(RaiseLock(ip, at.raised + cfg.lockFor), at.raised);
            Statements(cfg, failures, ip, at, reached)
            == Statements(cfg, failures, ip, at, 2) + if enough then [raise] else []
  {
  }

  /** The second list is the first without the failures before the bound: the same multiset of the others, in order. */
  ghost predicate Leaves(before: seq<Failure>, after: seq<Failure>, bound: int) {
    && (forall f :: multiset(after)[f] == if f.at >= bound then multiset(before)[f] else 0)
    && InOrder(after, before)
  }

  /** Every failure of the first list is one of the second, in the same order. */
  predicate InOrder(a: seq<Failure>, b: seq<Failure>) {
    if a == [] then true
    else if b == [] then false
    else if a[|a| - 1] == b[|b| - 1] then InOrder(a[..|a| - 1], b[..|b| - 1])
    else InOrder(a, b[..|b| - 1])
  }

  lemma {:induction false} SinceLeaves(failures: seq<Failure>, bound: int)
    ensures Leaves(failures, Since(failures, bound), bound)
  {
    if failures != [] {
      var init, last := failures[..|failures| - 1], failures[|failures| - 1];
      SinceLeaves(init, bound);
      assert failures == init + [last];
      var kept := Since(init, bound);
      assert last.at >= bound ==> (kept + [last])[..|kept|] == kept;
      if last.at < bound && kept != [] {
        SinceAbove(init, bound);
      }
    }
  }

  lemma {:induction false} SinceAbove(failures: seq<Failure>, bound: int)
    ensures forall i | 0 <= i < |Since(failures, bound)| :: Since(failures, bound)[i].at >= bound
  {
    if failures != [] {
      SinceAbove(failures[..|failures| - 1], bound);
    }
  }

  lemma KeptIsSmaller(m: map<Ip, int>, kept: map<Ip, int>)
    requires kept.Keys <= m.Keys
    ensures |kept| <= |m|
  {
    assert |m.Keys| == |kept.Keys| + |m.Keys - kept.Keys|;
  }

  lemma SinceIsShorter(failures: seq<Failure>, bound: int)
    ensures |Since(failures, bound)| <= |failures|
  {
  }

  // ---------- runs ----------

  /** A count reaches back as far as every sweep up to its own time has kept failures: it runs within a window's
      length of the clock reading it was given, or its bound lies in the future. */
  predicate WithinReach(cfg: Config, at: int, since: int) {
    since >= at - 2 * cfg.window || since > at
  }

  /** The clock never goes back, and no count is later than WithinReach allows. */
  ghost predicate Monotone(cfg: Config, calls: seq<Call>, from: int) {
    && (forall i | 0 <= i < |calls| :: from <= calls[i].at)
    && (forall i, j | 0 <= i < j < |calls| :: calls[i].at <= calls[j].at)
    && (forall i | 0 <= i < |calls| && calls[i].op.CountFailures? :: WithinReach(cfg, calls[i].at, calls[i].op.since))
  }

  /** The answers to all statements but the sweeps'. */
  function Answers(cfg: Config, s: State, calls: seq<Call>): seq<Answer>
    decreases |calls|
  {
    if calls == [] then []
    else (if IsSweep(calls[0].op) then [] else [Reply(s, calls[0])]) + Answers(cfg, Next(cfg, s, calls[0]), calls[1..])
  }

  function WithoutSweeps(calls: seq<Call>): seq<Call> {
    if calls == [] then []
    else (if IsSweep(calls[0].op) then [] else [calls[0]]) + WithoutSweeps(calls[1..])
  }

  // ---------- sweeping is unobservable ----------

  ghost predicate NotAfter(failures: seq<Failure>, t: int) {
    forall i | 0 <= i < |failures| :: failures[i].at <= t
  }

  /** From time t on, no statement can tell the two states apart. */
  ghost predicate Alike(cfg: Config, s: State, q: State, t: int) {
    && NotAfter(s.failures, t) && NotAfter(q.failures, t)
    && (forall ip, since | WithinReach(cfg, t, since) :: Count(s.failures, ip, since) == Count(q.failures, ip, since))
    && (forall ip :: LockedUntil(s.lockouts, ip, t) == LockedUntil(q.lockouts, ip, t))
  }

  lemma CountSnoc(failures: seq<Failure>, f: Failure, ip: Ip, since: int)
    ensures Count(failures + [f], ip, since) == Count(failures, ip, since) + if f.ip == ip && f.at >= since then 1 else 0
  {
    assert (failures + [f])[..|failures|] == failures;
  }

  lemma {:induction false} CountNone(failures: seq<Failure>, ip: Ip, since: int)
    requires forall i | 0 <= i < |failures| :: failures[i].at < since
    ensures Count(failures, ip, since) == 0
  {
    if failures != [] {
      CountNone(failures[..|failures| - 1], ip, since);
    }
  }

  lemma {:induction false} SinceKeepsCount(failures: seq<Failure>, bound: int, ip: Ip, since: int)
    requires bound <= since
    ensures Count(Since(failures, bound), ip, since) == Count(failures, ip, since)
  {
    if failures != [] {
      var init, last := failures[..|failures| - 1], failures[|failures| - 1];
      SinceKeepsCount(init, bound, ip, since);
      if last.at >= bound {
        CountSnoc(Since(init, bound), last, ip, since);
      }
    }
  }

  lemma {:induction false} SinceMembers(failures: seq<Failure>, bound: int, t: int)
    requires NotAfter(failures, t)
    ensures NotAfter(Since(failures, bound), t)
  {
    if failures != [] {
      SinceMembers(failures[..|failures| - 1], bound, t);
    }
  }

  lemma LaterAlike(cfg: Config, s: State, q: State, t: int, t': int)
    requires Alike(cfg, s, q, t) && t <= t'
    ensures Alike(cfg, s, q, t')
  {
    forall ip, since | WithinReach(cfg, t', since)
      ensures Count(s.failures, ip, since) == Count(q.failures, ip, since)
    {
      assert WithinReach(cfg, t, since);
    }
    forall ip
      ensures LockedUntil(s.lockouts, ip, t') == LockedUntil(q.lockouts, ip, t')
    {
      assert LockedUntil(s.lockouts, ip, t) == LockedUntil(q.lockouts, ip, t);
    }
  }

  /** Pruning at one time cannot touch a failure that a later count within reach still sees. */
  lemma PruningKeepsCount(cfg: Config, failures: seq<Failure>, at: int, t: int, ip: Ip, since: int)
    requires at <= t && WithinReach(cfg, t, since) && NotAfter(failures, t)
    ensures Count(Since(failures, at - 2 * cfg.window), ip, since) == Count(failures, ip, since)
  {
    if since >= t - 2 * cfg.window {
      SinceKeepsCount(failures, at - 2 * cfg.window, ip, since);
    } else {
      SinceMembers(failures, at - 2 * cfg.window, t);
      CountNone(failures, ip, since);
      CountNone(Since(failures, at - 2 * cfg.window), ip, since);
    }
  }

  /** Either statement of a sweep changes nothing that a later statement can see, whatever the window. */
  lemma SweepIsAlike(cfg: Config, s: State, c: Call)
    requires IsSweep(c.op) && NotAfter(s.failures, c.at)
    ensures Alike(cfg, s, Next(cfg, s, c), c.at)
  {
    if c.op.PruneFailures? {
      SinceMembers(s.failures, c.at - 2 * cfg.window, c.at);
      forall ip, since | WithinReach(cfg, c.at, since)
        ensures Count(s.failures, ip, since) == Count(Next(cfg, s, c).failures, ip, since)
      {
        PruningKeepsCount(cfg, s.failures, c.at, c.at, ip, since);
      }
    }
  }

  lemma AlikeTrans(cfg: Config, s: State, q: State, r: State, t: int)
    requires Alike(cfg, s, q, t) && Alike(cfg, q, r, t)
    ensures Alike(cfg, s, r, t)
  {
  }

  /** Alike states answer a statement alike and stay alike. */
  lemma CallKeepsAlike(cfg: Config, s: State, q: State, c: Call)
    requires Alike(cfg, s, q, c.at) && !IsSweep(c.op)
    requires c.op.CountFailures? ==> WithinReach(cfg, c.at, c.op.since)
    ensures Reply(s, c) == Reply(q, c)
    ensures Alike(cfg, Next(cfg, s, c), Next(cfg, q, c), c.at)
  {
    match c.op {
      case InsertFailure(ip) => InsertKeepsAlike(cfg, s, q, Failure(ip, c.at));
      case RaiseLock(ip, until) => RaiseKeepsAlike(s.lockouts, q.lockouts, ip, c.at, until);
      case DeleteLock(ip) => DeleteKeepsAlike(s.lockouts, q.lockouts, ip, c.at);
      case _ =>
    }
  }

  lemma InsertKeepsAlike(cfg: Config, s: State, q: State, f: Failure)
    requires Alike(cfg, s, q, f.at)
    ensures Alike(cfg, s.(failures := s.failures + [f]), q.(failures := q.failures + [f]), f.at)
  {
    forall ip, since | WithinReach(cfg, f.at, since)
      ensures Count(s.failures + [f], ip, since) == Count(q.failures + [f], ip, since)
    {
      CountSnoc(s.failures, f, ip, since);
      CountSnoc(q.failures, f, ip, since);
    }
  }

  lemma RaiseKeepsAlike(a: map<Ip, int>, b: map<Ip, int>, ip: Ip, t: int, until: int)
    requires forall x :: LockedUntil(a, x, t) == LockedUntil(b, x, t)
    ensures forall x :: LockedUntil(Raised(a, ip, until), x, t) == LockedUntil(Raised(b, ip, until), x, t)
  {
    forall x
      ensures LockedUntil(Raised(a, ip, until), x, t) == LockedUntil(Raised(b, ip, until), x, t)
    {
      assert LockedUntil(a, x, t) == LockedUntil(b, x, t);
    }
  }

  lemma DeleteKeepsAlike(a: map<Ip, int>, b: map<Ip, int>, ip: Ip, t: int)
    requires forall x :: LockedUntil(a, x, t) == LockedUntil(b, x, t)
    ensures forall x :: LockedUntil(a - {ip}, x, t) == LockedUntil(b - {ip}, x, t)
  {
    forall x
      ensures LockedUntil(a - {ip}, x, t) == LockedUntil(b - {ip}, x, t)
    {
      assert LockedUntil(a, x, t) == LockedUntil(b, x, t);
    }
  }

  lemma {:induction false} AlikeAnswers(cfg: Config, s: State, q: State, calls: seq<Call>, t: int)
    requires Alike(cfg, s, q, t) && Monotone(cfg, calls, t)
    ensures Answers(cfg, s, WithoutSweeps(calls)) == Answers(cfg, q, calls)
    decreases |calls|
  {
    if calls != [] {
      var c, rest := calls[0], calls[1..];
      LaterAlike(cfg, s, q, t, c.at);
      assert Monotone(cfg, rest, c.at);
      if IsSweep(c.op) {
        SweepIsAlike(cfg, q, c);
        AlikeTrans(cfg, s, q, Next(cfg, q, c), c.at);
        AlikeAnswers(cfg, s, Next(cfg, q, c), rest, c.at);
        assert WithoutSweeps(calls) == WithoutSweeps(rest);
      } else {
        CallKeepsAlike(cfg, s, q, c);
        AlikeAnswers(cfg, Next(cfg, s, c), Next(cfg, q, c), rest, c.at);
        assert ([c] + WithoutSweeps(rest))[1..] == WithoutSweeps(rest);
      }
    }
  }

  /** However the statements of RecordFailure, IsLocked, Unlock and SweepExpired interleave, and wherever one of them
      breaks off: under a monotone clock, leaving out every statement of every sweep changes no other answer. */
  lemma SweepingIsUnobservable(cfg: Config, calls: seq<Call>, t: int)
    requires Monotone(cfg, calls, t)
    ensures Answers(cfg, EMPTY, calls) == Answers(cfg, EMPTY, WithoutSweeps(calls))
  {
    AlikeAnswers(cfg, EMPTY, EMPTY, calls, t);
  }

  /** A count beyond that reach does notice: it misses the failure that the sweep before it pruned. */
  lemma LateCountNoticesSweep(cfg: Config, ip: Ip, at: int, since: int)
    requires since <= at && !WithinReach(cfg, at, since)
    ensures var insert, prune, count := Call(InsertFailure(ip), since), Call(PruneFailures, at),
                                        Call(CountFailures(ip, since), at);
            && Reply(After(cfg, EMPTY, [insert]), count) == Counted(1)
            && Reply(After(cfg, EMPTY, [insert] + [prune]), count) == Counted(0)
  {
    var insert, prune := Call(InsertFailure(ip), since), Call(PruneFailures, at);
    var f := Failure(ip, since);
    AfterOne(cfg, EMPTY, insert);
    AfterSnoc(cfg, EMPTY, [insert], prune);
    CountSnoc([], f, ip, since);
    assert [] + [f] == [f] && [f][..0] == [];
    assert Since([f], at - 2 * cfg.window) == [];
    assert After(cfg, EMPTY, [insert] + [prune]).failures == [];
  }

  // ---------- what the answers mean ----------

  /** How many failures of an address a history contains since a point in time. */
  function Failed(calls: seq<Call>, ip: Ip, since: int): nat {
    if calls == [] then 0
    else
      var last := calls[|calls| - 1];
      Failed(calls[..|calls| - 1], ip, since) + if last.op == InsertFailure(ip) && last.at >= since then 1 else 0
  }

  lemma OneCallCounts(cfg: Config, s: State, c: Call, t: int, ip: Ip, since: int)
    requires c.at <= t && WithinReach(cfg, t, since) && NotAfter(s.failures, t)
    ensures var s' := Next(cfg, s, c);
            && NotAfter(s'.failures, t)
            && Count(s'.failures, ip, since) == Count(s.failures, ip, since)
                 + if c.op == InsertFailure(ip) && c.at >= since then 1 else 0
  {
    match c.op {
      case InsertFailure(x) => CountSnoc(s.failures, Failure(x, c.at), ip, since);
      case PruneFailures =>
        SinceMembers(s.failures, c.at - 2 * cfg.window, t);
        PruningKeepsCount(cfg, s.failures, c.at, t, ip, since);
      case _ =>
    }
  }

  /** For every run, sweeps included: a count within reach finds the failures that the history contains. */
  lemma {:induction false} CountIsHistory(cfg: Config, calls: seq<Call>, t: int, ip: Ip, since: int)
    requires (forall i | 0 <= i < |calls| :: calls[i].at <= t) && WithinReach(cfg, t, since)
    ensures var s := After(cfg, EMPTY, calls);
            NotAfter(s.failures, t) && Count(s.failures, ip, since) == Failed(calls, ip, since)
  {
    if calls != [] {
      var n := |calls| - 1;
      CountIsHistory(cfg, calls[..n], t, ip, since);
      OneCallCounts(cfg, After(cfg, EMPTY, calls[..n]), calls[n], t, ip, since);
    }
  }

  /** What RecordFailure decides by: it goes on to the lock exactly on such an answer. */
  predicate Trips(cfg: Config, a: Answer) {
    a.Counted? && a.n >= cfg.threshold
  }

  /** Whatever ran before, between and after a RecordFailure's own insert, statements of other calls and of sweeps
      included: its count makes it go on to the lock exactly when the history so far holds the threshold number of the
      address's failures in the window. */
  lemma {:induction false} TripsOnThreshold(cfg: Config, calls: seq<Call>, ip: Ip, clock: int, at: int)
    requires (forall i | 0 <= i < |calls| :: calls[i].at <= at) && WithinReach(cfg, at, clock - cfg.window)
    ensures Trips(cfg, Reply(After(cfg, EMPTY, calls), Call(CountFailures(ip, clock - cfg.window), at)))
            <==> Failed(calls, ip, clock - cfg.window) >= cfg.threshold
  {
    CountIsHistory(cfg, calls, at, ip, clock - cfg.window);
  }

  /** After any run, an uninterrupted RecordFailure at one instant goes on to its third statement, the lock, exactly
      when the history, this failure included, holds the threshold number of the address's failures in the window. */
  lemma {:induction false} UninterruptedTrips(cfg: Config, calls: seq<Call>, ip: Ip, now: int)
    requires forall i | 0 <= i < |calls| :: calls[i].at <= now
    ensures var run := Statements(cfg, After(cfg, EMPTY, calls).failures, ip, Times(now, now, now), 3);
            |run| == 3 <==> Failed(calls + [run[0]], ip, now - cfg.window) >= cfg.threshold
  {
    var insert := Call(InsertFailure(ip), now);
    var run := Statements(cfg, After(cfg, EMPTY, calls).failures, ip, Times(now, now, now), 3);
    assert run[0] == insert;
    assert (calls + [insert])[..|calls|] == calls;
    CountWithNext(cfg, calls, ip, now);
  }

  lemma {:induction false} CountWithNext(cfg: Config, calls: seq<Call>, ip: Ip, now: int)
    requires forall i | 0 <= i < |calls| :: calls[i].at <= now
    ensures Count(After(cfg, EMPTY, calls).failures + [Failure(ip, now)], ip, now - cfg.window)
            == Failed(calls, ip, now - cfg.window) + if now >= now - cfg.window then 1 else 0
  {
    CountIsHistory(cfg, calls, now, ip, now - cfg.window);
    CountSnoc(After(cfg, EMPTY, calls).failures, Failure(ip, now), ip, now - cfg.window);
  }

  /** Once the lock is raised, the address stays locked until then at least, whatever else runs, unless it is
      unlocked: every read before that time says so. */
  lemma {:induction false} LockHolds(cfg: Config, s: State, ip: Ip, until: int, raisedAt: int, calls: seq<Call>, now: int)
    requires (forall i | 0 <= i < |calls| :: calls[i].at <= now) && now < until
    requires forall i | 0 <= i < |calls| :: calls[i].op != DeleteLock(ip)
    ensures var s' := After(cfg, Next(cfg, s, Call(RaiseLock(ip, until), raisedAt)), calls);
            && ip in s'.lockouts && s'.lockouts[ip] >= until
            && LockedUntil(s'.lockouts, ip, now).Some?
  {
    if calls != [] {
      var init := calls[..|calls| - 1];
      assert forall i | 0 <= i < |init| :: init[i] == calls[i];
      LockHolds(cfg, s, ip, until, raisedAt, init, now);
    }
  }
}
