/** Records, sweeps and purges in one protocol: every recorded row is chained to the newest row that is still there. */
module ChainedArchive {
  import opened Wrappers
  import opened ChainHash
  import opened ChainSpec
  import opened AuditService
  import opened VerifierAgreement
  import opened Archive
  import opened PurgedReaders

  // ---------- the protocol ----------

  /** The position behind the newest row that satisfies p, or 0. */
  function Newest(p: Row -> bool, log: seq<Row>): (a: nat)
    ensures a <= |log| && (a > 0 ==> p(log[a - 1]))
    ensures forall i | a <= i < |log| :: !p(log[i])
  {
    if log == [] then 0 else if p(log[|log| - 1]) then |log| else Newest(p, log[..|log| - 1])
  }

  /** What is remembered about a recorded row: its entry, the version that wrote it, the clock, and the position behind the row it was chained to
      (0 is none). */
  datatype Recorded = Recorded(entry: Entry, version: Version, now: int, parent: nat)

  datatype History = History(arch: State, recs: seq<Recorded>)

  const BEGIN := History(INIT, [])

  /** A Record that commits, or a step of the archiver. */
  datatype Move =
    | Record(id: int, version: Version, now: int, entry: Entry)
    | Archive(step: Step)

  /** The row is chained to the newest row that is there. */
  function StepOf(env: Env, s: State, m: Move): Step
    requires m.Record? ==> m.entry.payload.Some?
  {
    match m
    case Record(id, v, now, e) => Append(NextRow(env, v, s.table, id, now, e))
    case Archive(step) => step
  }

  predicate Allowed(env: Env, s: History, m: Move) {
    && (m.Record? ==> m.entry.payload.Some?)
    && (m.Archive? ==> !m.step.Append?)
    && Enabled(s.arch, StepOf(env, s.arch, m))
  }

  function Do(env: Env, s: History, m: Move): History
    requires Allowed(env, s, m)
  {
    History(Apply(s.arch, StepOf(env, s.arch, m)),
            if m.Record? then s.recs + [Recorded(m.entry, m.version, m.now, Newest(Kept(s.arch.runs), s.arch.log))] else s.recs)
  }

  ghost predicate IsChainedRun(env: Env, states: seq<History>, moves: seq<Move>) {
    && |states| == |moves| + 1 && states[0] == BEGIN
    && forall i | 0 <= i < |moves| :: Allowed(env, states[i], moves[i]) && states[i + 1] == Do(env, states[i], moves[i])
  }

  // ---------- the invariant ----------

  /** Row j is what Record stored on top of the row before its parent position, and everything in between has been
      purged. */
  ghost predicate ParentOk(env: Env, log: seq<Row>, runs: seq<Run>, rec: Recorded, j: nat)
    requires j < |log|
  {
    && rec.parent <= j && rec.entry.payload.Some?
    && log[j] == StoredRow(env, rec.version, log[j].id, PrevOf(None, log, rec.parent), rec.now, rec.entry)
    && forall i | rec.parent <= i < j :: IsPurged(runs, log[i].id)
  }

  ghost predicate ParentsOk(env: Env, log: seq<Row>, runs: seq<Run>, recs: seq<Recorded>) {
    |recs| == |log| && forall j | 0 <= j < |log| :: ParentOk(env, log, runs, recs[j], j)
  }

  ghost predicate HistoryOk(env: Env, s: History) {
    Inv(s.arch) && ParentsOk(env, s.arch.log, s.arch.runs, s.recs)
  }

  lemma {:induction false} NewestIsLast(p: Row -> bool, log: seq<Row>)
    ensures PrevOf(None, Filter(p, log), |Filter(p, log)|) == PrevOf(None, log, Newest(p, log))
  {
    if log != [] && !p(log[|log| - 1]) {
      NewestIsLast(p, log[..|log| - 1]);
    }
  }

  lemma PurgedStays(s: State, step: Step, id: int)
    requires Enabled(s, step) && IsPurged(s.runs, id)
    ensures IsPurged(Apply(s, step).runs, id)
  {
    match step {
      case PurgeOne => MarkingPurges(s.runs, s.phase.pending[0], id);
      case InsertRun(now) =>
        var runs' := Apply(s, step).runs;
        var k :| 0 <= k < |s.runs| && s.runs[k].purged && Covers(s.runs[k], id);
        assert runs'[k].purged && Covers(runs'[k], id);
      case _ => OthersKeepRuns(s, step);
    }
  }

  /** More purging does no harm to what a row was chained to. */
  lemma ParentStays(env: Env, s: State, step: Step, rec: Recorded, j: nat)
    requires Enabled(s, step) && !step.Append? && j < |s.log| && ParentOk(env, s.log, s.runs, rec, j)
    ensures Apply(s, step).log == s.log && ParentOk(env, s.log, Apply(s, step).runs, rec, j)
  {
    forall i | rec.parent <= i < j
      ensures IsPurged(Apply(s, step).runs, s.log[i].id)
    {
      PurgedStays(s, step, s.log[i].id);
    }
  }

  lemma ParentOfOlder(env: Env, log: seq<Row>, runs: seq<Run>, row: Row, rec: Recorded, j: nat)
    requires j < |log| && ParentOk(env, log, runs, rec, j)
    ensures ParentOk(env, log + [row], runs, rec, j)
  {
    assert PrevOf(None, log + [row], rec.parent) == PrevOf(None, log, rec.parent);
  }

  lemma ParentOfNew(env: Env, s: State, v: Version, id: int, now: int, e: Entry)
    requires Inv(s) && e.payload.Some?
    ensures ParentOk(env, s.log + [NextRow(env, v, s.table, id, now, e)], s.runs,
                     Recorded(e, v, now, Newest(Kept(s.runs), s.log)), |s.log|)
  {
    NewestIsLast(Kept(s.runs), s.log);
    var row := NextRow(env, v, s.table, id, now, e);
    assert row == StoredRow(env, v, row.id, PrevOf(None, s.log, Newest(Kept(s.runs), s.log)), now, e);
    ParentOfRow(env, s.log, s.runs, row, Recorded(e, v, now, Newest(Kept(s.runs), s.log)));
  }

  lemma ParentOfRow(env: Env, log: seq<Row>, runs: seq<Run>, row: Row, rec: Recorded)
    requires rec.parent == Newest(Kept(runs), log) && rec.entry.payload.Some?
    requires row == StoredRow(env, rec.version, row.id, PrevOf(None, log, rec.parent), rec.now, rec.entry)
    ensures ParentOk(env, log + [row], runs, rec, |log|)
  {
    var log', p := log + [row], Kept(runs);
    assert PrevOf(None, log', rec.parent) == PrevOf(None, log, rec.parent);
    forall i | rec.parent <= i < |log|
      ensures IsPurged(runs, log'[i].id)
    {
      assert !p(log[i]);
    }
  }

  lemma RecordKeepsParents(env: Env, s: History, m: Move)
    requires HistoryOk(env, s) && Allowed(env, s, m) && m.Record?
    ensures ParentsOk(env, Do(env, s, m).arch.log, s.arch.runs, Do(env, s, m).recs)
  {
    var log, recs := Do(env, s, m).arch.log, Do(env, s, m).recs;
    forall j | 0 <= j < |log|
      ensures ParentOk(env, log, s.arch.runs, recs[j], j)
    {
      if j < |s.arch.log| {
        ParentOfOlder(env, s.arch.log, s.arch.runs, log[|s.arch.log|], s.recs[j], j);
      } else {
        ParentOfNew(env, s.arch, m.version, m.id, m.now, m.entry);
      }
    }
  }

  lemma StepKeepsHistory(env: Env, s: History, m: Move)
    requires HistoryOk(env, s) && Allowed(env, s, m)
    ensures HistoryOk(env, Do(env, s, m))
  {
    StepKeepsInv(s.arch, StepOf(env, s.arch, m));
    if m.Record? {
      RecordKeepsParents(env, s, m);
    } else {
      OthersKeepParents(env, s, m.step);
    }
  }

  lemma OthersKeepParents(env: Env, s: History, step: Step)
    requires HistoryOk(env, s) && Enabled(s.arch, step) && !step.Append?
    ensures ParentsOk(env, Apply(s.arch, step).log, Apply(s.arch, step).runs, s.recs)
  {
    OthersKeepLog(s.arch, step);
    forall j | 0 <= j < |s.arch.log|
      ensures ParentOk(env, s.arch.log, Apply(s.arch, step).runs, s.recs[j], j)
    {
      ParentStays(env, s.arch, step, s.recs[j], j);
    }
  }

  lemma OthersKeepLog(s: State, step: Step)
    requires Enabled(s, step) && !step.Append?
    ensures Apply(s, step).log == s.log
  {
  }

  lemma {:induction false} RunKeepsHistory(env: Env, states: seq<History>, moves: seq<Move>, n: nat)
    requires IsChainedRun(env, states, moves) && n < |states|
    ensures HistoryOk(env, states[n])
  {
    if n > 0 {
      RunKeepsHistory(env, states, moves, n - 1);
      assert Allowed(env, states[n - 1], moves[n - 1]) && states[n - 1 + 1] == Do(env, states[n - 1], moves[n - 1]);
      StepKeepsHistory(env, states[n - 1], moves[n - 1]);
    }
  }

  // ---------- what a reader finds ----------

  /** Every row's parent comes before it. */
  predicate Bounded(recs: seq<Recorded>, n: nat) {
    |recs| == n && forall j | 0 <= j < n :: recs[j].parent <= j && recs[j].entry.payload.Some?
  }

  /** The bytes that Record hashed for row j. */
  function BytesOf(env: Env, log: seq<Row>, recs: seq<Recorded>, j: nat): Bytes
    requires Bounded(recs, |log|) && j < |log|
  {
    RecordMaterial(env, recs[j].version, PrevOf(None, log, recs[j].parent), recs[j].now, recs[j].entry)
  }

  /** The bytes a reader hashes for row j over the row before position a. */
  function BytesOver(env: Env, log: seq<Row>, a: nat, j: nat): Bytes
    requires a <= |log| && j < |log|
  {
    RowMaterial(env, PrevOf(None, log, a), log[j])
  }

  /** A reader that comes from the row before position a hashes for row j the bytes that Record hashed. */
  predicate Fits(env: Env, log: seq<Row>, recs: seq<Recorded>, a: nat, j: nat)
    requires Bounded(recs, |log|) && a <= |log| && j < |log|
  {
    BytesOver(env, log, a, j) == BytesOf(env, log, recs, j)
  }

  /** Fits, for fixed rows. */
  function FitOf(env: Env, log: seq<Row>, recs: seq<Recorded>): (nat, nat) -> bool {
    (a: nat, j: nat) => Bounded(recs, |log|) && a <= |log| && j < |log| && Fits(env, log, recs, a, j)
  }

  /** Reading the retained rows from k on, when the last one seen lies before position a: the position of the first that
      does not fit, or |log|, and the a it was read over. */
  function FirstMisfit(p: Row -> bool, log: seq<Row>, fit: (nat, nat) -> bool, k: nat, a: nat): (o: (nat, nat))
    requires a <= k <= |log|
    ensures k <= o.0 <= |log| && o.1 <= o.0
    ensures o.0 < |log| ==> p(log[o.0]) && !fit(o.1, o.0)
    decreases |log| - k
  {
    if k == |log| then (k, a)
    else if !p(log[k]) then FirstMisfit(p, log, fit, k + 1, a)
    else if fit(a, k) then FirstMisfit(p, log, fit, k + 1, k + 1)
    else (k, a)
  }

  /** The reader answers 0, or names the misfit it has found, unless the bytes it hashes there collide with those that
      Record hashed. */
  ghost predicate Answers(env: Env, log: seq<Row>, recs: seq<Recorded>, o: (nat, nat), id: int)
    requires Bounded(recs, |log|) && o.1 <= o.0 <= |log|
  {
    if o.0 == |log| then id == 0
    else id == log[o.0].id || Collision(env, BytesOver(env, log, o.1, o.0), BytesOf(env, log, recs, o.0))
  }

  lemma RecsAreBounded(env: Env, log: seq<Row>, runs: seq<Run>, recs: seq<Recorded>)
    requires ParentsOk(env, log, runs, recs)
    ensures Bounded(recs, |log|)
  {
    forall j | 0 <= j < |log|
      ensures recs[j].parent <= j && recs[j].entry.payload.Some?
    {
      assert ParentOk(env, log, runs, recs[j], j);
    }
  }

  lemma HashIsOfBytes(env: Env, log: seq<Row>, runs: seq<Run>, recs: seq<Recorded>, j: nat)
    requires ParentsOk(env, log, runs, recs) && Bounded(recs, |log|) && j < |log|
    ensures log[j].chainHash == env.sum(BytesOf(env, log, recs, j))
    ensures log[j].chainPrev == PrevOf(None, log, recs[j].parent)
  {
    assert ParentOk(env, log, runs, recs[j], j);
  }

  /** A good first row hands its stored hash on to the rest. */
  lemma VerdictOfRest(h: RowHash, seed: Option<Bytes>, base: int, x: Row, rest: seq<Row>)
    ensures var rows := [x] + rest;
            if h(seed, x) == x.chainHash
            then Verdict(h, seed, base, rows).firstBadId == Verdict(h, Some(x.chainHash), base, rest).firstBadId
            else Verdict(h, seed, base, rows).firstBadId == x.id
  {
    var rows := [x] + rest;
    assert rows[1..] == rest && PrevOf(seed, rows, 1) == Some(x.chainHash);
    if h(seed, x) == x.chainHash {
      assert Good(h, seed, rows, 0);
      FirstBadOfSuffix(h, seed, rows, 1);
      var k := FirstBad(h, Some(x.chainHash), rest);
      assert k < |rest| ==> rows[k + 1] == rest[k];
    } else {
      FirstBadUnique(h, seed, rows, 0);
    }
  }

  /** Reading a row that fits leads on to the next. */
  lemma ReadsOn(env: Env, log: seq<Row>, runs: seq<Run>, recs: seq<Recorded>, p: Row -> bool, a: nat, k: nat, base: int)
    requires ParentsOk(env, log, runs, recs) && Bounded(recs, |log|)
    requires a <= k < |log| && p(log[k]) && Fits(env, log, recs, a, k)
    ensures Verdict(RowHashOf(env), PrevOf(None, log, a), base, Filter(p, log[k..])).firstBadId
            == Verdict(RowHashOf(env), PrevOf(None, log, k + 1), base, Filter(p, log[k + 1..])).firstBadId
  {
    RetainedHead(p, log, k);
    HashIsOfBytes(env, log, runs, recs, k);
    VerdictOfRest(RowHashOf(env), PrevOf(None, log, a), base, log[k], Filter(p, log[k + 1..]));
  }

  /** Reading a row that does not fit ends there, or the bytes collide. */
  lemma StopsAtMisfit(env: Env, log: seq<Row>, runs: seq<Run>, recs: seq<Recorded>, p: Row -> bool, a: nat, k: nat, base: int)
    requires ParentsOk(env, log, runs, recs) && Bounded(recs, |log|)
    requires a <= k < |log| && p(log[k]) && !Fits(env, log, recs, a, k)
    ensures var id := Verdict(RowHashOf(env), PrevOf(None, log, a), base, Filter(p, log[k..])).firstBadId;
            id == log[k].id || Collision(env, BytesOver(env, log, a, k), BytesOf(env, log, recs, k))
  {
    RetainedHead(p, log, k);
    HashIsOfBytes(env, log, runs, recs, k);
    VerdictOfRest(RowHashOf(env), PrevOf(None, log, a), base, log[k], Filter(p, log[k + 1..]));
  }

  lemma {:induction false} StretchAnswer(env: Env, log: seq<Row>, runs: seq<Run>, recs: seq<Recorded>, p: Row -> bool,
                                         k: nat, a: nat, base: int)
    requires ParentsOk(env, log, runs, recs) && Bounded(recs, |log|) && a <= k <= |log|
    ensures Answers(env, log, recs, FirstMisfit(p, log, FitOf(env, log, recs), k, a),
                    Verdict(RowHashOf(env), PrevOf(None, log, a), base, Filter(p, log[k..])).firstBadId)
    decreases |log| - k
  {
    if k == |log| {
      assert log[k..] == [];
    } else if !p(log[k]) {
      DroppedHead(p, log, k);
      StretchAnswer(env, log, runs, recs, p, k + 1, a, base);
    } else if Fits(env, log, recs, a, k) {
      ReadsOn(env, log, runs, recs, p, a, k, base);
      StretchAnswer(env, log, runs, recs, p, k + 1, k + 1, base);
    } else {
      StopsAtMisfit(env, log, runs, recs, p, a, k, base);
    }
  }

  lemma DroppedHead(p: Row -> bool, log: seq<Row>, k: nat)
    requires k < |log| && !p(log[k])
    ensures Filter(p, log[k..]) == Filter(p, log[k + 1..])
  {
    assert log[k..] == [log[k]] + log[k + 1..];
    FilterConcat(p, [log[k]], log[k + 1..]);
    FilterDrops(p, [log[k]]);
  }

  // ---------- what a misfit is ----------

  /** Over a predecessor with the stored hash it was recorded with, a row fits exactly when its address survives the
      database; with an address that survives, it fits exactly over such predecessors. */
  lemma FitsExactly(env: Env, log: seq<Row>, runs: seq<Run>, recs: seq<Recorded>, a: nat, j: nat)
    requires ParentsOk(env, log, runs, recs) && Bounded(recs, |log|) && a <= |log| && j < |log|
    ensures var same := DerefStr(PrevOf(None, log, a)) == DerefStr(PrevOf(None, log, recs[j].parent));
            && (same ==> (Fits(env, log, recs, a, j) <==> AddressStable(env, recs[j].entry)))
            && (AddressStable(env, recs[j].entry) ==> (Fits(env, log, recs, a, j) <==> same))
  {
    var rec, q := recs[j], PrevOf(None, log, recs[j].parent);
    assert ParentOk(env, log, runs, rec, j);
    WriteReadAgreement(env, rec.version, log[j].id, q, rec.now, rec.entry);
    PredecessorBinds(env, PrevOf(None, log, a), q, log[j]);
  }

  /** The retained row at position j was recorded on top of a row that has been purged since. */
  predicate Orphaned(p: Row -> bool, log: seq<Row>, recs: seq<Recorded>, j: nat)
    requires j < |log| == |recs|
  {
    p(log[j]) && 0 < recs[j].parent <= |log| && !p(log[recs[j].parent - 1])
  }

  /** The last row that satisfies p before position k lies right before position a. */
  ghost predicate LastSeen(p: Row -> bool, log: seq<Row>, a: nat, k: nat) {
    a <= k <= |log| && (a > 0 ==> p(log[a - 1])) && forall i | a <= i < k :: !p(log[i])
  }

  /** Nothing between row j and the row it was chained to is retained. */
  ghost predicate Around(p: Row -> bool, log: seq<Row>, a: nat, j: nat)
    requires j < |log|
  {
    a <= j && forall i | a <= i < j :: !p(log[i])
  }

  lemma ParentIsAround(env: Env, log: seq<Row>, runs: seq<Run>, recs: seq<Recorded>, j: nat)
    requires ParentsOk(env, log, runs, recs) && j < |log|
    ensures Around(Kept(runs), log, recs[j].parent, j)
  {
    assert ParentOk(env, log, runs, recs[j], j);
  }

  /** Read right after the retained row before it, a row comes over another row than its own predecessor exactly when it
      is an orphan. */
  lemma OrphanExactly(p: Row -> bool, log: seq<Row>, recs: seq<Recorded>, a: nat, k: nat)
    requires |recs| == |log| && k < |log| && p(log[k]) && LastSeen(p, log, a, k) && Around(p, log, recs[k].parent, k)
    ensures recs[k].parent != a <==> Orphaned(p, log, recs, k)
  {
  }

  /** So a retained row that is no orphan fits exactly when its address survives the database; and one whose address
      survives fits exactly when it is no orphan, or the row now before it has the stored hash of the purged one. */
  lemma MisfitExactly(env: Env, log: seq<Row>, runs: seq<Run>, recs: seq<Recorded>, a: nat, k: nat)
    requires ParentsOk(env, log, runs, recs) && Bounded(recs, |log|)
    requires k < |log| && Kept(runs)(log[k]) && LastSeen(Kept(runs), log, a, k)
    ensures !Orphaned(Kept(runs), log, recs, k) ==> (Fits(env, log, recs, a, k) <==> AddressStable(env, recs[k].entry))
    ensures AddressStable(env, recs[k].entry) ==>
              (Fits(env, log, recs, a, k) <==>
               !Orphaned(Kept(runs), log, recs, k)
               || DerefStr(PrevOf(None, log, a)) == DerefStr(PrevOf(None, log, recs[k].parent)))
  {
    ParentIsAround(env, log, runs, recs, k);
    OrphanExactly(Kept(runs), log, recs, a, k);
    FitsExactly(env, log, runs, recs, a, k);
  }

  /** The position a reader of the retained rows has reached is always right behind the last one before it. */
  lemma {:induction false} MisfitIsAfterLastSeen(p: Row -> bool, log: seq<Row>, fit: (nat, nat) -> bool, k: nat, a: nat)
    requires LastSeen(p, log, a, k)
    ensures var o := FirstMisfit(p, log, fit, k, a); LastSeen(p, log, o.1, o.0)
    decreases |log| - k
  {
    if k < |log| {
      if !p(log[k]) {
        MisfitIsAfterLastSeen(p, log, fit, k + 1, a);
      } else if fit(a, k) {
        MisfitIsAfterLastSeen(p, log, fit, k + 1, k + 1);
      }
    }
  }

  // ---------- the three readers, in every run ----------

  /** In every interleaving of records, sweeps and purges, whatever was recorded: VerifyDeep answers 0 exactly when every
      retained row fits behind the retained row before it, and otherwise names the first that does not, unless the bytes
      collide. A chain that starts anew after everything was purged is accepted. */
  lemma DeepInEveryRun(env: Env, states: seq<History>, moves: seq<Move>, n: nat)
    requires IsChainedRun(env, states, moves) && n < |states|
    ensures var s := states[n];
            var p, log, recs := Kept(s.arch.runs), s.arch.log, s.recs;
            && Bounded(recs, |log|)
            && var o := FirstMisfit(p, log, FitOf(env, log, recs), 0, 0);
            && LastSeen(p, log, o.1, o.0)
            && Answers(env, log, recs, o, Verdict(RowHashOf(env), None, 0, s.arch.table).firstBadId)
  {
    RunKeepsHistory(env, states, moves, n);
    var s := states[n];
    RecsAreBounded(env, s.arch.log, s.arch.runs, s.recs);
    assert s.arch.log[0..] == s.arch.log;
    StretchAnswer(env, s.arch.log, s.arch.runs, s.recs, Kept(s.arch.runs), 0, 0, 0);
    MisfitIsAfterLastSeen(Kept(s.arch.runs), s.arch.log, FitOf(env, s.arch.log, s.recs), 0, 0);
  }

  /** No retained row was recorded on top of a row that has been purged since. */
  ghost predicate NoOrphans(s: History)
    requires |s.recs| == |s.arch.log|
  {
    forall j | 0 <= j < |s.arch.log| :: !Orphaned(Kept(s.arch.runs), s.arch.log, s.recs, j)
  }

  /** While every recorded address survives the database, VerifyDeep names an orphan if it names anything, and answers 0
      when there is none. */
  lemma DeepNamesOrphans(env: Env, states: seq<History>, moves: seq<Move>, n: nat)
    requires IsChainedRun(env, states, moves) && n < |states|
    requires forall j | 0 <= j < |states[n].recs| :: AddressStable(env, states[n].recs[j].entry)
    ensures var s := states[n];
            var id := Verdict(RowHashOf(env), None, 0, s.arch.table).firstBadId;
            && Bounded(s.recs, |s.arch.log|)
            && (NoOrphans(s) ==> id == 0)
            && var o := FirstMisfit(Kept(s.arch.runs), s.arch.log, FitOf(env, s.arch.log, s.recs), 0, 0).0;
            (o < |s.arch.log| ==> Orphaned(Kept(s.arch.runs), s.arch.log, s.recs, o))
  {
    RunKeepsHistory(env, states, moves, n);
    DeepInEveryRun(env, states, moves, n);
    var s := states[n];
    var o := FirstMisfit(Kept(s.arch.runs), s.arch.log, FitOf(env, s.arch.log, s.recs), 0, 0);
    if o.0 < |s.arch.log| {
      MisfitExactly(env, s.arch.log, s.arch.runs, s.recs, o.1, o.0);
    }
  }

  /** VerifyIncremental from a checkpoint that names a row of the history, retained or not, counts that row as the last
      one seen. */
  lemma IncrementalAnswer(env: Env, states: seq<History>, moves: seq<Move>, n: nat, c: Checkpoint)
    requires IsChainedRun(env, states, moves) && n < |states| && NamesRow(states[n].arch.log, c)
    ensures var s := states[n];
            var k := CountUpTo(s.arch.log, c.lastVerifiedId);
            var rest := RowsAfter(s.arch.table, c.lastVerifiedId);
            && Bounded(s.recs, |s.arch.log|)
            && Answers(env, s.arch.log, s.recs, FirstMisfit(Kept(s.arch.runs), s.arch.log, FitOf(env, s.arch.log, s.recs), k, k),
                       Verdict(RowHashOf(env), SeedOf(c), c.lastVerifiedId, rest).firstBadId)
  {
    RunKeepsHistory(env, states, moves, n);
    var s := states[n];
    RecsAreBounded(env, s.arch.log, s.arch.runs, s.recs);
    AnswerFrom(env, s.arch.log, s.arch.runs, s.recs, Kept(s.arch.runs), c);
  }

  lemma AnswerFrom(env: Env, log: seq<Row>, runs: seq<Run>, recs: seq<Recorded>, p: Row -> bool, c: Checkpoint)
    requires IsTable(log) && ParentsOk(env, log, runs, recs) && Bounded(recs, |log|) && NamesRow(log, c)
    ensures var k := CountUpTo(log, c.lastVerifiedId);
            Answers(env, log, recs, FirstMisfit(p, log, FitOf(env, log, recs), k, k),
                    Verdict(RowHashOf(env), SeedOf(c), c.lastVerifiedId, RowsAfter(Filter(p, log), c.lastVerifiedId)).firstBadId)
  {
    var k := CountUpTo(log, c.lastVerifiedId);
    SeedOfNamed(env, log, runs, recs, c, k);
    RowsAfterPurge(log, p, c.lastVerifiedId);
    StretchAnswer(env, log, runs, recs, p, k, k, c.lastVerifiedId);
  }

  lemma SeedOfNamed(env: Env, log: seq<Row>, runs: seq<Run>, recs: seq<Recorded>, c: Checkpoint, k: nat)
    requires ParentsOk(env, log, runs, recs) && Bounded(recs, |log|)
    requires NamesRow(log, c) && k == CountUpTo(log, c.lastVerifiedId)
    ensures SeedOf(c) == PrevOf(None, log, k)
  {
    if k > 0 {
      HashIsOfBytes(env, log, runs, recs, k - 1);
    }
  }

  lemma RetainedFrom(log: seq<Row>, runs: seq<Run>, id: int)
    requires IsTable(log) && forall r | r in log && IsPurged(runs, r.id) :: r.id <= id
    ensures CountUpTo(log, id) <= |log| && forall i | CountUpTo(log, id) <= i < |log| :: Kept(runs)(log[i])
  {
    CountSplits(log, id);
    forall i | CountUpTo(log, id) <= i < |log|
      ensures Kept(runs)(log[i])
    {
      assert log[i] in log;
    }
  }

  /** Behind a retained row, the next one was recorded on top of it. */
  lemma NextFits(env: Env, log: seq<Row>, runs: seq<Run>, recs: seq<Recorded>, k: nat)
    requires ParentsOk(env, log, runs, recs) && Bounded(recs, |log|) && 0 < k < |log|
    requires Kept(runs)(log[k - 1]) && AddressStable(env, recs[k].entry)
    ensures Fits(env, log, recs, k, k)
  {
    ParentIsAround(env, log, runs, recs, k);
    FitsExactly(env, log, runs, recs, k, k);
  }

  lemma {:induction false} NoMisfitFrom(p: Row -> bool, log: seq<Row>, fit: (nat, nat) -> bool, k: nat)
    requires k <= |log| && forall i | k <= i < |log| :: p(log[i]) && fit(i, i)
    ensures FirstMisfit(p, log, fit, k, k).0 == |log|
    decreases |log| - k
  {
    if k < |log| {
      assert p(log[k]) && fit(k, k);
      NoMisfitFrom(p, log, fit, k + 1);
    }
  }

  /** From a checkpoint at or above everything purged, while the addresses above it survive the database:
      VerifyIncremental in every run answers 0, except that it can name the next row if that was recorded after the
      checkpoint's own row had been purged. */
  lemma IncrementalInEveryRun(env: Env, states: seq<History>, moves: seq<Move>, n: nat, c: Checkpoint)
    requires IsChainedRun(env, states, moves) && n < |states| && NamesRow(states[n].arch.log, c)
    requires forall r | r in states[n].arch.log && IsPurged(states[n].arch.runs, r.id) :: r.id <= c.lastVerifiedId
    requires forall j | CountUpTo(states[n].arch.log, c.lastVerifiedId) <= j < |states[n].recs| ::
      AddressStable(env, states[n].recs[j].entry)
    ensures var s := states[n];
            var log, k := s.arch.log, CountUpTo(s.arch.log, c.lastVerifiedId);
            var id := Verdict(RowHashOf(env), SeedOf(c), c.lastVerifiedId, RowsAfter(s.arch.table, c.lastVerifiedId)).firstBadId;
            && Bounded(s.recs, |log|)
            && (k == |log| || Fits(env, log, s.recs, k, k) ==> id == 0)
            && (k < |log| && !Fits(env, log, s.recs, k, k) ==>
                 && s.recs[k].parent < k
                 && (id == log[k].id || Collision(env, BytesOver(env, log, k, k), BytesOf(env, log, s.recs, k))))
  {
    RunKeepsHistory(env, states, moves, n);
    var s := states[n];
    IncrementalAnswer(env, states, moves, n, c);
    RetainedFrom(s.arch.log, s.arch.runs, c.lastVerifiedId);
    MisfitFrom(env, s.arch.log, s.arch.runs, s.recs, CountUpTo(s.arch.log, c.lastVerifiedId));
  }

  lemma MisfitFrom(env: Env, log: seq<Row>, runs: seq<Run>, recs: seq<Recorded>, k: nat)
    requires ParentsOk(env, log, runs, recs) && Bounded(recs, |log|) && k <= |log|
    requires forall i | k <= i < |log| :: Kept(runs)(log[i])
    requires forall i | k <= i < |log| :: AddressStable(env, recs[i].entry)
    ensures if k == |log| || Fits(env, log, recs, k, k) then FirstMisfit(Kept(runs), log, FitOf(env, log, recs), k, k).0 == |log|
            else FirstMisfit(Kept(runs), log, FitOf(env, log, recs), k, k) == (k, k) && recs[k].parent < k
  {
    var fit := FitOf(env, log, recs);
    forall i | k < i < |log|
      ensures Kept(runs)(log[i]) && fit(i, i)
    {
      FitBehind(env, log, runs, recs, i);
    }
    if k < |log| {
      MisfitHasOlderParent(env, log, runs, recs, k);
      ReadFrom(Kept(runs), log, fit, k);
    }
  }

  lemma FitBehind(env: Env, log: seq<Row>, runs: seq<Run>, recs: seq<Recorded>, i: nat)
    requires ParentsOk(env, log, runs, recs) && Bounded(recs, |log|) && 0 < i < |log|
    requires Kept(runs)(log[i - 1]) && AddressStable(env, recs[i].entry)
    ensures FitOf(env, log, recs)(i, i)
  {
    NextFits(env, log, runs, recs, i);
  }

  lemma MisfitHasOlderParent(env: Env, log: seq<Row>, runs: seq<Run>, recs: seq<Recorded>, k: nat)
    requires ParentsOk(env, log, runs, recs) && Bounded(recs, |log|) && k < |log| && AddressStable(env, recs[k].entry)
    ensures FitOf(env, log, recs)(k, k) <==> Fits(env, log, recs, k, k)
    ensures !Fits(env, log, recs, k, k) ==> recs[k].parent < k
  {
    FitsExactly(env, log, runs, recs, k, k);
  }

  lemma ReadFrom(p: Row -> bool, log: seq<Row>, fit: (nat, nat) -> bool, k: nat)
    requires k < |log| && p(log[k]) && forall i | k < i < |log| :: p(log[i]) && fit(i, i)
    ensures if fit(k, k) then FirstMisfit(p, log, fit, k, k).0 == |log| else FirstMisfit(p, log, fit, k, k) == (k, k)
  {
    NoMisfitFrom(p, log, fit, k + 1);
  }

  /** What VerifyTail finds: it starts at its anchor row with the predecessor that row was recorded with, or, with too few
      rows left, at the front. */
  function TailMisfit(env: Env, p: Row -> bool, log: seq<Row>, recs: seq<Recorded>, tail: int): (o: (nat, nat))
    requires Bounded(recs, |log|)
    ensures o.1 <= o.0 <= |log|
  {
    if |Filter(p, log)| < TailLength(tail) then FirstMisfit(p, log, FitOf(env, log, recs), 0, 0)
    else
      var k := TailStart(p, log, TailLength(tail));
      FirstMisfit(p, log, FitOf(env, log, recs), k, recs[k].parent)
  }

  lemma TailInEveryRun(env: Env, states: seq<History>, moves: seq<Move>, n: nat, tail: int)
    requires IsChainedRun(env, states, moves) && n < |states|
    ensures var s := states[n];
            && Bounded(s.recs, |s.arch.log|)
            && Answers(env, s.arch.log, s.recs, TailMisfit(env, Kept(s.arch.runs), s.arch.log, s.recs, tail),
                       TailAnswer(RowHashOf(env), s.arch.table, tail))
  {
    RunKeepsHistory(env, states, moves, n);
    var s := states[n];
    RecsAreBounded(env, s.arch.log, s.arch.runs, s.recs);
    TailOfRows(env, s.arch.log, s.arch.runs, s.recs, Kept(s.arch.runs), tail);
  }

  lemma TailOfRows(env: Env, log: seq<Row>, runs: seq<Run>, recs: seq<Recorded>, p: Row -> bool, tail: int)
    requires ParentsOk(env, log, runs, recs) && Bounded(recs, |log|)
    ensures Answers(env, log, recs, TailMisfit(env, p, log, recs, tail), TailAnswer(RowHashOf(env), Filter(p, log), tail))
  {
    if |Filter(p, log)| < TailLength(tail) {
      TailOfFew(env, log, runs, recs, p, tail);
    } else {
      TailOfMany(env, log, runs, recs, p, tail);
    }
  }

  lemma TailOfFew(env: Env, log: seq<Row>, runs: seq<Run>, recs: seq<Recorded>, p: Row -> bool, tail: int)
    requires ParentsOk(env, log, runs, recs) && Bounded(recs, |log|) && |Filter(p, log)| < TailLength(tail)
    ensures Answers(env, log, recs, TailMisfit(env, p, log, recs, tail), TailAnswer(RowHashOf(env), Filter(p, log), tail))
  {
    FewRows(env, p, log, recs, tail);
    assert log[0..] == log;
    StretchAnswer(env, log, runs, recs, p, 0, 0, 0);
    ShortAnswer(RowHashOf(env), Filter(p, log), tail);
  }

  lemma TailOfMany(env: Env, log: seq<Row>, runs: seq<Run>, recs: seq<Recorded>, p: Row -> bool, tail: int)
    requires ParentsOk(env, log, runs, recs) && Bounded(recs, |log|) && |Filter(p, log)| >= TailLength(tail)
    ensures Answers(env, log, recs, TailMisfit(env, p, log, recs, tail), TailAnswer(RowHashOf(env), Filter(p, log), tail))
  {
    var k := ManyRows(env, p, log, recs, tail);
    AnchoredTail(env, log, runs, recs, p, tail, k);
  }

  lemma AnchoredTail(env: Env, log: seq<Row>, runs: seq<Run>, recs: seq<Recorded>, p: Row -> bool, tail: int, k: nat)
    requires ParentsOk(env, log, runs, recs) && Bounded(recs, |log|)
    requires k < |log| && p(log[k]) && |Filter(p, log[k..])| == TailLength(tail)
    ensures Answers(env, log, recs, FirstMisfit(p, log, FitOf(env, log, recs), k, recs[k].parent),
                    TailAnswer(RowHashOf(env), Filter(p, log), tail))
  {
    TailFromAnchor(RowHashOf(env), log, p, tail, k);
    HashIsOfBytes(env, log, runs, recs, k);
    StretchAnswer(env, log, runs, recs, p, k, recs[k].parent, 0);
  }

  lemma FewRows(env: Env, p: Row -> bool, log: seq<Row>, recs: seq<Recorded>, tail: int)
    requires Bounded(recs, |log|) && |Filter(p, log)| < TailLength(tail)
    ensures TailMisfit(env, p, log, recs, tail) == FirstMisfit(p, log, FitOf(env, log, recs), 0, 0)
  {
  }

  lemma ManyRows(env: Env, p: Row -> bool, log: seq<Row>, recs: seq<Recorded>, tail: int) returns (k: nat)
    requires Bounded(recs, |log|) && |Filter(p, log)| >= TailLength(tail)
    ensures k < |log| && p(log[k]) && |Filter(p, log[k..])| == TailLength(tail)
    ensures TailMisfit(env, p, log, recs, tail) == FirstMisfit(p, log, FitOf(env, log, recs), k, recs[k].parent)
  {
    k := TailStart(p, log, TailLength(tail));
  }
}
