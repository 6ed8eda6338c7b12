/** Overlapping VerifyDeep and VerifyIncremental calls, page by page, while Record transactions go on appending. */
module CheckpointProtocol {
  import opened Wrappers
  import opened ChainHash
  import opened ChainSpec
  import opened AuditService
  import opened VerifierAgreement
  import RP = RecordProtocol

  /** A call under way: the checkpoint it read (a full scan starts from the empty one), its loop variables, whether it
      has seen a short page, and how many rows there were when it read its last page. */
  datatype Verify = Verify(mode: Mode, read: Checkpoint, scan: Scan, short: bool, seen: nat)

  /** What a finished call returned, and how many rows there were at its last page. */
  datatype Outcome = Outcome(mode: Mode, report: Report, rows: nat)

  datatype State = State(log: RP.State, checkpoint: Checkpoint, calls: map<int, Verify>, outcomes: seq<Outcome>)

  const INIT := State(RP.INIT, EMPTY_CHECKPOINT, map[], [])

  datatype Step =
    | Record(step: RP.Step)
    | Start(call: int, mode: Mode)
    | Page(call: int, chunk: nat)
    | Finish(call: int, accepted: bool)
    | Cancel(call: int)

  predicate Enabled(s: State, step: Step) {
    match step
    case Record(r) => RP.Enabled(s.log, r)
    case Start(c, _) => c !in s.calls
    case Page(c, chunk) => c in s.calls && !s.calls[c].short && 0 < chunk
    case Finish(c, _) => c in s.calls && s.calls[c].short
    case Cancel(c) => c in s.calls
  }

  function Begin(c: Checkpoint, mode: Mode): Verify {
    var read := if mode == Deep then EMPTY_CHECKPOINT else c;
    Verify(mode, read, Resume(read), false, 0)
  }

  function ReadNext(h: RowHash, t: seq<Row>, v: Verify, chunk: nat): Verify {
    var page := PageAfter(t, v.scan.lastId, chunk);
    Verify(v.mode, v.read, ScanRows(h, v.mode, v.scan, page), |page| < chunk, |t|)
  }

  /** The checkpoint after a call, if the database accepts its UPDATE; a full scan makes none. */
  function AfterCall(c: Checkpoint, v: Verify, accepted: bool): Checkpoint {
    if v.mode == Incremental && accepted then Advance(c, v.read, v.scan) else c
  }

  function Apply(env: Env, s: State, step: Step): State
    requires Enabled(s, step)
  {
    match step
    case Record(r) => s.(log := RP.Apply(env, s.log, r))
    case Start(c, mode) => s.(calls := s.calls[c := Begin(s.checkpoint, mode)])
    case Page(c, chunk) => s.(calls := s.calls[c := ReadNext(RowHashOf(env), s.log.table, s.calls[c], chunk)])
    case Finish(c, accepted) =>
      var v := s.calls[c];
      s.(checkpoint := AfterCall(s.checkpoint, v, accepted), calls := s.calls - {c},
         outcomes := s.outcomes + [Outcome(v.mode, ReportOf(v.scan), v.seen)])
    case Cancel(c) => s.(calls := s.calls - {c})
  }

  // ---------- the invariant ----------

  /** The checkpoint names a row and its stored hash, or is the empty seed, and every row up to it is good. */
  ghost predicate Sound(h: RowHash, t: seq<Row>, c: Checkpoint) {
    NamesRow(t, c) && CountUpTo(t, c.lastVerifiedId) <= FirstBad(h, None, t)
  }

  /** It has also counted each row up to it once. */
  ghost predicate CheckpointOk(h: RowHash, t: seq<Row>, c: Checkpoint) {
    Sound(h, t, c) && c.rowsVerifiedTotal == CountUpTo(t, c.lastVerifiedId)
  }

  /** The loop variables are the fold over the rows at positions n to m. */
  ghost predicate HasScanned(h: RowHash, t: seq<Row>, v: Verify, n: nat, m: nat) {
    && n <= m <= |t|
    && v.scan == ScanRows(h, v.mode, Resume(v.read), t[n..m])
    && v.scan.lastId == (if m == n then v.read.lastVerifiedId else t[m - 1].id)
    && (v.short ==> v.seen == m)
  }

  ghost predicate CallOk(h: RowHash, t: seq<Row>, c: Checkpoint, v: Verify) {
    && Sound(h, t, v.read)
    && (if v.mode == Deep then v.read == EMPTY_CHECKPOINT else v.read.lastVerifiedId <= c.lastVerifiedId)
    && HasScanned(h, t, v, CountUpTo(t, v.read.lastVerifiedId), CountUpTo(t, v.scan.lastId))
  }

  /** The call reported, but for the row count, what a full scan of the table as of its last page reports; a full
      scan reports that row count as well. */
  ghost predicate OutcomeOk(h: RowHash, t: seq<Row>, o: Outcome) {
    && o.rows <= |t|
    && o.report == Verdict(h, None, 0, t[..o.rows]).(total := o.report.total)
    && (o.mode == Deep ==> o.report.total == o.rows)
  }

  ghost predicate Inv(env: Env, s: State) {
    && RP.Inv(env, s.log)
    && CheckpointOk(RowHashOf(env), s.log.table, s.checkpoint)
    && CallsOk(RowHashOf(env), s.log.table, s.checkpoint, s.calls)
    && OutcomesOk(RowHashOf(env), s.log.table, s.outcomes)
  }

  ghost predicate CallsOk(h: RowHash, t: seq<Row>, c: Checkpoint, calls: map<int, Verify>) {
    forall d | d in calls :: CallOk(h, t, c, calls[d])
  }

  ghost predicate OutcomesOk(h: RowHash, t: seq<Row>, outcomes: seq<Outcome>) {
    forall i | 0 <= i < |outcomes| :: OutcomeOk(h, t, outcomes[i])
  }

  // ---------- appends ----------

  /** An id that counts n rows, the last of them its own, counts them still. */
  ghost predicate Names(t: seq<Row>, id: int) {
    var n := CountUpTo(t, id);
    n <= |t| && if n == 0 then id == 0 else t[n - 1].id == id
  }

  lemma CountAfterAppend(t: seq<Row>, t': seq<Row>, id: int)
    requires IsTable(t) && IsTable(t') && RP.Appended(t, t') && Names(t, id)
    ensures CountUpTo(t', id) == CountUpTo(t, id)
  {
    if t' != t {
      var n := CountUpTo(t, id);
      CountSplits(t, id);
      assert forall i | 0 <= i < |t| :: t'[i] == t'[..|t|][i] == t[i];
      RowsAfterIsSuffix(t', n, id);
    }
  }

  lemma AppendKeepsRowBefore(t: seq<Row>, t': seq<Row>, m: nat)
    requires RP.Appended(t, t') && m <= |t|
    ensures |t| <= |t'| && PrevOf(None, t', m) == PrevOf(None, t, m) && t'[..m] == t[..m]
    ensures m > 0 ==> t'[m - 1] == t[m - 1]
  {
    assert t'[..|t|] == t;
    assert t'[..m] == t'[..|t|][..m];
    assert m > 0 ==> t'[m - 1] == t'[..|t|][m - 1];
  }

  /** A bad row stays the first bad row, and good rows stay good. */
  lemma AppendKeepsFirstBad(h: RowHash, t: seq<Row>, t': seq<Row>)
    requires RP.Appended(t, t')
    ensures FirstBad(h, None, t) <= FirstBad(h, None, t')
  {
    AppendKeepsRowBefore(t, t', |t|);
    assert t[..|t|] == t;
    FirstBadOfPrefix(h, None, t', |t|);
  }

  lemma AppendKeepsSound(h: RowHash, t: seq<Row>, t': seq<Row>, c: Checkpoint)
    requires IsTable(t) && IsTable(t') && RP.Appended(t, t') && Sound(h, t, c)
    ensures Sound(h, t', c) && CountUpTo(t', c.lastVerifiedId) == CountUpTo(t, c.lastVerifiedId)
  {
    CountAfterAppend(t, t', c.lastVerifiedId);
    AppendKeepsRowBefore(t, t', CountUpTo(t, c.lastVerifiedId));
    AppendKeepsFirstBad(h, t, t');
  }

  lemma AppendKeepsScanned(h: RowHash, t: seq<Row>, t': seq<Row>, v: Verify, n: nat, m: nat)
    requires RP.Appended(t, t') && HasScanned(h, t, v, n, m)
    ensures HasScanned(h, t', v, n, m)
  {
    AppendKeepsRowBefore(t, t', m);
    assert t'[n..m] == t'[..m][n..] == t[..m][n..] == t[n..m];
  }

  lemma AppendKeepsCall(h: RowHash, t: seq<Row>, t': seq<Row>, c: Checkpoint, v: Verify)
    requires IsTable(t) && IsTable(t') && RP.Appended(t, t') && CallOk(h, t, c, v)
    ensures CallOk(h, t', c, v)
  {
    AppendKeepsSound(h, t, t', v.read);
    CountAfterAppend(t, t', v.scan.lastId);
    AppendKeepsScanned(h, t, t', v, CountUpTo(t, v.read.lastVerifiedId), CountUpTo(t, v.scan.lastId));
  }

  lemma AppendKeepsOutcome(h: RowHash, t: seq<Row>, t': seq<Row>, o: Outcome)
    requires RP.Appended(t, t') && OutcomeOk(h, t, o)
    ensures OutcomeOk(h, t', o)
  {
    AppendKeepsRowBefore(t, t', o.rows);
  }

  // ---------- pages ----------

  /** A page continues the fold; a short one reaches the end of the table as it is now. */
  lemma PageKeepsCall(h: RowHash, t: seq<Row>, c: Checkpoint, v: Verify, chunk: nat)
    requires IsTable(t) && CallOk(h, t, c, v) && 0 < chunk
    ensures CallOk(h, t, c, ReadNext(h, t, v, chunk))
  {
    var k, short := ReadsStretch(h, t, v, chunk);
    PageExtendsScan(h, t, v, CountUpTo(t, v.read.lastVerifiedId), CountUpTo(t, v.scan.lastId), k, short);
  }

  /** A page is the next stretch of the table; a short one reaches its end. */
  lemma ReadsStretch(h: RowHash, t: seq<Row>, v: Verify, chunk: nat) returns (k: nat, short: bool)
    requires IsTable(t)
    ensures var m := CountUpTo(t, v.scan.lastId);
            && m <= k <= |t| && (short ==> k == |t|)
            && ReadNext(h, t, v, chunk) == Verify(v.mode, v.read, ScanRows(h, v.mode, v.scan, t[m..k]), short, |t|)
  {
    var m, page := CountUpTo(t, v.scan.lastId), PageAfter(t, v.scan.lastId, chunk);
    CountSplits(t, v.scan.lastId);
    k, short := m + |page|, |page| < chunk;
    assert page == t[m..k];
  }

  lemma PageExtendsScan(h: RowHash, t: seq<Row>, v: Verify, n: nat, m: nat, k: nat, short: bool)
    requires IsTable(t) && m == CountUpTo(t, v.scan.lastId) && HasScanned(h, t, v, n, m)
    requires m <= k <= |t| && (short ==> k == |t|)
    ensures var v' := Verify(v.mode, v.read, ScanRows(h, v.mode, v.scan, t[m..k]), short, |t|);
            HasScanned(h, t, v', n, k) && CountUpTo(t, v'.scan.lastId) == k
  {
    StretchExtendsScan(h, t, v, n, m, k, short);
    CountAfterStretch(h, t, v, m, k);
  }

  lemma StretchExtendsScan(h: RowHash, t: seq<Row>, v: Verify, n: nat, m: nat, k: nat, short: bool)
    requires HasScanned(h, t, v, n, m) && m <= k <= |t| && (short ==> k == |t|)
    ensures HasScanned(h, t, Verify(v.mode, v.read, ScanRows(h, v.mode, v.scan, t[m..k]), short, |t|), n, k)
  {
    ScanStretch(h, v.mode, Resume(v.read), t, n, m, k);
    LastOfStretch(h, v.mode, v.scan, t, m, k);
  }

  lemma CountAfterStretch(h: RowHash, t: seq<Row>, v: Verify, m: nat, k: nat)
    requires IsTable(t) && m == CountUpTo(t, v.scan.lastId) && m <= k <= |t|
    ensures CountUpTo(t, ScanRows(h, v.mode, v.scan, t[m..k]).lastId) == k
  {
    LastOfStretch(h, v.mode, v.scan, t, m, k);
    if m < k {
      CountAtRow(t, k);
    }
  }

  lemma LastOfStretch(h: RowHash, mode: Mode, s: Scan, t: seq<Row>, m: nat, k: nat)
    requires m <= k <= |t|
    ensures ScanRows(h, mode, s, t[m..k]).lastId == if m == k then s.lastId else t[k - 1].id
  {
    var rows := t[m..k];
    if m < k {
      assert rows[|rows| - 1] == t[k - 1];
    }
  }

  lemma ScanStretch(h: RowHash, mode: Mode, s: Scan, t: seq<Row>, n: nat, m: nat, k: nat)
    requires n <= m <= k <= |t|
    ensures ScanRows(h, mode, ScanRows(h, mode, s, t[n..m]), t[m..k]) == ScanRows(h, mode, s, t[n..k])
  {
    assert t[n..k] == t[n..m] + t[m..k];
    ScanConcat(h, mode, s, t[n..m], t[m..k]);
  }

  lemma CountAtRow(t: seq<Row>, m: nat)
    requires IsTable(t) && 0 < m <= |t|
    ensures CountUpTo(t, t[m - 1].id) == m
  {
    RowsAfterIsSuffix(t, m, t[m - 1].id);
  }

  // ---------- what a call has found ----------

  /** In either mode, the report so far is that of a full scan of the first m rows, but for the row count. */
  lemma ScannedReport(h: RowHash, t: seq<Row>, v: Verify, n: nat, m: nat)
    requires IsTable(t) && Sound(h, t, v.read) && n == CountUpTo(t, v.read.lastVerifiedId) && HasScanned(h, t, v, n, m)
    ensures ReportOf(v.scan) == Verdict(h, None, 0, t[..m]).(total := m - n)
    ensures v.mode == Deep || v.scan.firstBad == 0 ==> v.scan.prev == PrevOf(None, t, m)
  {
    SeedIsPredecessor(h, t, v.read, n);
    FoldOverStretch(h, v.mode, t, n, m, v.read.lastVerifiedId);
  }

  lemma FoldOverStretch(h: RowHash, mode: Mode, t: seq<Row>, n: nat, m: nat, base: int)
    requires IsTable(t) && n <= m <= |t| && n <= FirstBad(h, None, t)
    requires base == (if n == 0 then 0 else t[n - 1].id)
    ensures var s := ScanRows(h, mode, StartScan(PrevOf(None, t, n), base), t[n..m]);
            && ReportOf(s) == Verdict(h, None, 0, t[..m]).(total := m - n)
            && (mode == Deep || s.firstBad == 0 ==> s.prev == PrevOf(None, t, m))
  {
    StretchIsTable(t, n, m);
    FoldIsVerdict(h, mode, PrevOf(None, t, n), base, t[n..m]);
    StretchVerdict(h, t, n, m, base);
    PrevAcross(t, n, m);
  }

  lemma StretchIsTable(t: seq<Row>, n: nat, m: nat)
    requires IsTable(t) && n <= m <= |t|
    ensures IsTable(t[n..m])
  {
  }

  lemma PrevAcross(t: seq<Row>, n: nat, m: nat)
    requires n <= m <= |t|
    ensures PrevOf(PrevOf(None, t, n), t[n..m], m - n) == PrevOf(None, t, m)
  {
  }

  lemma StretchVerdict(h: RowHash, t: seq<Row>, n: nat, m: nat, base: int)
    requires n <= m <= |t| && n <= FirstBad(h, None, t) && base == (if n == 0 then 0 else t[n - 1].id)
    ensures Verdict(h, PrevOf(None, t, n), base, t[n..m]) == Verdict(h, None, 0, t[..m]).(total := m - n)
  {
    var u := t[..m];
    FirstBadOfPrefix(h, None, t, m);
    assert u[n..] == t[n..m] && PrevOf(None, u, n) == PrevOf(None, t, n);
    VerdictOfSuffix(h, u, n, base);
  }

  /** A scan that has found nothing wrong has covered good rows only. */
  lemma QuietScan(h: RowHash, t: seq<Row>, v: Verify, n: nat, m: nat)
    requires IsTable(t) && Sound(h, t, v.read) && n == CountUpTo(t, v.read.lastVerifiedId) && HasScanned(h, t, v, n, m)
    requires v.scan.firstBad == 0
    ensures m <= FirstBad(h, None, t) && v.scan.total == m - n && v.scan.lastGood == v.scan.lastId
    ensures v.scan.prev == PrevOf(None, t, m)
  {
    ScannedReport(h, t, v, n, m);
    FirstBadOfPrefix(h, None, t, m);
    StretchIsTable(t, 0, m);
    assert t[0..m] == t[..m];
    ZeroMeansIntact(h, None, 0, t[..m]);
    IntactLastGood(h, t[..m]);
  }

  lemma IntactLastGood(h: RowHash, t: seq<Row>)
    requires FirstBad(h, None, t) == |t|
    ensures Verdict(h, None, 0, t).lastGoodId == if t == [] then 0 else t[|t| - 1].id
  {
  }

  // ---------- the conditional update ----------

  /** The UPDATE does nothing, or moves the checkpoint forward by exactly the rows this call verified; after a mismatch
      it does nothing. */
  lemma FinishKeepsCheckpoint(h: RowHash, t: seq<Row>, c: Checkpoint, v: Verify)
    requires IsTable(t) && CheckpointOk(h, t, c) && CallOk(h, t, c, v) && v.mode == Incremental
    ensures var c' := Advance(c, v.read, v.scan);
            && CheckpointOk(h, t, c') && (c' == c || c.lastVerifiedId < c'.lastVerifiedId)
            && (v.scan.firstBad != 0 ==> c' == c)
  {
    if Advance(c, v.read, v.scan) != c {
      var n, m := CountUpTo(t, v.read.lastVerifiedId), CountUpTo(t, v.scan.lastId);
      QuietScan(h, t, v, n, m);
      assert CountUpTo(t, c.lastVerifiedId) == n;
    }
  }

  /** A call that found nothing wrong, whose checkpoint nobody has moved on and whose UPDATE the database accepts, moves
      the checkpoint to the last row it has read, adding the rows in between; any other call leaves it where it is. */
  lemma FinishAdvances(env: Env, s: State, c: int, accepted: bool)
    requires Inv(env, s) && Enabled(s, Finish(c, accepted))
    ensures var v, c' := s.calls[c], Apply(env, s, Finish(c, accepted)).checkpoint;
            if accepted && v.mode == Incremental && v.scan.firstBad == 0 && v.read.lastVerifiedId < v.scan.lastId
               && s.checkpoint.lastVerifiedId == v.read.lastVerifiedId
            then c'.lastVerifiedId == v.scan.lastId
                 && c'.rowsVerifiedTotal == s.checkpoint.rowsVerifiedTotal + v.scan.total
                 && NamesRow(s.log.table, c')
            else c' == s.checkpoint
  {
    var h, t, v := RowHashOf(env), s.log.table, s.calls[c];
    assert CallOk(h, t, s.checkpoint, v);
    var n, m := CountUpTo(t, v.read.lastVerifiedId), CountUpTo(t, v.scan.lastId);
    if v.mode == Incremental {
      FinishKeepsCheckpoint(h, t, s.checkpoint, v);
      if v.scan.firstBad == 0 {
        QuietScan(h, t, v, n, m);
      }
    }
  }

  lemma OutcomeIsExact(h: RowHash, t: seq<Row>, c: Checkpoint, v: Verify)
    requires IsTable(t) && CallOk(h, t, c, v) && v.short
    ensures OutcomeOk(h, t, Outcome(v.mode, ReportOf(v.scan), v.seen))
  {
    var n, m := CountUpTo(t, v.read.lastVerifiedId), CountUpTo(t, v.scan.lastId);
    ScannedReport(h, t, v, n, m);
    if v.mode == Deep {
      CountFromStart(t);
    }
  }

  lemma CountFromStart(t: seq<Row>)
    requires IsTable(t)
    ensures CountUpTo(t, 0) == 0
  {
    RowsAfterIsSuffix(t, 0, 0);
  }

  lemma LaterCheckpointKeepsCall(h: RowHash, t: seq<Row>, c: Checkpoint, c': Checkpoint, v: Verify)
    requires CallOk(h, t, c, v) && c.lastVerifiedId <= c'.lastVerifiedId
    ensures CallOk(h, t, c', v)
  {
  }

  // ---------- steps and runs ----------

  lemma StepKeepsInv(env: Env, s: State, step: Step)
    requires Inv(env, s) && Enabled(s, step)
    ensures Inv(env, Apply(env, s, step))
    ensures s.checkpoint.lastVerifiedId <= Apply(env, s, step).checkpoint.lastVerifiedId
  {
    match step {
      case Record(r) => RecordKeepsInv(env, s, r);
      case Start(c, mode) => StartKeepsInv(env, s, c, mode);
      case Page(c, chunk) => PageKeepsInv(env, s, c, chunk);
      case Finish(c, accepted) => FinishKeepsInv(env, s, c, accepted);
      case Cancel(c) => CancelKeepsInv(env, s, c);
    }
  }

  lemma RecordKeepsInv(env: Env, s: State, r: RP.Step)
    requires Inv(env, s) && RP.Enabled(s.log, r)
    ensures Inv(env, Apply(env, s, Record(r)))
  {
    var h, t, s' := RowHashOf(env), s.log.table, Apply(env, s, Record(r));
    RP.StepKeepsInv(env, s.log, r);
    var t' := s'.log.table;
    AppendKeepsSound(h, t, t', s.checkpoint);
    forall c | c in s'.calls
      ensures CallOk(h, t', s'.checkpoint, s'.calls[c])
    {
      AppendKeepsCall(h, t, t', s.checkpoint, s.calls[c]);
    }
    forall i | 0 <= i < |s'.outcomes|
      ensures OutcomeOk(h, t', s'.outcomes[i])
    {
      AppendKeepsOutcome(h, t, t', s.outcomes[i]);
    }
  }

  lemma CallReplaced(h: RowHash, t: seq<Row>, c: Checkpoint, calls: map<int, Verify>, d: int, v: Verify)
    requires CallsOk(h, t, c, calls) && CallOk(h, t, c, v)
    ensures CallsOk(h, t, c, calls[d := v])
  {
    var calls' := calls[d := v];
    forall e | e in calls'
      ensures CallOk(h, t, c, calls'[e])
    {
      assert e != d ==> e in calls;
    }
  }

  lemma BeginIsOk(h: RowHash, t: seq<Row>, c: Checkpoint, mode: Mode)
    requires IsTable(t) && Sound(h, t, c)
    ensures CallOk(h, t, c, Begin(c, mode))
  {
    CountFromStart(t);
    var read := Begin(c, mode).read;
    var n := CountUpTo(t, read.lastVerifiedId);
    assert t[n..n] == [];
  }

  lemma StartKeepsInv(env: Env, s: State, c: int, mode: Mode)
    requires Inv(env, s) && Enabled(s, Start(c, mode))
    ensures Inv(env, Apply(env, s, Start(c, mode)))
  {
    BeginIsOk(RowHashOf(env), s.log.table, s.checkpoint, mode);
    CallReplaced(RowHashOf(env), s.log.table, s.checkpoint, s.calls, c, Begin(s.checkpoint, mode));
  }

  lemma PageKeepsInv(env: Env, s: State, c: int, chunk: nat)
    requires Inv(env, s) && Enabled(s, Page(c, chunk))
    ensures Inv(env, Apply(env, s, Page(c, chunk)))
  {
    PageKeepsCall(RowHashOf(env), s.log.table, s.checkpoint, s.calls[c], chunk);
    CallReplaced(RowHashOf(env), s.log.table, s.checkpoint, s.calls, c,
                 ReadNext(RowHashOf(env), s.log.table, s.calls[c], chunk));
  }

  lemma CancelKeepsInv(env: Env, s: State, c: int)
    requires Inv(env, s) && Enabled(s, Cancel(c))
    ensures Inv(env, Apply(env, s, Cancel(c)))
  {
  }

  lemma FinishKeepsInv(env: Env, s: State, c: int, accepted: bool)
    requires Inv(env, s) && Enabled(s, Finish(c, accepted))
    ensures var s' := Apply(env, s, Finish(c, accepted));
            Inv(env, s') && s.checkpoint.lastVerifiedId <= s'.checkpoint.lastVerifiedId
  {
    var h, t, v := RowHashOf(env), s.log.table, s.calls[c];
    if v.mode == Incremental {
      FinishKeepsCheckpoint(h, t, s.checkpoint, v);
    }
    OutcomeIsExact(h, t, s.checkpoint, v);
    CallRemoved(env, s, c, AfterCall(s.checkpoint, v, accepted), Outcome(v.mode, ReportOf(v.scan), v.seen));
  }

  /** Removing a call, moving the checkpoint forward soundly, and noting an exact outcome keeps everything else. */
  lemma CallRemoved(env: Env, s: State, c: int, c': Checkpoint, o: Outcome)
    requires Inv(env, s) && s.checkpoint.lastVerifiedId <= c'.lastVerifiedId
    requires CheckpointOk(RowHashOf(env), s.log.table, c') && OutcomeOk(RowHashOf(env), s.log.table, o)
    ensures Inv(env, State(s.log, c', s.calls - {c}, s.outcomes + [o]))
  {
    forall d | d in s.calls
      ensures CallOk(RowHashOf(env), s.log.table, c', s.calls[d])
    {
      LaterCheckpointKeepsCall(RowHashOf(env), s.log.table, s.checkpoint, c', s.calls[d]);
    }
  }

  /** A call that nothing interrupts, on one page, does what the VerifyIncremental and VerifyDeep methods do. */
  lemma UninterruptedCall(env: Env, s: State, c: int, mode: Mode, chunk: nat, accepted: bool)
    requires IsTable(s.log.table) && c !in s.calls && |s.log.table| < chunk
    ensures var h, t := RowHashOf(env), s.log.table;
            var read := if mode == Deep then EMPTY_CHECKPOINT else s.checkpoint;
            var scan := ScanRows(h, mode, Resume(read), RowsAfter(t, read.lastVerifiedId));
            var s1 := Apply(env, s, Start(c, mode));
            && Enabled(s1, Page(c, chunk))
            && var s2 := Apply(env, s1, Page(c, chunk));
            && Enabled(s2, Finish(c, accepted))
            && var s3 := Apply(env, s2, Finish(c, accepted));
            && s3.log == s.log && s3.calls == s.calls
            && s3.outcomes == s.outcomes + [Outcome(mode, ReportOf(scan), |t|)]
            && s3.checkpoint == if mode == Incremental && accepted then Advance(read, read, scan) else s.checkpoint
  {
    WholeInOnePage(RowHashOf(env), s.log.table, Begin(s.checkpoint, mode), chunk);
    var s2 := Apply(env, Apply(env, s, Start(c, mode)), Page(c, chunk));
    assert s2.calls - {c} == s.calls;
  }

  lemma WholeInOnePage(h: RowHash, t: seq<Row>, v: Verify, chunk: nat)
    requires IsTable(t) && |t| < chunk
    ensures ReadNext(h, t, v, chunk) == Verify(v.mode, v.read, ScanRows(h, v.mode, v.scan, RowsAfter(t, v.scan.lastId)), true, |t|)
  {
    CountSplits(t, v.scan.lastId);
  }

  ghost predicate IsRun(env: Env, states: seq<State>, steps: seq<Step>) {
    && |states| == |steps| + 1
    && forall i | 0 <= i < |steps| :: Enabled(states[i], steps[i]) && states[i + 1] == Apply(env, states[i], steps[i])
  }

  lemma StepOfRun(env: Env, states: seq<State>, steps: seq<Step>, n: nat)
    requires IsRun(env, states, steps) && n < |steps|
    ensures Enabled(states[n], steps[n]) && states[n + 1] == Apply(env, states[n], steps[n])
  {
  }

  /** Over every interleaving of Record transactions with overlapping calls, whatever rows fail verification: the
      checkpoint only moves forward. */
  lemma {:induction false} RunKeepsInv(env: Env, states: seq<State>, steps: seq<Step>, m: nat, n: nat)
    requires IsRun(env, states, steps) && states[0] == INIT && m <= n < |states|
    ensures Inv(env, states[n]) && states[m].checkpoint.lastVerifiedId <= states[n].checkpoint.lastVerifiedId
    decreases n
  {
    if n > 0 {
      RunKeepsInv(env, states, steps, if m < n then m else n - 1, n - 1);
      StepOfRun(env, states, steps, n - 1);
      StepKeepsInv(env, states[n - 1], steps[n - 1]);
    }
  }

  /** In every state of every such run: the checkpoint names a real row and its stored hash (or is the seed), every row
      up to it is good, and none of them was counted twice. Every finished call, full or incremental, reported exactly
      what a full scan of the table as of its last page reports (a full scan with that row count). */
  lemma CheckpointsAreSound(env: Env, states: seq<State>, steps: seq<Step>, n: nat)
    requires IsRun(env, states, steps) && states[0] == INIT && n < |states|
    ensures var h, t, c := RowHashOf(env), states[n].log.table, states[n].checkpoint;
            var k := CountUpTo(t, c.lastVerifiedId);
            && NamesRow(t, c) && k <= |t| && c.rowsVerifiedTotal == k
            && (forall i | 0 <= i < k :: Good(h, None, t, i))
            && (forall i | 0 <= i < |states[n].outcomes| :: OutcomeOk(h, t, states[n].outcomes[i]))
  {
    RunKeepsInv(env, states, steps, n, n);
  }

  /** An alarm, also one not yet reported, always names the smallest bad row of the table. */
  lemma AlarmsAreTrue(env: Env, states: seq<State>, steps: seq<Step>, n: nat, c: int)
    requires IsRun(env, states, steps) && states[0] == INIT && n < |states| && c in states[n].calls
    ensures var id := states[n].calls[c].scan.firstBad;
            id != 0 ==> id == Verdict(RowHashOf(env), None, 0, states[n].log.table).firstBadId
  {
    RunKeepsInv(env, states, steps, n, n);
    var h, t, v := RowHashOf(env), states[n].log.table, states[n].calls[c];
    assert CallOk(h, t, states[n].checkpoint, v);
    var m := CountUpTo(t, v.scan.lastId);
    ScannedReport(h, t, v, CountUpTo(t, v.read.lastVerifiedId), m);
    CutOffVerdict(h, None, t, m);
  }

  /** If every committed entry's address survives the database, no call ever raises an alarm. */
  lemma NoAlarms(env: Env, states: seq<State>, steps: seq<Step>, n: nat)
    requires IsRun(env, states, steps) && states[0] == INIT && n < |states|
    requires forall i | 0 <= i < |states[n].log.log| :: AddressStable(env, states[n].log.log[i].entry)
    ensures forall i | 0 <= i < |states[n].outcomes| :: states[n].outcomes[i].report.firstBadId == 0
  {
    RunKeepsInv(env, states, steps, n, n);
    var h, t := RowHashOf(env), states[n].log.table;
    RP.SerialIsChain(env, t, states[n].log.log);
    assert Intact(h, None, t);
    forall i | 0 <= i < |states[n].outcomes|
      ensures states[n].outcomes[i].report.firstBadId == 0
    {
      var o := states[n].outcomes[i];
      assert OutcomeOk(h, t, o);
      CutOffVerdict(h, None, t, o.rows);
    }
  }
}
