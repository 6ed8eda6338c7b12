/** Archiving and purging audit rows: window selection, serialisation, and deletion, statement by statement. */
module Archive {
  import opened Wrappers
  import opened ChainHash
  import opened ChainSpec

  // ---------- rows under a condition ----------

  function Filter(p: Row -> bool, rows: seq<Row>): seq<Row> {
    if rows == [] then []
    else
      var init := Filter(p, rows[..|rows| - 1]);
      if p(rows[|rows| - 1]) then init + [rows[|rows| - 1]] else init
  }

  lemma FilterMembers(p: Row -> bool, rows: seq<Row>, r: Row)
    ensures r in Filter(p, rows) <==> r in rows && p(r)
  {
    if rows != [] {
      var init := rows[..|rows| - 1];
      FilterMembers(p, init, r);
      assert rows == init + [rows[|rows| - 1]];
    }
  }

  lemma FilterAgree(p: Row -> bool, q: Row -> bool, rows: seq<Row>)
    requires forall r | r in rows :: p(r) == q(r)
    ensures Filter(p, rows) == Filter(q, rows)
  {
  }

  lemma {:induction false} FilterTwice(p: Row -> bool, q: Row -> bool, rows: seq<Row>)
    ensures Filter(p, Filter(q, rows)) == Filter((r: Row) => p(r) && q(r), rows)
  {
    if rows != [] {
      var init, last := rows[..|rows| - 1], rows[|rows| - 1];
      FilterTwice(p, q, init);
      if q(last) {
        assert (Filter(q, init) + [last])[..|Filter(q, init)|] == Filter(q, init);
      }
    }
  }

  lemma FilterSnoc(p: Row -> bool, rows: seq<Row>, r: Row)
    ensures Filter(p, rows + [r]) == Filter(p, rows) + if p(r) then [r] else []
  {
    assert (rows + [r])[..|rows|] == rows;
  }

  lemma {:induction false} FilterConcat(p: Row -> bool, a: seq<Row>, b: seq<Row>)
    ensures Filter(p, a + b) == Filter(p, a) + Filter(p, b)
  {
    if b == [] {
      assert a + b == a;
    } else {
      assert (a + b)[..|a + b| - 1] == a + b[..|b| - 1];
      FilterConcat(p, a, b[..|b| - 1]);
    }
  }

  lemma {:induction false} FilterIsTable(p: Row -> bool, rows: seq<Row>)
    requires IsTable(rows)
    ensures IsTable(Filter(p, rows)) && |Filter(p, rows)| <= |rows|
    ensures rows != [] ==> forall r | r in Filter(p, rows) :: r.id <= rows[|rows| - 1].id
  {
    if rows != [] {
      var init := rows[..|rows| - 1];
      FilterIsTable(p, init);
      forall r | r in Filter(p, rows)
        ensures r.id <= rows[|rows| - 1].id
      {
        FilterMembers(p, rows, r);
      }
      forall r | r in Filter(p, init)
        ensures r.id < rows[|rows| - 1].id
      {
        FilterMembers(p, init, r);
      }
    }
  }

  lemma {:induction false} FilterAll(p: Row -> bool, rows: seq<Row>)
    ensures |Filter(p, rows)| == |rows| <==> forall r | r in rows :: p(r)
    ensures |Filter(p, rows)| <= |rows|
  {
    if rows != [] {
      FilterAll(p, rows[..|rows| - 1]);
      assert rows == rows[..|rows| - 1] + [rows[|rows| - 1]];
    }
  }

  // ---------- archive runs ----------

  /** The columns that one NDJSON line carries; hex and JSON rendering are left out. */
  datatype Line = Line(
    id: int, event: string, actorType: string, ip: Option<string>, platformId: Uuid, partnerId: Option<Uuid>,
    tenantId: Option<Uuid>, targetType: Option<string>, targetId: Option<string>, payload: string,
    chainPrev: Bytes, chainHash: Bytes, occurredAt: int)

  function LineOf(r: Row): Line {
    Line(r.id, r.event, r.actorType, r.ip, r.platformId, r.partnerId, r.tenantId, r.targetType, r.targetId,
         r.payload, DerefStr(r.chainPrev), r.chainHash, r.occurredAt)
  }

  function Lines(rows: seq<Row>): (lines: seq<Line>)
    ensures |lines| == |rows| && forall i | 0 <= i < |rows| :: lines[i] == LineOf(rows[i])
  {
    seq(|rows|, i requires 0 <= i < |rows| => LineOf(rows[i]))
  }

  /** Where an archive object is put. */
  datatype Key = Key(day: int, from: int, to: int)

  /** One row of audit_archive_runs; `cutoff` is the retention cutoff its window was cut with. */
  datatype Run = Run(from: int, to: int, rowCount: nat, key: Key, archivedAt: int, purged: bool, cutoff: int)

  function Between(lo: int, hi: int): Row -> bool {
    (r: Row) => lo <= r.id <= hi
  }

  function Beyond(lo: int, hi: int): Row -> bool {
    (r: Row) => !(lo <= r.id <= hi)
  }

  function Due(after: int, cutoff: int): Row -> bool {
    (r: Row) => r.id > after && r.occurredAt < cutoff
  }

  function OlderThan(cutoff: int): Row -> bool {
    (r: Row) => r.occurredAt < cutoff
  }

  /** `COALESCE(max(to_audit_id), 0)`. */
  function MaxArchived(runs: seq<Run>): int {
    if runs == [] then 0
    else
      var m := MaxArchived(runs[..|runs| - 1]);
      if runs[|runs| - 1].to > m then runs[|runs| - 1].to else m
  }

  /** The rows a sweep counts: beyond every archived id, and older than the cutoff. */
  function DueRows(t: seq<Row>, runs: seq<Run>, cutoff: int): seq<Row> {
    Filter(Due(MaxArchived(runs), cutoff), t)
  }

  predicate Covers(run: Run, id: int) {
    run.from <= id <= run.to
  }

  predicate IsPurged(runs: seq<Run>, id: int) {
    exists i | 0 <= i < |runs| :: runs[i].purged && Covers(runs[i], id)
  }

  function Kept(runs: seq<Run>): Row -> bool {
    (r: Row) => !IsPurged(runs, r.id)
  }

  /** The first runs, at most `limit`, from position i on that are old enough and not yet purged. */
  function Pending(runs: seq<Run>, i: nat, before: int, limit: nat): (p: seq<nat>)
    requires i <= |runs|
    ensures |p| <= limit && forall k | 0 <= k < |p| :: i <= p[k] < |runs|
    ensures forall k | 0 <= k < |p| :: runs[p[k]].archivedAt < before && !runs[p[k]].purged
    ensures forall j, k | 0 <= j < k < |p| :: p[j] < p[k]
    decreases |runs| - i
  {
    if i == |runs| || limit == 0 then []
    else if runs[i].archivedAt < before && !runs[i].purged then [i] + Pending(runs, i + 1, before, limit - 1)
    else Pending(runs, i + 1, before, limit)
  }

  const PURGE_BATCH := 16

  /** The pending runs of one purge; its query's result set breaks off after `listed` of them, which nothing checks. */
  function Listed(runs: seq<Run>, before: int, listed: nat): (p: seq<nat>)
    ensures forall k | 0 <= k < |p| :: p[k] < |runs|
  {
    var p := Pending(runs, 0, before, PURGE_BATCH);
    if listed < |p| then p[..listed] else p
  }

  /** They are exactly the first that are old enough and unpurged: one that is left out comes after `limit` others. */
  lemma {:induction false} PendingExactly(runs: seq<Run>, i: nat, before: int, limit: nat, k: nat)
    requires i <= k < |runs| && runs[k].archivedAt < before && !runs[k].purged
    ensures var p := Pending(runs, i, before, limit);
            k in p || (|p| == limit && forall m | 0 <= m < |p| :: p[m] < k)
    decreases |runs| - i
  {
    if limit > 0 && i < k {
      if runs[i].archivedAt < before && !runs[i].purged {
        PendingExactly(runs, i + 1, before, limit - 1, k);
        assert Pending(runs, i, before, limit)[1..] == Pending(runs, i + 1, before, limit - 1);
      } else {
        PendingExactly(runs, i + 1, before, limit, k);
      }
    }
  }

  /** One purge lists the first 16 of them, or as many as its result set delivers. */
  lemma ListedExactly(runs: seq<Run>, before: int, listed: nat, k: nat)
    requires k < |runs|
    ensures var p := Listed(runs, before, listed);
            && |p| <= 16 && |p| <= listed
            && (forall m, n | 0 <= m < n < |p| :: p[m] < p[n])
            && (k in p ==> runs[k].archivedAt < before && !runs[k].purged)
            && (runs[k].archivedAt < before && !runs[k].purged && k !in p ==>
                 (|p| == 16 || |p| == listed) && forall m | 0 <= m < |p| :: p[m] < k)
  {
    var p := Pending(runs, 0, before, PURGE_BATCH);
    if runs[k].archivedAt < before && !runs[k].purged {
      PendingExactly(runs, 0, before, PURGE_BATCH, k);
      if k in p && listed < |p| {
        var m :| 0 <= m < |p| && p[m] == k;
        assert m < listed ==> p[..listed][m] == k;
      }
    }
  }

  // ---------- the protocol ----------

  /** How far the sweep in progress has got; at most one archiver runs. */
  datatype Phase =
    | Idle
    | Selected(from: int, to: int, count: nat, cutoff: int)
    | Serialised(from: int, to: int, count: nat, cutoff: int, lines: seq<Line>)
    | Stored(from: int, to: int, count: nat, cutoff: int, key: Key)
    | Purging(pending: seq<nat>)

  /** `log` remembers every row ever appended. */
  datatype State = State(table: seq<Row>, log: seq<Row>, runs: seq<Run>, storage: map<Key, seq<Line>>, phase: Phase)

  const INIT := State([], [], [], map[], Idle)

  datatype Step =
    | Append(row: Row)
    | Select(cutoff: int)
    | Serialise
    | Put(day: int)
    | PutFails(day: int, left: seq<Line>)
    | InsertRun(now: int)
    | SelectPurge(before: int, listed: nat)
    | PurgeOne
    | Fail

  predicate Enabled(s: State, step: Step) {
    match step
    case Append(row) => 0 < row.id && (s.log != [] ==> s.log[|s.log| - 1].id < row.id)
    case Select(_) => s.phase.Idle?
    case Serialise => s.phase.Selected?
    case Put(_) => s.phase.Serialised?
    case PutFails(_, _) => s.phase.Serialised?
    case InsertRun(_) => s.phase.Stored?
    case SelectPurge(_, _) => s.phase.Idle?
    case PurgeOne => s.phase.Purging? && s.phase.pending != [] && s.phase.pending[0] < |s.runs|
    case Fail => true
  }

  /** One DELETE ... BETWEEN with its `purged_at` mark, in one transaction. */
  function PurgedTable(t: seq<Row>, run: Run): seq<Row> {
    Filter(Beyond(run.from, run.to), t)
  }

  function MarkPurged(runs: seq<Run>, i: nat): seq<Run>
    requires i < |runs|
  {
    runs[i := runs[i].(purged := true)]
  }

  function Apply(s: State, step: Step): State
    requires Enabled(s, step)
  {
    match step
    case Append(row) => s.(table := s.table + [row], log := s.log + [row])
    case Select(cutoff) =>
      var due := DueRows(s.table, s.runs, cutoff);
      if due == [] then s else s.(phase := Selected(due[0].id, due[|due| - 1].id, |due|, cutoff))
    case Serialise =>
      var p := s.phase;
      s.(phase := Serialised(p.from, p.to, p.count, p.cutoff, Lines(Filter(Between(p.from, p.to), s.table))))
    case Put(day) =>
      var p := s.phase;
      var key := Key(day, p.from, p.to);
      s.(storage := s.storage[key := p.lines], phase := Stored(p.from, p.to, p.count, p.cutoff, key))
    case PutFails(day, left) =>
      s.(storage := s.storage[Key(day, s.phase.from, s.phase.to) := left], phase := Idle)
    case InsertRun(now) =>
      var p := s.phase;
      s.(runs := s.runs + [Run(p.from, p.to, p.count, p.key, now, false, p.cutoff)], phase := Idle)
    case SelectPurge(before, listed) => s.(phase := Purging(Listed(s.runs, before, listed)))
    case PurgeOne =>
      var i := s.phase.pending[0];
      s.(table := PurgedTable(s.table, s.runs[i]), runs := MarkPurged(s.runs, i),
         phase := Purging(s.phase.pending[1..]))
    case Fail => s.(phase := Idle)
  }

  // ---------- the invariant ----------

  /** Archived id ranges are disjoint and increasing. */
  ghost predicate Disjoint(runs: seq<Run>) {
    && (forall i | 0 <= i < |runs| :: 0 < runs[i].from <= runs[i].to)
    && (forall i, j | 0 <= i < j < |runs| :: runs[i].to < runs[j].from)
  }

  ghost predicate Logged(log: seq<Row>, id: int) {
    log != [] && id <= log[|log| - 1].id
  }

  /** A window that the archiver works on, and what it has counted in it. */
  ghost predicate WindowOk(log: seq<Row>, runs: seq<Run>, from: int, to: int, count: nat, cutoff: int) {
    && MaxArchived(runs) < from <= to && 0 < from && Logged(log, to)
    && count == |Filter(OlderThan(cutoff), Filter(Between(from, to), log))|
  }

  ghost predicate RunOk(log: seq<Row>, storage: map<Key, seq<Line>>, run: Run) {
    && Logged(log, run.to)
    && run.key.from == run.from && run.key.to == run.to
    && run.key in storage && storage[run.key] == Lines(Filter(Between(run.from, run.to), log))
    && run.rowCount == |Filter(OlderThan(run.cutoff), Filter(Between(run.from, run.to), log))|
  }

  ghost predicate PhaseOk(s: State) {
    match s.phase
    case Selected(from, to, count, cutoff) => WindowOk(s.log, s.runs, from, to, count, cutoff)
    case Serialised(from, to, count, cutoff, lines) =>
      WindowOk(s.log, s.runs, from, to, count, cutoff) && lines == Lines(Filter(Between(from, to), s.log))
    case Stored(from, to, count, cutoff, key) =>
      WindowOk(s.log, s.runs, from, to, count, cutoff)
      && RunOk(s.log, s.storage, Run(from, to, count, key, 0, false, cutoff))
    case Purging(pending) => Upcoming(s.runs, pending)
    case Idle => true
  }

  /** The runs still to be purged exist, are unpurged, and come one after the other. */
  ghost predicate Upcoming(runs: seq<Run>, pending: seq<nat>) {
    && (forall k | 0 <= k < |pending| :: pending[k] < |runs| && !runs[pending[k]].purged)
    && (forall j, k | 0 <= j < k < |pending| :: pending[j] < pending[k])
  }

  ghost predicate Inv(s: State) {
    && IsTable(s.log)
    && s.table == Filter(Kept(s.runs), s.log)
    && Disjoint(s.runs)
    && (forall i | 0 <= i < |s.runs| :: RunOk(s.log, s.storage, s.runs[i]))
    && PhaseOk(s)
  }

  lemma MaxIsLast(runs: seq<Run>)
    requires Disjoint(runs)
    ensures MaxArchived(runs) == if runs == [] then 0 else runs[|runs| - 1].to
    ensures forall i | 0 <= i < |runs| :: runs[i].to <= MaxArchived(runs)
  {
    if runs != [] {
      var init := runs[..|runs| - 1];
      assert Disjoint(init);
      MaxIsLast(init);
      assert runs[|runs| - 1].to > 0;
      assert init != [] ==> runs[|init| - 1].to < runs[|runs| - 1].from;
    }
  }

  /** Appending a row with a new highest id disturbs nothing that lies at or below the old highest id. */
  lemma AppendOutside(log: seq<Row>, row: Row, lo: int, hi: int)
    requires Logged(log, hi) && log[|log| - 1].id < row.id
    ensures Filter(Between(lo, hi), log + [row]) == Filter(Between(lo, hi), log)
  {
    FilterSnoc(Between(lo, hi), log, row);
  }

  lemma AppendKeepsRuns(s: State, row: Row)
    requires Inv(s) && Enabled(s, Append(row))
    ensures forall i | 0 <= i < |s.runs| :: RunOk(s.log + [row], s.storage, s.runs[i])
    ensures !IsPurged(s.runs, row.id)
  {
    forall i | 0 <= i < |s.runs|
      ensures RunOk(s.log + [row], s.storage, s.runs[i]) && s.runs[i].to < row.id
    {
      assert RunOk(s.log, s.storage, s.runs[i]);
      AppendOutside(s.log, row, s.runs[i].from, s.runs[i].to);
    }
  }

  lemma AppendKeepsPhase(s: State, row: Row)
    requires PhaseOk(s) && Enabled(s, Append(row))
    ensures PhaseOk(Apply(s, Append(row)))
  {
    if s.phase.Selected? || s.phase.Serialised? || s.phase.Stored? {
      AppendOutside(s.log, row, s.phase.from, s.phase.to);
    }
  }

  lemma AppendKeepsInv(s: State, row: Row)
    requires Inv(s) && Enabled(s, Append(row))
    ensures Inv(Apply(s, Append(row)))
  {
    AppendKeepsRuns(s, row);
    AppendKeepsPhase(s, row);
    FilterSnoc(Kept(s.runs), s.log, row);
  }

  /** The table still holds every logged row beyond the archived ids. */
  lemma NothingPurgedBeyond(s: State, lo: int, hi: int)
    requires Inv(s) && MaxArchived(s.runs) < lo
    ensures Filter(Between(lo, hi), s.table) == Filter(Between(lo, hi), s.log)
  {
    MaxIsLast(s.runs);
    FilterTwice(Between(lo, hi), Kept(s.runs), s.log);
    FilterAgree((r: Row) => Between(lo, hi)(r) && Kept(s.runs)(r), Between(lo, hi), s.log);
  }

  lemma SelectKeepsInv(s: State, cutoff: int)
    requires Inv(s) && Enabled(s, Select(cutoff))
    ensures Inv(Apply(s, Select(cutoff)))
  {
    var due := DueRows(s.table, s.runs, cutoff);
    if due != [] {
      SelectedWindow(s, cutoff);
    }
  }

  /** A sweep counts exactly the rows older than the cutoff whose id lies above 0 and above every archived range. */
  lemma DueRowsExactly(t: seq<Row>, runs: seq<Run>, cutoff: int, r: Row)
    ensures r in DueRows(t, runs, cutoff) <==>
              r in t && r.occurredAt < cutoff && 0 < r.id && forall i | 0 <= i < |runs| :: runs[i].to < r.id
  {
    FilterMembers(Due(MaxArchived(runs), cutoff), t, r);
    MaxExactly(runs, r.id);
  }

  lemma {:induction false} MaxExactly(runs: seq<Run>, id: int)
    ensures MaxArchived(runs) < id <==> 0 < id && forall i | 0 <= i < |runs| :: runs[i].to < id
  {
    if runs != [] {
      var init := runs[..|runs| - 1];
      MaxExactly(init, id);
      assert forall i | 0 <= i < |init| :: init[i] == runs[i];
    }
  }

  /** What a sweep counts in the table is what it would count in the full history. */
  lemma DueInLog(s: State, cutoff: int)
    requires Inv(s)
    ensures DueRows(s.table, s.runs, cutoff) == Filter(Due(MaxArchived(s.runs), cutoff), s.log)
  {
    var due := Due(MaxArchived(s.runs), cutoff);
    MaxIsLast(s.runs);
    FilterTwice(due, Kept(s.runs), s.log);
    FilterAgree((r: Row) => due(r) && Kept(s.runs)(r), due, s.log);
  }

  lemma WindowIsExact(log: seq<Row>, max: int, cutoff: int)
    requires IsTable(log) && max >= 0
    ensures var due := Filter(Due(max, cutoff), log);
            && IsTable(due)
            && (due != [] ==>
                 var from, to := due[0].id, due[|due| - 1].id;
                 && max < from <= to && Logged(log, to)
                 && due == Filter(OlderThan(cutoff), Filter(Between(from, to), log)))
  {
    var p := Due(max, cutoff);
    var due := Filter(p, log);
    FilterIsTable(p, log);
    if due != [] {
      var from, to := due[0].id, due[|due| - 1].id;
      assert due[0] in due && due[|due| - 1] in due;
      FilterMembers(p, log, due[0]);
      FilterMembers(p, log, due[|due| - 1]);
      var q := (r: Row) => OlderThan(cutoff)(r) && Between(from, to)(r);
      forall r | r in log
        ensures p(r) == q(r)
      {
        FilterMembers(p, log, r);
        InsideEnds(due, r);
        assert p(due[0]) && from > max;
        assert p(r) <==> r.id > max && r.occurredAt < cutoff;
        assert p(r) ==> r in due && from <= r.id <= to;
        assert OlderThan(cutoff)(r) <==> r.occurredAt < cutoff;
        assert Between(from, to)(r) <==> from <= r.id <= to;
      }
      FilterTwice(OlderThan(cutoff), Between(from, to), log);
      FilterAgree(p, q, log);
    }
  }

  lemma InsideEnds(t: seq<Row>, r: Row)
    requires IsTable(t) && t != []
    ensures r in t ==> t[0].id <= r.id <= t[|t| - 1].id
  {
  }

  lemma SelectedWindow(s: State, cutoff: int)
    requires Inv(s)
    ensures var due := DueRows(s.table, s.runs, cutoff);
            && IsTable(due)
            && (due != [] ==> WindowOk(s.log, s.runs, due[0].id, due[|due| - 1].id, |due|, cutoff))
  {
    MaxIsLast(s.runs);
    DueInLog(s, cutoff);
    WindowIsExact(s.log, MaxArchived(s.runs), cutoff);
  }

  lemma PurgedTableIsKept(runs: seq<Run>, i: nat, log: seq<Row>)
    requires i < |runs|
    ensures PurgedTable(Filter(Kept(runs), log), runs[i]) == Filter(Kept(MarkPurged(runs, i)), log)
  {
    var p, q, q' := Beyond(runs[i].from, runs[i].to), Kept(runs), Kept(MarkPurged(runs, i));
    FilterTwice(p, q, log);
    forall r | r in log
      ensures (p(r) && q(r)) == q'(r)
    {
      MarkingPurges(runs, i, r.id);
    }
    FilterAgree((r: Row) => p(r) && q(r), q', log);
  }

  lemma PurgeKeepsInv(s: State)
    requires Inv(s) && Enabled(s, PurgeOne)
    ensures Inv(Apply(s, PurgeOne))
  {
    PurgedTableIsKept(s.runs, s.phase.pending[0], s.log);
    MarkKeepsRuns(s.log, s.storage, s.runs, s.phase.pending[0]);
    MarkKeepsUpcoming(s.runs, s.phase.pending);
  }

  lemma MarkKeepsUpcoming(runs: seq<Run>, pending: seq<nat>)
    requires Upcoming(runs, pending) && pending != []
    ensures Upcoming(MarkPurged(runs, pending[0]), pending[1..])
  {
  }

  /** Nothing of a run's range is missing from the table while the run is not purged. */
  lemma UnpurgedRangeIsPresent(s: State, i: nat)
    requires Inv(s) && i < |s.runs| && !s.runs[i].purged
    ensures Filter(Between(s.runs[i].from, s.runs[i].to), s.table)
            == Filter(Between(s.runs[i].from, s.runs[i].to), s.log)
  {
    var p, q := Between(s.runs[i].from, s.runs[i].to), Kept(s.runs);
    FilterTwice(p, q, s.log);
    forall r | r in s.log
      ensures (p(r) && q(r)) == p(r)
    {
      if p(r) {
        OnlyOneRunCovers(s.runs, i, r.id);
      }
    }
    FilterAgree((r: Row) => p(r) && q(r), p, s.log);
  }

  lemma OnlyOneRunCovers(runs: seq<Run>, i: nat, id: int)
    requires Disjoint(runs) && i < |runs| && Covers(runs[i], id)
    ensures IsPurged(runs, id) <==> runs[i].purged
  {
    if IsPurged(runs, id) {
      var k :| 0 <= k < |runs| && runs[k].purged && Covers(runs[k], id);
      assert k < i ==> runs[k].to < runs[i].from;
      assert i < k ==> runs[i].to < runs[k].from;
    }
  }

  lemma MarkKeepsRuns(log: seq<Row>, storage: map<Key, seq<Line>>, runs: seq<Run>, i: nat)
    requires i < |runs| && Disjoint(runs) && forall k | 0 <= k < |runs| :: RunOk(log, storage, runs[k])
    ensures var runs' := MarkPurged(runs, i);
            Disjoint(runs') && forall k | 0 <= k < |runs'| :: RunOk(log, storage, runs'[k])
  {
    var runs' := MarkPurged(runs, i);
    forall k | 0 <= k < |runs'|
      ensures RunOk(log, storage, runs'[k])
    {
      assert RunOk(log, storage, runs[k]);
    }
  }

  lemma MarkingPurges(runs: seq<Run>, i: nat, id: int)
    requires i < |runs|
    ensures IsPurged(MarkPurged(runs, i), id) <==> IsPurged(runs, id) || Covers(runs[i], id)
  {
    var runs' := MarkPurged(runs, i);
    if IsPurged(runs, id) {
      var k :| 0 <= k < |runs| && runs[k].purged && Covers(runs[k], id);
      assert runs'[k].purged && Covers(runs'[k], id);
    }
    if Covers(runs[i], id) {
      assert runs'[i].purged;
    }
    if IsPurged(runs', id) {
      var k :| 0 <= k < |runs'| && runs'[k].purged && Covers(runs'[k], id);
      assert k != i ==> runs[k] == runs'[k];
    }
  }

  /** Writing at a key above the archived ids, whatever it leaves there, touches no recorded run's object. */
  lemma NewKeyIsUnrecorded(s: State, key: Key, lines: seq<Line>)
    requires Inv(s) && MaxArchived(s.runs) < key.to
    ensures forall i | 0 <= i < |s.runs| :: RunOk(s.log, s.storage[key := lines], s.runs[i])
  {
    MaxIsLast(s.runs);
    forall i | 0 <= i < |s.runs|
      ensures RunOk(s.log, s.storage[key := lines], s.runs[i])
    {
      assert RunOk(s.log, s.storage, s.runs[i]);
      assert s.runs[i].key.to < key.to;
    }
  }

  lemma PutKeepsInv(s: State, day: int)
    requires Inv(s) && Enabled(s, Put(day))
    ensures Inv(Apply(s, Put(day)))
  {
    NewKeyIsUnrecorded(s, Key(day, s.phase.from, s.phase.to), s.phase.lines);
  }

  lemma PutFailsKeepsInv(s: State, day: int, left: seq<Line>)
    requires Inv(s) && Enabled(s, PutFails(day, left))
    ensures Inv(Apply(s, PutFails(day, left)))
  {
    NewKeyIsUnrecorded(s, Key(day, s.phase.from, s.phase.to), left);
  }

  lemma InsertKeepsInv(s: State, now: int)
    requires Inv(s) && Enabled(s, InsertRun(now))
    ensures Inv(Apply(s, InsertRun(now)))
  {
    var run := Run(s.phase.from, s.phase.to, s.phase.count, s.phase.key, now, false, s.phase.cutoff);
    assert RunOk(s.log, s.storage, run);
    UnpurgedRunKeeps(s.runs, run, s.log);
    NewRunIsDisjoint(s.runs, run);
  }

  lemma NewRunIsDisjoint(runs: seq<Run>, run: Run)
    requires Disjoint(runs) && MaxArchived(runs) < run.from <= run.to && 0 < run.from
    ensures Disjoint(runs + [run])
  {
    MaxIsLast(runs);
  }

  lemma UnpurgedRunKeeps(runs: seq<Run>, run: Run, log: seq<Row>)
    requires !run.purged
    ensures Filter(Kept(runs + [run]), log) == Filter(Kept(runs), log)
  {
    var runs' := runs + [run];
    forall r | r in log
      ensures Kept(runs)(r) == Kept(runs')(r)
    {
      if IsPurged(runs, r.id) {
        var k :| 0 <= k < |runs| && runs[k].purged && Covers(runs[k], r.id);
        assert runs'[k].purged && Covers(runs'[k], r.id);
      }
    }
    FilterAgree(Kept(runs), Kept(runs'), log);
  }

  lemma SerialiseKeepsInv(s: State)
    requires Inv(s) && Enabled(s, Serialise)
    ensures Inv(Apply(s, Serialise))
  {
    NothingPurgedBeyond(s, s.phase.from, s.phase.to);
  }

  lemma SelectPurgeKeepsInv(s: State, before: int, listed: nat)
    requires Inv(s) && Enabled(s, SelectPurge(before, listed))
    ensures Inv(Apply(s, SelectPurge(before, listed)))
  {
    assert Upcoming(s.runs, Listed(s.runs, before, listed));
  }

  lemma StepKeepsInv(s: State, step: Step)
    requires Inv(s) && Enabled(s, step)
    ensures Inv(Apply(s, step))
  {
    match step {
      case Append(row) => AppendKeepsInv(s, row);
      case Select(cutoff) => SelectKeepsInv(s, cutoff);
      case Serialise => SerialiseKeepsInv(s);
      case Put(day) => PutKeepsInv(s, day);
      case PutFails(day, left) => PutFailsKeepsInv(s, day, left);
      case InsertRun(now) => InsertKeepsInv(s, now);
      case SelectPurge(before, listed) => SelectPurgeKeepsInv(s, before, listed);
      case PurgeOne => PurgeKeepsInv(s);
      case Fail =>
    }
  }

  // ---------- whole runs ----------

  ghost predicate IsRun(states: seq<State>, steps: seq<Step>) {
    && |states| == |steps| + 1 && states[0] == INIT
    && forall i | 0 <= i < |steps| :: Enabled(states[i], steps[i]) && states[i + 1] == Apply(states[i], steps[i])
  }

  lemma StepOfRun(states: seq<State>, steps: seq<Step>, n: nat)
    requires IsRun(states, steps) && n < |steps|
    ensures Enabled(states[n], steps[n]) && states[n + 1] == Apply(states[n], steps[n])
  {
  }

  /** Whatever appends interleave with the archiver's statements, and wherever a sweep or a purge breaks off. */
  lemma {:induction false} RunKeepsInv(states: seq<State>, steps: seq<Step>, n: nat)
    requires IsRun(states, steps) && n < |states|
    ensures Inv(states[n])
  {
    if n > 0 {
      RunKeepsInv(states, steps, n - 1);
      assert states[n - 1 + 1] == Apply(states[n - 1], steps[n - 1]);
      StepKeepsInv(states[n - 1], steps[n - 1]);
    }
  }

  /** In every run, each purge transaction finds every row of its range still in the table: a guard that deletes
      only complete ranges would never hold it back. */
  lemma PurgesFindCompleteRanges(states: seq<State>, steps: seq<Step>, n: nat)
    requires IsRun(states, steps) && n < |steps| && steps[n].PurgeOne?
    ensures var run := states[n].runs[states[n].phase.pending[0]];
            && !run.purged
            && Filter(Between(run.from, run.to), states[n].table) == Filter(Between(run.from, run.to), states[n].log)
  {
    RunKeepsInv(states, steps, n);
    assert Enabled(states[n], steps[n]);
    UnpurgedRangeIsPresent(states[n], states[n].phase.pending[0]);
  }

  /** Conservation: every row ever appended is still in the table, or a purged run covers it and the object that
      this run points at carries its line; no id is covered by two runs. */
  lemma EveryRowIsKeptOrArchived(s: State, r: Row)
    requires Inv(s) && r in s.log
    ensures r in s.table <==> !IsPurged(s.runs, r.id)
    ensures r !in s.table ==> exists i | 0 <= i < |s.runs| ::
      s.runs[i].purged && Covers(s.runs[i], r.id) && LineOf(r) in s.storage[s.runs[i].key]
    ensures forall i, j | 0 <= i < |s.runs| && 0 <= j < |s.runs| && Covers(s.runs[i], r.id) && Covers(s.runs[j], r.id) ::
      i == j
  {
    FilterMembers(Kept(s.runs), s.log, r);
    if r !in s.table {
      var i :| 0 <= i < |s.runs| && s.runs[i].purged && Covers(s.runs[i], r.id);
      CoveredRowIsArchived(s, r, i);
    }
  }

  /** A row is in a recorded run's object exactly when the run's id range covers it. */
  lemma CoveredRowIsArchived(s: State, r: Row, i: nat)
    requires Inv(s) && r in s.log && i < |s.runs|
    ensures LineOf(r) in s.storage[s.runs[i].key] <==> Covers(s.runs[i], r.id)
  {
    var run := s.runs[i];
    assert RunOk(s.log, s.storage, run);
    var rows := Filter(Between(run.from, run.to), s.log);
    FilterMembers(Between(run.from, run.to), s.log, r);
    if Covers(run, r.id) {
      var k :| 0 <= k < |rows| && rows[k] == r;
      assert Lines(rows)[k] == LineOf(r);
    }
    if LineOf(r) in Lines(rows) {
      var k :| 0 <= k < |rows| && Lines(rows)[k] == LineOf(r);
      FilterMembers(Between(run.from, run.to), s.log, rows[k]);
    }
  }

  /** A run's row_count is the number of lines in the object it points at. */
  ghost predicate CountMatchesObject(s: State, i: nat)
    requires i < |s.runs|
  {
    var run := s.runs[i];
    run.key in s.storage && run.rowCount == |s.storage[run.key]|
  }

  /** That is so exactly when every row in the run's id range was older than its cutoff. */
  lemma RowCountIsExact(s: State, i: nat)
    requires Inv(s) && i < |s.runs|
    ensures CountMatchesObject(s, i) <==>
            forall r | r in s.log && Covers(s.runs[i], r.id) :: r.occurredAt < s.runs[i].cutoff
  {
    var run := s.runs[i];
    assert RunOk(s.log, s.storage, run);
    var rows := Filter(Between(run.from, run.to), s.log);
    FilterAll(OlderThan(run.cutoff), rows);
    forall r
      ensures r in rows <==> r in s.log && Covers(run, r.id)
    {
      FilterMembers(Between(run.from, run.to), s.log, r);
    }
    assert (forall r | r in rows :: OlderThan(run.cutoff)(r)) <==> (forall r | r in rows :: r.occurredAt < run.cutoff);
  }

  // ---------- skipped rows ----------

  ghost predicate IsCovered(runs: seq<Run>, id: int) {
    exists i | 0 <= i < |runs| :: Covers(runs[i], id)
  }

  /** Every logged row up to the highest archived id is covered by some run. */
  ghost predicate NoGaps(s: State) {
    forall r | r in s.log && r.id <= MaxArchived(s.runs) :: IsCovered(s.runs, r.id)
  }

  /** The selected window leaves out no row between the archived ids and itself. */
  ghost predicate WindowIsTight(s: State) {
    (s.phase.Selected? || s.phase.Serialised? || s.phase.Stored?) ==>
      forall r | r in s.log && r.id > MaxArchived(s.runs) :: s.phase.from <= r.id
  }

  /** A sweep never leaves behind a row older than its cutoff beyond the archived ids. */
  lemma SweepTakesAllDue(s: State, cutoff: int, r: Row)
    requires Inv(s) && s.phase.Idle? && r in s.log && r.id > MaxArchived(s.runs) && r.occurredAt < cutoff
    ensures var p := Apply(s, Select(cutoff)).phase; p.Selected? && p.from <= r.id <= p.to
  {
    SelectedWindow(s, cutoff);
    DueInLog(s, cutoff);
    FilterMembers(Due(MaxArchived(s.runs), cutoff), s.log, r);
    InsideEnds(DueRows(s.table, s.runs, cutoff), r);
  }

  /** A sweep skips a row for good exactly when the lowest unarchived id is not yet due. */
  lemma SweepIsTight(s: State, cutoff: int, first: Row)
    requires Inv(s) && s.phase.Idle? && Apply(s, Select(cutoff)).phase.Selected?
    requires first in s.log && first.id > MaxArchived(s.runs)
    requires forall r | r in s.log && r.id > MaxArchived(s.runs) :: first.id <= r.id
    ensures WindowIsTight(Apply(s, Select(cutoff))) <==> first.occurredAt < cutoff
  {
    var due := DueRows(s.table, s.runs, cutoff);
    var max := MaxArchived(s.runs);
    SelectedWindow(s, cutoff);
    DueInLog(s, cutoff);
    assert due[0] in due;
    FilterMembers(Due(max, cutoff), s.log, due[0]);
    FilterMembers(Due(max, cutoff), s.log, first);
    assert Due(max, cutoff)(due[0]);
    if first.occurredAt < cutoff {
      InsideEnds(due, first);
    } else {
      SameIdSameRow(s.log, due[0], first);
    }
  }

  lemma SameIdSameRow(log: seq<Row>, r: Row, q: Row)
    requires IsTable(log) && r in log && q in log
    ensures r.id == q.id ==> r == q
  {
    var i :| 0 <= i < |log| && log[i] == r;
    var j :| 0 <= j < |log| && log[j] == q;
    assert i < j ==> log[i].id < log[j].id;
    assert j < i ==> log[j].id < log[i].id;
  }

  /** occurred_at never decreases with id. */
  ghost predicate TimeOrdered(log: seq<Row>) {
    forall i, j | 0 <= i < j < |log| :: log[i].occurredAt <= log[j].occurredAt
  }

  /** In a time-ordered history every row between the archived ids and the last due row is due. */
  lemma OrderedDue(log: seq<Row>, max: int, cutoff: int, r: Row)
    requires IsTable(log) && TimeOrdered(log) && r in log && r.id > max
    requires Filter(Due(max, cutoff), log) != []
    ensures var due := Filter(Due(max, cutoff), log);
            && (r.id <= due[|due| - 1].id ==> r.occurredAt < cutoff)
            && due[0].id <= r.id
  {
    var due := Filter(Due(max, cutoff), log);
    var last := due[|due| - 1];
    assert last in due && due[0] in due;
    FilterIsTable(Due(max, cutoff), log);
    FilterMembers(Due(max, cutoff), log, last);
    FilterMembers(Due(max, cutoff), log, r);
    InsideEnds(due, last);
    InsideEnds(due, r);
    assert Due(max, cutoff)(last);
    if r.id <= last.id {
      EarlierIsOlder(log, r, last);
    }
  }

  lemma OrderedSweepIsTight(s: State, cutoff: int)
    requires Inv(s) && s.phase.Idle? && TimeOrdered(s.log)
    ensures WindowIsTight(Apply(s, Select(cutoff)))
    ensures Apply(s, Select(cutoff)).phase.Selected? ==>
      var p := Apply(s, Select(cutoff)).phase;
      forall r | r in s.log && p.from <= r.id <= p.to :: r.occurredAt < cutoff
  {
    var max := MaxArchived(s.runs);
    DueInLog(s, cutoff);
    SelectedWindow(s, cutoff);
    if DueRows(s.table, s.runs, cutoff) != [] {
      forall r | r in s.log && r.id > max
        ensures var due := DueRows(s.table, s.runs, cutoff);
                (r.id <= due[|due| - 1].id ==> r.occurredAt < cutoff) && due[0].id <= r.id
      {
        OrderedDue(s.log, max, cutoff, r);
      }
    }
  }

  lemma EarlierIsOlder(log: seq<Row>, r: Row, q: Row)
    requires IsTable(log) && TimeOrdered(log) && r in log && q in log && r.id <= q.id
    ensures r.occurredAt <= q.occurredAt
  {
    var i :| 0 <= i < |log| && log[i] == r;
    var j :| 0 <= j < |log| && log[j] == q;
    assert j < i ==> log[j].id < log[i].id;
  }

  ghost predicate AllCounted(log: seq<Row>, runs: seq<Run>) {
    forall i, r | 0 <= i < |runs| && r in log && Covers(runs[i], r.id) :: r.occurredAt < runs[i].cutoff
  }

  /** Everything the archiver has counted or is counting was older than its cutoff. */
  ghost predicate CountsAreExact(s: State) {
    && AllCounted(s.log, s.runs)
    && ((s.phase.Selected? || s.phase.Serialised? || s.phase.Stored?) ==>
         forall r | r in s.log && s.phase.from <= r.id <= s.phase.to :: r.occurredAt < s.phase.cutoff)
  }

  ghost predicate OrderedInv(s: State) {
    NoGaps(s) && WindowIsTight(s) && CountsAreExact(s)
  }

  lemma MarkKeepsRanges(runs: seq<Run>, i: nat)
    requires i < |runs| && Disjoint(runs)
    ensures Disjoint(MarkPurged(runs, i)) && MaxArchived(MarkPurged(runs, i)) == MaxArchived(runs)
  {
    MarkKeepsDisjoint(runs, i);
    MaxIsLast(runs);
    MaxIsLast(MarkPurged(runs, i));
  }

  lemma MarkKeepsDisjoint(runs: seq<Run>, i: nat)
    requires i < |runs| && Disjoint(runs)
    ensures Disjoint(MarkPurged(runs, i))
  {
  }

  lemma MarkKeepsCoverage(runs: seq<Run>, i: nat, id: int)
    requires i < |runs|
    ensures IsCovered(MarkPurged(runs, i), id) <==> IsCovered(runs, id)
  {
    var runs' := MarkPurged(runs, i);
    if IsCovered(runs, id) {
      var k :| 0 <= k < |runs| && Covers(runs[k], id);
      assert Covers(runs'[k], id);
    }
  }

  /** A tight window that starts right behind the archived ids leaves no gap. */
  lemma NewRunLeavesNoGap(log: seq<Row>, runs: seq<Run>, run: Run)
    requires Disjoint(runs) && MaxArchived(runs) < run.from <= run.to
    requires forall r | r in log && r.id <= MaxArchived(runs) :: IsCovered(runs, r.id)
    requires forall r | r in log && r.id > MaxArchived(runs) :: run.from <= r.id
    ensures forall r | r in log && r.id <= MaxArchived(runs + [run]) :: IsCovered(runs + [run], r.id)
  {
    var runs' := runs + [run];
    assert runs'[..|runs|] == runs;
    forall r | r in log && r.id <= MaxArchived(runs')
      ensures IsCovered(runs', r.id)
    {
      if r.id <= MaxArchived(runs) {
        NewRunKeepsCoverage(runs, run, r.id);
      } else {
        assert Covers(runs'[|runs|], r.id);
      }
    }
  }

  lemma InsertKeepsOrdered(s: State, now: int)
    requires Inv(s) && Enabled(s, InsertRun(now)) && OrderedInv(s)
    ensures OrderedInv(Apply(s, InsertRun(now)))
  {
    var run := Run(s.phase.from, s.phase.to, s.phase.count, s.phase.key, now, false, s.phase.cutoff);
    NewRunLeavesNoGap(s.log, s.runs, run);
    NewRunKeepsCounts(s.log, s.runs, run);
  }

  lemma NewRunKeepsCounts(log: seq<Row>, runs: seq<Run>, run: Run)
    requires AllCounted(log, runs) && forall r | r in log && Covers(run, r.id) :: r.occurredAt < run.cutoff
    ensures AllCounted(log, runs + [run])
  {
  }

  /** A new row lies beyond everything archived or being archived. */
  ghost predicate BeyondAll(s: State, row: Row) {
    && MaxArchived(s.runs) < row.id
    && (forall i | 0 <= i < |s.runs| :: !Covers(s.runs[i], row.id))
    && (s.phase.Selected? || s.phase.Serialised? || s.phase.Stored? ==> s.phase.from <= s.phase.to < row.id)
  }

  lemma AppendIsBeyond(s: State, row: Row)
    requires Inv(s) && Enabled(s, Append(row))
    ensures BeyondAll(s, row)
  {
    MaxIsLast(s.runs);
    assert forall i | 0 <= i < |s.runs| :: RunOk(s.log, s.storage, s.runs[i]);
  }

  lemma AppendKeepsOrdered(s: State, row: Row)
    requires Enabled(s, Append(row)) && OrderedInv(s) && BeyondAll(s, row)
    ensures OrderedInv(Apply(s, Append(row)))
  {
    assert forall r | r in s.log + [row] :: r in s.log || r == row;
  }

  lemma MarkKeepsCounts(log: seq<Row>, runs: seq<Run>, i: nat)
    requires i < |runs| && AllCounted(log, runs)
    ensures AllCounted(log, MarkPurged(runs, i))
  {
    var runs' := MarkPurged(runs, i);
    forall k, r | 0 <= k < |runs'| && r in log && Covers(runs'[k], r.id)
      ensures r.occurredAt < runs'[k].cutoff
    {
      assert Covers(runs[k], r.id);
    }
  }

  lemma PurgeKeepsOrdered(s: State)
    requires Disjoint(s.runs) && Enabled(s, PurgeOne) && OrderedInv(s)
    ensures OrderedInv(Apply(s, PurgeOne))
  {
    var i, s' := s.phase.pending[0], Apply(s, PurgeOne);
    MarkKeepsRanges(s.runs, i);
    MarkKeepsCounts(s.log, s.runs, i);
    forall r | r in s'.log && r.id <= MaxArchived(s'.runs)
      ensures IsCovered(s'.runs, r.id)
    {
      MarkKeepsCoverage(s.runs, i, r.id);
    }
  }

  lemma SelectKeepsOrdered(s: State, cutoff: int)
    requires Inv(s) && Enabled(s, Select(cutoff)) && OrderedInv(s) && TimeOrdered(s.log)
    ensures OrderedInv(Apply(s, Select(cutoff)))
  {
    OrderedSweepIsTight(s, cutoff);
  }

  lemma StepKeepsOrdered(s: State, step: Step)
    requires Inv(s) && Enabled(s, step) && OrderedInv(s) && TimeOrdered(s.log)
    ensures OrderedInv(Apply(s, step))
  {
    match step {
      case Append(row) =>
        AppendIsBeyond(s, row);
        AppendKeepsOrdered(s, row);
      case Select(cutoff) => SelectKeepsOrdered(s, cutoff);
      case InsertRun(now) => InsertKeepsOrdered(s, now);
      case PurgeOne => PurgeKeepsOrdered(s);
      case _ =>
    }
  }

  lemma LogOnlyGrows(s: State, step: Step)
    requires Enabled(s, step)
    ensures s.log <= Apply(s, step).log
    ensures TimeOrdered(Apply(s, step).log) ==> TimeOrdered(s.log)
  {
  }

  lemma {:induction false} OrderedRunKeepsInv(states: seq<State>, steps: seq<Step>, n: nat)
    requires IsRun(states, steps) && n < |states| && TimeOrdered(states[n].log)
    ensures Inv(states[n]) && OrderedInv(states[n])
  {
    RunKeepsInv(states, steps, n);
    if n > 0 {
      assert states[n - 1 + 1] == Apply(states[n - 1], steps[n - 1]);
      RunKeepsInv(states, steps, n - 1);
      LogOnlyGrows(states[n - 1], steps[n - 1]);
      OrderedRunKeepsInv(states, steps, n - 1);
      StepKeepsOrdered(states[n - 1], steps[n - 1]);
    }
  }

  /** Over every run in which occurred_at never decreases with id: no row up to the highest archived id is skipped,
      and every run's row_count is the number of lines in its object. */
  lemma OrderedRunsSkipNothing(states: seq<State>, steps: seq<Step>, n: nat)
    requires IsRun(states, steps) && n < |states| && TimeOrdered(states[n].log)
    ensures NoGaps(states[n])
    ensures forall i | 0 <= i < |states[n].runs| :: CountMatchesObject(states[n], i)
  {
    OrderedRunKeepsInv(states, steps, n);
    forall i | 0 <= i < |states[n].runs|
      ensures CountMatchesObject(states[n], i)
    {
      RowCountIsExact(states[n], i);
    }
  }

  /** A step covers no id at or below the highest archived id that was not covered before. */
  lemma StepKeepsCoverage(s: State, step: Step, id: int)
    requires Inv(s) && Enabled(s, step) && id <= MaxArchived(s.runs)
    ensures IsCovered(Apply(s, step).runs, id) <==> IsCovered(s.runs, id)
    ensures MaxArchived(s.runs) <= MaxArchived(Apply(s, step).runs)
  {
    match step {
      case PurgeOne => PurgeKeepsCoverage(s, id);
      case InsertRun(now) => InsertKeepsCoverage(s, now, id);
      case _ => OthersKeepRuns(s, step);
    }
  }

  lemma PurgeKeepsCoverage(s: State, id: int)
    requires Disjoint(s.runs) && Enabled(s, PurgeOne)
    ensures IsCovered(Apply(s, PurgeOne).runs, id) <==> IsCovered(s.runs, id)
    ensures MaxArchived(s.runs) == MaxArchived(Apply(s, PurgeOne).runs)
  {
    MarkKeepsRanges(s.runs, s.phase.pending[0]);
    MarkKeepsCoverage(s.runs, s.phase.pending[0], id);
  }

  lemma InsertKeepsCoverage(s: State, now: int, id: int)
    requires PhaseOk(s) && Enabled(s, InsertRun(now)) && id <= MaxArchived(s.runs)
    ensures IsCovered(Apply(s, InsertRun(now)).runs, id) <==> IsCovered(s.runs, id)
    ensures MaxArchived(s.runs) <= MaxArchived(Apply(s, InsertRun(now)).runs)
  {
    var p := s.phase;
    NewRunKeepsCoverage(s.runs, Run(p.from, p.to, p.count, p.key, now, false, p.cutoff), id);
  }

  lemma OthersKeepRuns(s: State, step: Step)
    requires Enabled(s, step) && !step.PurgeOne? && !step.InsertRun?
    ensures Apply(s, step).runs == s.runs
  {
  }

  lemma NewRunKeepsCoverage(runs: seq<Run>, run: Run, id: int)
    requires id <= MaxArchived(runs) < run.from
    ensures IsCovered(runs + [run], id) <==> IsCovered(runs, id)
    ensures MaxArchived(runs) <= MaxArchived(runs + [run])
  {
    var runs' := runs + [run];
    assert runs'[..|runs|] == runs;
    if IsCovered(runs, id) {
      var k :| 0 <= k < |runs| && Covers(runs[k], id);
      assert Covers(runs'[k], id);
    }
  }

  lemma PurgedIsCovered(runs: seq<Run>, id: int)
    ensures IsPurged(runs, id) ==> IsCovered(runs, id)
  {
  }

  /** A sweep has passed over the row: it lies below the archived ids, in no run's range, and in the table. */
  ghost predicate Skipped(s: State, r: Row) {
    r in s.table && r in s.log && r.id <= MaxArchived(s.runs) && !IsCovered(s.runs, r.id)
  }

  lemma StepKeepsSkipped(s: State, step: Step, r: Row)
    requires Inv(s) && Enabled(s, step) && Skipped(s, r)
    ensures Skipped(Apply(s, step), r)
  {
    var s' := Apply(s, step);
    StepKeepsInv(s, step);
    StepKeepsCoverage(s, step, r.id);
    KeptUnlessCovered(s', r);
  }

  lemma KeptUnlessCovered(s: State, r: Row)
    requires Inv(s) && r in s.log && !IsCovered(s.runs, r.id)
    ensures r in s.table
  {
    PurgedIsCovered(s.runs, r.id);
    FilterMembers(Kept(s.runs), s.log, r);
  }

  lemma NextKeepsSkipped(states: seq<State>, steps: seq<Step>, n: nat, r: Row)
    requires IsRun(states, steps) && n < |steps| && Skipped(states[n], r)
    ensures Skipped(states[n + 1], r)
  {
    RunKeepsInv(states, steps, n);
    StepOfRun(states, steps, n);
    StepKeepsSkipped(states[n], steps[n], r);
  }

  /** A row that a sweep has passed over is never archived nor purged, by no later step of any run. */
  lemma {:induction false} SkippedForGood(states: seq<State>, steps: seq<Step>, m: nat, n: nat, r: Row)
    requires IsRun(states, steps) && m <= n < |states| && Skipped(states[m], r)
    ensures Skipped(states[n], r)
    decreases n
  {
    if m < n {
      SkippedForGood(states, steps, m, n - 1, r);
      NextKeepsSkipped(states, steps, n - 1, r);
    }
  }

  // ---------- runs that skip and miscount ----------

  /** A history before any sweep. */
  function Appended(rows: seq<Row>): State {
    State(rows, rows, [], map[], Idle)
  }

  /** The state after one complete sweep of such a history. */
  function Swept(rows: seq<Row>, cutoff: int): State
    requires DueRows(rows, [], cutoff) != []
  {
    var due := DueRows(rows, [], cutoff);
    var from, to := due[0].id, due[|due| - 1].id;
    State(rows, rows, [Run(from, to, |due|, Key(0, from, to), 0, false, cutoff)],
          map[Key(0, from, to) := Lines(Filter(Between(from, to), rows))], Idle)
  }

  /** Some run ends in the state. */
  ghost predicate Reachable(s: State) {
    exists states: seq<State>, steps: seq<Step> :: IsRun(states, steps) && states[|states| - 1] == s
  }

  lemma StepIsReachable(s: State, step: Step)
    requires Reachable(s) && Enabled(s, step)
    ensures Reachable(Apply(s, step))
  {
    var states: seq<State>, steps: seq<Step> :| IsRun(states, steps) && states[|states| - 1] == s;
    var states', steps' := states + [Apply(s, step)], steps + [step];
    forall i | 0 <= i < |steps'|
      ensures Enabled(states'[i], steps'[i]) && states'[i + 1] == Apply(states'[i], steps'[i])
    {
      assert i < |steps| ==> Enabled(states[i], steps[i]) && states[i + 1] == Apply(states[i], steps[i]);
    }
    assert IsRun(states', steps');
  }

  lemma {:induction false} AppendedIsReachable(rows: seq<Row>)
    requires IsTable(rows)
    ensures Reachable(Appended(rows))
  {
    if rows == [] {
      assert IsRun([INIT], []);
    } else {
      var init, last := rows[..|rows| - 1], rows[|rows| - 1];
      AppendedIsReachable(init);
      assert init != [] ==> init[|init| - 1].id < last.id;
      StepIsReachable(Appended(init), Append(last));
      assert init + [last] == rows;
    }
  }

  lemma SweptIsReachable(rows: seq<Row>, cutoff: int)
    requires IsTable(rows) && DueRows(rows, [], cutoff) != []
    ensures Reachable(Swept(rows, cutoff))
  {
    AppendedIsReachable(rows);
    var s1 := Apply(Appended(rows), Select(cutoff));
    StepIsReachable(Appended(rows), Select(cutoff));
    var s2 := Apply(s1, Serialise);
    StepIsReachable(s1, Serialise);
    var s3 := Apply(s2, Put(0));
    StepIsReachable(s2, Put(0));
    StepIsReachable(s3, InsertRun(0));
    assert Apply(s3, InsertRun(0)) == Swept(rows, cutoff);
  }

  /** For every two rows of which the first is not yet due and the second is, a run skips the first. */
  lemma SkipIsReached(young: Row, old_: Row, cutoff: int)
    requires 0 < young.id < old_.id && old_.occurredAt < cutoff <= young.occurredAt
    ensures DueRows([young, old_], [], cutoff) == [old_]
    ensures var s := Swept([young, old_], cutoff); Reachable(s) && Skipped(s, young)
  {
    DueIsSecond(young, old_, cutoff);
    SweptIsReachable([young, old_], cutoff);
    MaxOfOne(Swept([young, old_], cutoff).runs[0]);
  }

  lemma DueIsSecond(young: Row, old_: Row, cutoff: int)
    requires 0 < young.id < old_.id && old_.occurredAt < cutoff <= young.occurredAt
    ensures DueRows([young, old_], [], cutoff) == [old_]
  {
    var p := Due(0, cutoff);
    FilterSnoc(p, [young], old_);
    FilterSnoc(p, [], young);
    assert [young] + [old_] == [young, old_] && [] + [young] == [young];
  }

  lemma MaxOfOne(run: Run)
    requires 0 < run.to
    ensures MaxArchived([run]) == run.to
  {
    assert [run][..0] == [];
  }

  /** For every such two rows and every third that is not yet due, a run then purges the second from between the
      other two. */
  lemma InnerPurgeIsReached(young: Row, old_: Row, later: Row, cutoff: int)
    requires 0 < young.id < old_.id < later.id
    requires old_.occurredAt < cutoff <= young.occurredAt && cutoff <= later.occurredAt
    ensures exists s :: Reachable(s) && s.log == [young, old_, later] && s.table == [young, later]
  {
    var rows := [young, old_, later];
    DueIsMiddle(young, old_, later, cutoff);
    SweptIsReachable(rows, cutoff);
    PurgeOfOneIsReachable(Swept(rows, cutoff));
    OneByOne(Beyond(old_.id, old_.id), young, old_, later);
    assert [young] + [later] == [young, later];
  }

  lemma PurgeOfOneIsReachable(s: State)
    requires Reachable(s) && s.phase.Idle? && |s.runs| == 1 && s.runs[0].archivedAt == 0 && !s.runs[0].purged
    ensures exists s' :: Reachable(s') && s'.log == s.log && s'.table == PurgedTable(s.table, s.runs[0])
  {
    var s' := Apply(s, SelectPurge(1, 1));
    StepIsReachable(s, SelectPurge(1, 1));
    assert Pending(s.runs, 1, 1, PURGE_BATCH - 1) == [];
    assert s'.phase == Purging([0]);
    StepIsReachable(s', PurgeOne);
    assert Apply(s', PurgeOne).table == PurgedTable(s.table, s.runs[0]);
  }

  lemma OneByOne(p: Row -> bool, a: Row, b: Row, c: Row)
    ensures Filter(p, [a, b, c])
            == (if p(a) then [a] else []) + (if p(b) then [b] else []) + (if p(c) then [c] else [])
  {
    assert [a, b, c] == [a, b] + [c] && [a, b] == [a] + [b] && [a] == [] + [a];
    FilterSnoc(p, [a, b], c);
    FilterSnoc(p, [a], b);
    FilterSnoc(p, [], a);
  }

  lemma DueIsMiddle(young: Row, old_: Row, later: Row, cutoff: int)
    requires 0 < young.id < old_.id < later.id
    requires old_.occurredAt < cutoff <= young.occurredAt && cutoff <= later.occurredAt
    ensures DueRows([young, old_, later], [], cutoff) == [old_]
  {
    OneByOne(Due(0, cutoff), young, old_, later);
  }

  /** For every three rows of which only the middle one is not yet due, a run's row_count falls short of its lines. */
  lemma MiscountIsReached(first: Row, young: Row, last: Row, cutoff: int)
    requires 0 < first.id < young.id < last.id
    requires first.occurredAt < cutoff && last.occurredAt < cutoff <= young.occurredAt
    ensures DueRows([first, young, last], [], cutoff) == [first, last]
    ensures var s := Swept([first, young, last], cutoff); Reachable(s) && !CountMatchesObject(s, 0)
  {
    var rows := [first, young, last];
    OneByOne(Due(0, cutoff), first, young, last);
    assert [first] + [last] == [first, last];
    SweptIsReachable(rows, cutoff);
    var q := Between(first.id, last.id);
    FilterAll(q, rows);
  }

  // ---------- what a line leaves out ----------

  /** Two rows with the same archived line hash the same bytes exactly when they agree on the three columns that the
      line leaves out: actor id, user agent (NULL as empty) and hash version. */
  lemma LineDeterminesHashExactly(env: Env, prev: Option<Bytes>, r: Row, q: Row)
    requires TimeFormatInjective(env) && Delimited(r) && Delimited(q) && LineOf(r) == LineOf(q)
    ensures RowMaterial(env, prev, r) == RowMaterial(env, prev, q) <==>
              && r.actorId == q.actorId
              && DerefStr(r.userAgent) == DerefStr(q.userAgent)
              && (r.hashVersion == 2 <==> q.hashVersion == 2)
  {
    MaterialInjective(env, prev, r, q);
  }

  /** So two different histories can leave the same archive. */
  lemma ArchiveDropsHashedColumns(env: Env, prev: Option<Bytes>, r: Row, agent: string)
    requires '|' !in agent && agent != DerefStr(r.userAgent) && TimeFormatInjective(env) && Delimited(r)
    ensures var q := r.(userAgent := Some(agent));
            LineOf(q) == LineOf(r) && RowMaterial(env, prev, q) != RowMaterial(env, prev, r)
  {
    LineDeterminesHashExactly(env, prev, r.(userAgent := Some(agent)), r);
  }
}
