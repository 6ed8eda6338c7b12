/** The archiver's two methods, run without interruption, against the steps of Archive. */
module Archiver {
  import opened Wrappers
  import opened ChainHash
  import opened ChainSpec
  import opened Archive

  /** The purge transactions of the first n pending runs. */
  function PurgeFirst(t: seq<Row>, runs: seq<Run>, pending: seq<nat>, n: nat): (seq<Row>, seq<Run>)
    requires n <= |pending| && forall k | 0 <= k < |pending| :: pending[k] < |runs|
    ensures |PurgeFirst(t, runs, pending, n).1| == |runs|
  {
    if n == 0 then (t, runs)
    else
      var (t', runs') := PurgeFirst(t, runs, pending, n - 1);
      (PurgedTable(t', runs'[pending[n - 1]]), MarkPurged(runs', pending[n - 1]))
  }

  /** How a purge goes: whether its query succeeds, how many runs it lists before its result set breaks off, and
      how many transactions commit. */
  datatype Purge = Purge(before: int, queried: bool, listed: nat, committed: nat)

  /** Where a sweep stops: with the first thing that fails, or with the purge that follows if purging is switched on.
      A failed write to the object store may leave anything at the key. */
  datatype Outcome =
    | CutoffFails
    | WindowFails
    | SerialiseFails
    | PutFails(left: Option<seq<Line>>)
    | InsertFails
    | Succeeds(purge: Option<Purge>)

  /** What a purge leaves. */
  function Purged(t: seq<Row>, runs: seq<Run>, p: Purge): (seq<Row>, seq<Run>) {
    if !p.queried then (t, runs)
    else
      var pending := Listed(runs, p.before, p.listed);
      PurgeFirst(t, runs, pending, if p.committed < |pending| then p.committed else |pending|)
  }

  /** The purge gets to the run at position k. */
  predicate Reaches(runs: seq<Run>, p: Purge, k: nat) {
    var pending := Listed(runs, p.before, p.listed);
    k in pending[..if p.committed < |pending| then p.committed else |pending|]
  }

  /** A purge marks exactly the runs it gets to. */
  lemma PurgeReaches(t: seq<Row>, runs: seq<Run>, p: Purge)
    requires p.queried
    ensures |Purged(t, runs, p).1| == |runs|
    ensures forall k | 0 <= k < |runs| ::
      Purged(t, runs, p).1[k] == runs[k].(purged := runs[k].purged || Reaches(runs, p, k))
  {
    var pending := Listed(runs, p.before, p.listed);
    var n := if p.committed < |pending| then p.committed else |pending|;
    forall k | 0 <= k < |runs|
      ensures Purged(t, runs, p).1[k] == runs[k].(purged := runs[k].purged || Reaches(runs, p, k))
    {
      PurgeMarks(t, runs, pending, n, k);
    }
  }

  lemma LinesSnoc(rows: seq<Row>, r: Row)
    ensures Lines(rows + [r]) == Lines(rows) + [LineOf(r)]
  {
  }

  class Sweeper {
    var table: seq<Row>
    var runs: seq<Run>
    var storage: map<Key, seq<Line>>

    /** The rows between two ids, serialised in id order. */
    method Serialise(from: int, to: int) returns (lines: seq<Line>)
      ensures lines == Lines(Filter(Between(from, to), table))
    {
      lines := [];
      ghost var rows := [];
      for i := 0 to |table|
        invariant rows == Filter(Between(from, to), table[..i]) && lines == Lines(rows)
      {
        FilterSnoc(Between(from, to), table[..i], table[i]);
        assert table[..i] + [table[i]] == table[..i + 1];
        if from <= table[i].id <= to {
          LinesSnoc(rows, table[i]);
          lines := lines + [LineOf(table[i])];
          rows := rows + [table[i]];
        }
      }
      assert table[..|table|] == table;
    }

    /** One sweep: archives the due window, if any; a sweep that fails before its run is recorded leaves at most an
        unrecorded object. The purge that may follow is best effort. */
    method RunOnce(cutoff: int, day: int, now: int, o: Outcome) returns (r: Result<nat, string>)
      modifies this`table, this`runs, this`storage
      ensures r.Ok? <==>
        o.Succeeds? || (!o.CutoffFails? && !o.WindowFails? && DueRows(old(table), old(runs), cutoff) == [])
      ensures o.CutoffFails? || o.WindowFails? || DueRows(old(table), old(runs), cutoff) == [] ==>
        table == old(table) && runs == old(runs) && storage == old(storage) && (r.Ok? ==> r.value == 0)
      ensures DueRows(old(table), old(runs), cutoff) != [] ==>
        var due := DueRows(old(table), old(runs), cutoff);
        var from, to := due[0].id, due[|due| - 1].id;
        var key, lines := Key(day, from, to), Lines(Filter(Between(from, to), old(table)));
        var recorded := old(runs) + [Run(from, to, |due|, key, now, false, cutoff)];
        && storage == (match o
                       case PutFails(left) => if left.Some? then old(storage)[key := left.value] else old(storage)
                       case InsertFails => old(storage)[key := lines]
                       case Succeeds(_) => old(storage)[key := lines]
                       case _ => old(storage))
        && (table, runs) == (if o.Succeeds? && o.purge.Some? then Purged(old(table), recorded, o.purge.value)
                             else (old(table), if o.Succeeds? then recorded else old(runs)))
    {
      if o.CutoffFails? {
        return Err("compute cutoff");
      }
      if o.WindowFails? {
        return Err("find window");
      }
      var due := DueRows(table, runs, cutoff);
      if due == [] {
        return Ok(0);
      }
      var from, to, count := due[0].id, due[|due| - 1].id, |due|;
      if o.SerialiseFails? {
        return Err("serialize");
      }
      var lines := Serialise(from, to);
      var key := Key(day, from, to);
      if o.PutFails? {
        if o.left.Some? {
          storage := storage[key := o.left.value];
        }
        return Err("storage put");
      }
      storage := storage[key := lines];
      if o.InsertFails? {
        return Err("insert audit_archive_runs");
      }
      runs := runs + [Run(from, to, count, key, now, false, cutoff)];
      var id := |runs|;
      if o.purge.Some? {
        var _ := PurgeOldArchives(o.purge.value);
      }
      return Ok(id);
    }

    /** Deletes the rows of up to 16 old runs, one transaction each, up to the first that fails. */
    method PurgeOldArchives(p: Purge) returns (r: Result<(), string>)
      modifies this`table, this`runs
      ensures r.Ok? <==> p.queried && |Listed(old(runs), p.before, p.listed)| <= p.committed
      ensures (table, runs) == Purged(old(table), old(runs), p)
      ensures |runs| == |old(runs)|
      ensures forall k | 0 <= k < |runs| ::
        runs[k] == old(runs)[k].(purged := old(runs)[k].purged || (p.queried && Reaches(old(runs), p, k)))
    {
      if !p.queried {
        return Err("query failed");
      }
      var pending := Listed(runs, p.before, p.listed);
      PurgeReaches(table, runs, p);
      for i := 0 to |pending|
        invariant i <= p.committed
        invariant (table, runs) == PurgeFirst(old(table), old(runs), pending, i)
      {
        if i == p.committed {
          return Err("audit purge");
        }
        table, runs := PurgedTable(table, runs[pending[i]]), MarkPurged(runs, pending[i]);
      }
      return Ok(());
    }
  }

  /** A successful sweep is the protocol's four statements in a row. */
  lemma SweepIsFourSteps(s: State, cutoff: int, day: int, now: int)
    requires s.phase.Idle? && DueRows(s.table, s.runs, cutoff) != []
    ensures var due := DueRows(s.table, s.runs, cutoff);
      var from, to := due[0].id, due[|due| - 1].id;
      var key := Key(day, from, to);
      Apply(Apply(Apply(Apply(s, Select(cutoff)), Serialise), Put(day)), InsertRun(now))
      == State(s.table, s.log, s.runs + [Run(from, to, |due|, key, now, false, cutoff)],
               s.storage[key := Lines(Filter(Between(from, to), s.table))], Idle)
  {
  }

  /** A sweep whose run row is refused, or whose object cannot be written, leaves the object or what is left of it, no run,
      and the archiver free for the next sweep. */
  lemma BrokenSweepIsSteps(s: State, cutoff: int, day: int, left: seq<Line>)
    requires s.phase.Idle? && DueRows(s.table, s.runs, cutoff) != []
    ensures var due := DueRows(s.table, s.runs, cutoff);
      var key := Key(day, due[0].id, due[|due| - 1].id);
      var serialised := Apply(Apply(s, Select(cutoff)), Serialise);
      && Apply(Apply(serialised, Put(day)), Fail)
         == s.(storage := s.storage[key := Lines(Filter(Between(due[0].id, due[|due| - 1].id), s.table))])
      && Apply(serialised, Step.PutFails(day, left)) == s.(storage := s.storage[key := left])
      && Apply(serialised, Fail) == s
  {
  }

  /** The states of a purge: its selection, then one transaction per pending run. */
  function AfterPurges(s: State, n: nat): (s': State)
    requires s.phase.Purging? && Upcoming(s.runs, s.phase.pending) && n <= |s.phase.pending|
    ensures s'.phase == Purging(s.phase.pending[n..]) && |s'.runs| == |s.runs|
  {
    if n == 0 then s else Apply(AfterPurges(s, n - 1), PurgeOne)
  }

  /** They are what PurgeOldArchives leaves after as many transactions. */
  lemma {:induction false} AfterPurgesIsPurgeFirst(s: State, n: nat)
    requires s.phase.Purging? && Upcoming(s.runs, s.phase.pending) && n <= |s.phase.pending|
    ensures var (t, runs) := PurgeFirst(s.table, s.runs, s.phase.pending, n);
            AfterPurges(s, n) == s.(table := t, runs := runs, phase := Purging(s.phase.pending[n..]))
  {
    if n > 0 {
      AfterPurgesIsPurgeFirst(s, n - 1);
    }
  }

  /** A purge loop keeps the protocol's invariant whichever transaction it stops at. */
  lemma {:induction false} PurgeLoopKeepsInv(s: State, n: nat)
    requires Inv(s) && s.phase.Purging? && n <= |s.phase.pending|
    ensures Inv(AfterPurges(s, n))
  {
    if n > 0 {
      PurgeLoopKeepsInv(s, n - 1);
      PurgeKeepsInv(AfterPurges(s, n - 1));
    }
  }

  /** The purge marks exactly the runs it got to. */
  lemma {:induction false} PurgeMarks(t: seq<Row>, runs: seq<Run>, pending: seq<nat>, n: nat, k: nat)
    requires n <= |pending| && (forall i | 0 <= i < |pending| :: pending[i] < |runs|) && k < |runs|
    ensures PurgeFirst(t, runs, pending, n).1[k] == runs[k].(purged := runs[k].purged || k in pending[..n])
  {
    if n > 0 {
      PurgeMarks(t, runs, pending, n - 1, k);
      assert pending[..n] == pending[..n - 1] + [pending[n - 1]];
    }
  }
}
