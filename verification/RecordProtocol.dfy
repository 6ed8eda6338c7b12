/** Any number of Record transactions, interleaved statement by statement under the advisory lock. */
module RecordProtocol {
  import opened Wrappers
  import opened ChainHash
  import opened ChainSpec

  /** What a transaction has done so far. */
  datatype Phase =
    | Begun
    | Locked
    | PrevRead(prev: Option<Bytes>)
    | Inserted(row: Row, now: int)
    | Committed

  datatype Tx = Tx(entry: Entry, version: Version, phase: Phase)

  /** A Record call that committed: the caller's entry, the version that wrote the row, and the clock it read. */
  datatype Commit = Commit(entry: Entry, version: Version, now: int)

  /** `table` is what committed rows are visible, in id order; `nextId` is the id sequence, which no rollback
      winds back; `log` lists the commits in the order they happened. */
  datatype State = State(table: seq<Row>, nextId: int, holder: Option<int>, txs: map<int, Tx>, log: seq<Commit>)

  const INIT := State([], 1, None, map[], [])

  datatype Step =
    | Begin(tx: int, entry: Entry, version: Version)
    | Lock(tx: int)
    | ReadPrev(tx: int)
    | Insert(tx: int, now: int)
    | InsertFails(tx: int)
    | CommitTx(tx: int)
    | Release(tx: int)
    | Rollback(tx: int)

  predicate Enabled(s: State, step: Step) {
    match step
    case Begin(tx, e, _) => tx !in s.txs && e.platformId != NIL_UUID_TEXT && e.payload.Some?
    case Lock(tx) => tx in s.txs && s.txs[tx].phase.Begun? && s.holder == None
    case ReadPrev(tx) => tx in s.txs && s.txs[tx].phase.Locked?
    case Insert(tx, _) => tx in s.txs && s.txs[tx].phase.PrevRead? && s.txs[tx].entry.payload.Some?
    case InsertFails(tx) => tx in s.txs && s.txs[tx].phase.PrevRead?
    case CommitTx(tx) => tx in s.txs && s.txs[tx].phase.Inserted?
    case Release(tx) => tx in s.txs && s.txs[tx].phase.Committed?
    case Rollback(tx) => tx in s.txs && !s.txs[tx].phase.Committed?
  }

  /** A committed row shows up at its place in id order. */
  function InsertById(t: seq<Row>, row: Row): seq<Row> {
    var n := CountUpTo(t, row.id);
    t[..n] + [row] + t[n..]
  }

  function Unlock(s: State, tx: int): Option<int> {
    if s.holder == Some(tx) then None else s.holder
  }

  function Apply(env: Env, s: State, step: Step): State
    requires Enabled(s, step)
  {
    match step
    case Begin(tx, e, v) => s.(txs := s.txs[tx := Tx(e, v, Begun)])
    case Lock(tx) => s.(holder := Some(tx), txs := s.txs[tx := s.txs[tx].(phase := Locked)])
    case ReadPrev(tx) =>
      s.(txs := s.txs[tx := s.txs[tx].(phase := PrevRead(PrevOf(None, s.table, |s.table|)))])
    case Insert(tx, now) =>
      var row := StoredRow(env, s.txs[tx].version, s.nextId, s.txs[tx].phase.prev, now, s.txs[tx].entry);
      s.(nextId := s.nextId + 1, txs := s.txs[tx := s.txs[tx].(phase := Inserted(row, now))])
    case InsertFails(tx) => s.(nextId := s.nextId + 1, holder := Unlock(s, tx), txs := s.txs - {tx})
    case CommitTx(tx) =>
      var t := s.txs[tx];
      s.(table := InsertById(s.table, t.phase.row), txs := s.txs[tx := t.(phase := Committed)],
         log := s.log + [Commit(t.entry, t.version, t.phase.now)])
    case Release(tx) => s.(holder := Unlock(s, tx), txs := s.txs - {tx})
    case Rollback(tx) => s.(holder := Unlock(s, tx), txs := s.txs - {tx})
  }

  /** The table is what running the logged Records one after another writes, up to the ids they drew. */
  ghost predicate Serial(env: Env, t: seq<Row>, log: seq<Commit>) {
    |t| == |log| && forall i | 0 <= i < |t| :: SerialAt(env, t, log, i)
  }

  ghost predicate SerialAt(env: Env, t: seq<Row>, log: seq<Commit>, i: nat)
    requires i < |t| == |log|
  {
    && log[i].entry.payload.Some?
    && t[i] == StoredRow(env, log[i].version, t[i].id, PrevOf(None, t, i), log[i].now, log[i].entry)
  }

  ghost predicate TxOk(env: Env, s: State, tx: int)
    requires tx in s.txs
  {
    var t := s.txs[tx];
    && t.entry.payload.Some?
    && (!t.phase.Begun? ==> s.holder == Some(tx))
    && (t.phase.PrevRead? ==> t.phase.prev == PrevOf(None, s.table, |s.table|))
    && (t.phase.Inserted? ==>
         && t.phase.row == StoredRow(env, t.version, t.phase.row.id, PrevOf(None, s.table, |s.table|), t.phase.now, t.entry)
         && t.phase.row.id < s.nextId
         && 0 < t.phase.row.id
         && forall i | 0 <= i < |s.table| :: s.table[i].id < t.phase.row.id)
  }

  ghost predicate Inv(env: Env, s: State) {
    && IsTable(s.table) && 0 < s.nextId
    && (forall i | 0 <= i < |s.table| :: s.table[i].id < s.nextId)
    && Serial(env, s.table, s.log)
    && (forall tx | tx in s.txs :: TxOk(env, s, tx))
  }

  /** The table only ever grows at its end. */
  ghost predicate Appended(t: seq<Row>, t': seq<Row>) {
    || t' == t
    || (|t'| == |t| + 1 && t'[..|t|] == t && forall i | 0 <= i < |t| :: t[i].id < t'[|t|].id)
  }

  lemma CommitAppends(t: seq<Row>, row: Row)
    requires forall i | 0 <= i < |t| :: t[i].id < row.id
    ensures InsertById(t, row) == t + [row]
  {
    RowsAfterIsSuffix(t, |t|, row.id);
  }

  /** No step of any transaction breaks the invariant; the lock makes every commit an append. */
  lemma StepKeepsInv(env: Env, s: State, step: Step)
    requires Inv(env, s) && Enabled(s, step)
    ensures Inv(env, Apply(env, s, step)) && Appended(s.table, Apply(env, s, step).table)
  {
    TxsOk(env, s, step);
    TableOk(env, s, step);
  }

  lemma TxsOk(env: Env, s: State, step: Step)
    requires Inv(env, s) && Enabled(s, step)
    ensures var s' := Apply(env, s, step); forall x | x in s'.txs :: TxOk(env, s', x)
  {
    var s' := Apply(env, s, step);
    forall x | x in s'.txs
      ensures TxOk(env, s', x)
    {
      if step.tx == x {
        ActorOk(env, s, step);
      } else {
        assert x in s.txs;
        OthersOk(env, s, step, x);
      }
    }
  }

  lemma TableOk(env: Env, s: State, step: Step)
    requires Inv(env, s) && Enabled(s, step)
    ensures var s' := Apply(env, s, step);
            && IsTable(s'.table) && 0 < s'.nextId
            && (forall i | 0 <= i < |s'.table| :: s'.table[i].id < s'.nextId)
            && Serial(env, s'.table, s'.log) && Appended(s.table, s'.table)
  {
    if step.CommitTx? {
      assert TxOk(env, s, step.tx);
      CommitKeepsSerial(env, s, step.tx);
      CommitKeepsTable(env, s, step.tx);
    }
  }

  lemma CommitKeepsTable(env: Env, s: State, tx: int)
    requires Inv(env, s) && Enabled(s, CommitTx(tx))
    ensures var row := s.txs[tx].phase.row;
            && row.id < s.nextId && IsTable(s.table + [row])
            && forall i | 0 <= i < |s.table| :: s.table[i].id < row.id
  {
    assert TxOk(env, s, tx);
    AppendKeepsTable(s.table, s.txs[tx].phase.row);
  }

  /** The transaction that moves. */
  lemma ActorOk(env: Env, s: State, step: Step)
    requires Inv(env, s) && Enabled(s, step) && step.tx in Apply(env, s, step).txs
    ensures TxOk(env, Apply(env, s, step), step.tx)
  {
    assert step.tx in s.txs ==> TxOk(env, s, step.tx);
  }

  /** A transaction that stands still: whoever moved the table or the lock held the lock. */
  lemma OthersOk(env: Env, s: State, step: Step, x: int)
    requires Inv(env, s) && Enabled(s, step) && x in s.txs && x != step.tx
    ensures x in Apply(env, s, step).txs && TxOk(env, Apply(env, s, step), x)
  {
    assert TxOk(env, s, x);
    assert step.tx in s.txs ==> TxOk(env, s, step.tx);
    var s' := Apply(env, s, step);
    assert s'.txs[x] == s.txs[x];
    assert s'.table == s.table || s.txs[x].phase.Begun?;
  }

  lemma CommitKeepsSerial(env: Env, s: State, tx: int)
    requires Inv(env, s) && Enabled(s, CommitTx(tx))
    ensures var s' := Apply(env, s, CommitTx(tx));
            Serial(env, s'.table, s'.log) && s'.table == s.table + [s.txs[tx].phase.row]
  {
    var t := s.txs[tx];
    assert TxOk(env, s, tx);
    CommitAppends(s.table, t.phase.row);
    SerialExtends(env, s.table, s.log, t.phase.row, Commit(t.entry, t.version, t.phase.now));
  }

  lemma SerialExtends(env: Env, t: seq<Row>, log: seq<Commit>, row: Row, c: Commit)
    requires Serial(env, t, log) && c.entry.payload.Some?
    requires row == StoredRow(env, c.version, row.id, PrevOf(None, t, |t|), c.now, c.entry)
    ensures Serial(env, t + [row], log + [c])
  {
    var t', log' := t + [row], log + [c];
    forall i | 0 <= i < |t'|
      ensures SerialAt(env, t', log', i)
    {
      if i < |t| {
        SerialStays(env, t, log, row, c, i);
      } else {
        assert PrevOf(None, t', i) == PrevOf(None, t, i);
      }
    }
  }

  lemma SerialStays(env: Env, t: seq<Row>, log: seq<Commit>, row: Row, c: Commit, i: nat)
    requires i < |t| == |log| && SerialAt(env, t, log, i)
    ensures SerialAt(env, t + [row], log + [c], i)
  {
    assert PrevOf(None, t + [row], i) == PrevOf(None, t, i);
  }

  // ---------- whole runs ----------

  /** The states a run of enabled steps passes through. */
  ghost predicate IsRun(env: Env, states: seq<State>, steps: seq<Step>) {
    && |states| == |steps| + 1
    && forall i | 0 <= i < |steps| :: Enabled(states[i], steps[i]) && states[i + 1] == Apply(env, states[i], steps[i])
  }

  lemma {:induction false} RunKeepsInv(env: Env, states: seq<State>, steps: seq<Step>, n: nat)
    requires IsRun(env, states, steps) && states[0] == INIT && n < |states|
    ensures Inv(env, states[n])
  {
    if n > 0 {
      RunKeepsInv(env, states, steps, n - 1);
      assert states[n - 1 + 1] == Apply(env, states[n - 1], steps[n - 1]);
      StepKeepsInv(env, states[n - 1], steps[n - 1]);
    }
  }

  /** A serial table is one unforked chain; a row whose entry's address survives the database passes verification,
      and any other row passes only on a hash collision. */
  lemma SerialIsChain(env: Env, t: seq<Row>, log: seq<Commit>)
    requires Serial(env, t, log)
    ensures Linked(None, t)
    ensures forall i | 0 <= i < |t| && AddressStable(env, log[i].entry) :: Good(RowHashOf(env), None, t, i)
    ensures forall i | 0 <= i < |t| && !AddressStable(env, log[i].entry) && Good(RowHashOf(env), None, t, i) ::
      Clashes(env, t[i], log[i])
  {
    forall i | 0 <= i < |t|
      ensures LinkedAt(None, t, i)
    {
      assert SerialAt(env, t, log, i);
    }
    forall i | 0 <= i < |t|
      ensures AddressStable(env, log[i].entry) ==> Good(RowHashOf(env), None, t, i)
      ensures !AddressStable(env, log[i].entry) && Good(RowHashOf(env), None, t, i) ==>
        Clashes(env, t[i], log[i])
    {
      PassesExactly(env, t, log, i);
    }
  }

  /** The row's bytes as a reader sees them and as Record hashed them differ, but have the same digest. */
  ghost predicate Clashes(env: Env, row: Row, c: Commit) {
    && c.entry.payload.Some?
    && RowMaterial(env, row.chainPrev, row) != RecordMaterial(env, c.version, row.chainPrev, c.now, c.entry)
    && env.sum(RowMaterial(env, row.chainPrev, row)) == env.sum(RecordMaterial(env, c.version, row.chainPrev, c.now, c.entry))
  }

  /** A row of a serial table passes exactly when its address survives the database, or a collision hides that. */
  lemma PassesExactly(env: Env, t: seq<Row>, log: seq<Commit>, i: nat)
    requires Serial(env, t, log) && i < |t|
    ensures log[i].entry.payload.Some?
    ensures Good(RowHashOf(env), None, t, i) <==> AddressStable(env, log[i].entry) || Clashes(env, t[i], log[i])
  {
    assert SerialAt(env, t, log, i);
    WriteReadAgreement(env, log[i].version, t[i].id, PrevOf(None, t, i), log[i].now, log[i].entry);
  }

  /** In every interleaving, at every moment, whatever was recorded: the committed rows form one unforked chain, the
      one that running the committed Records one after another writes; and VerifyDeep accepts it exactly when every
      row whose address does not survive the database owes it to a collision. */
  lemma EveryInterleavingIsOneChain(env: Env, states: seq<State>, steps: seq<Step>, n: nat)
    requires IsRun(env, states, steps) && states[0] == INIT && n < |states|
    ensures var t, log := states[n].table, states[n].log;
            && IsTable(t) && Linked(None, t) && Serial(env, t, log)
            && (Verdict(RowHashOf(env), None, 0, t).firstBadId == 0 <==>
                 forall i | 0 <= i < |t| && !AddressStable(env, log[i].entry) :: Clashes(env, t[i], log[i]))
  {
    RunKeepsInv(env, states, steps, n);
    SerialIsChain(env, states[n].table, states[n].log);
    AcceptedExactly(env, states[n].table, states[n].log);
  }

  lemma AcceptedExactly(env: Env, t: seq<Row>, log: seq<Commit>)
    requires IsTable(t) && Serial(env, t, log)
    ensures Verdict(RowHashOf(env), None, 0, t).firstBadId == 0
            <==> forall i | 0 <= i < |t| && !AddressStable(env, log[i].entry) :: Clashes(env, t[i], log[i])
  {
    ZeroMeansIntact(RowHashOf(env), None, 0, t);
    forall i | 0 <= i < |t|
      ensures Good(RowHashOf(env), None, t, i) <==> AddressStable(env, log[i].entry) || Clashes(env, t[i], log[i])
    {
      PassesExactly(env, t, log, i);
    }
    var k := FirstBad(RowHashOf(env), None, t);
    assert k < |t| ==> !Good(RowHashOf(env), None, t, k);
  }

  /** In particular, while every recorded address survives, VerifyDeep accepts the chain in every interleaving. */
  lemma EveryInterleavingIsIntact(env: Env, states: seq<State>, steps: seq<Step>, n: nat)
    requires IsRun(env, states, steps) && states[0] == INIT && n < |states|
    requires forall i | 0 <= i < |states[n].log| :: AddressStable(env, states[n].log[i].entry)
    ensures Intact(RowHashOf(env), None, states[n].table)
    ensures Verdict(RowHashOf(env), None, 0, states[n].table).firstBadId == 0
  {
    RunKeepsInv(env, states, steps, n);
    SerialIsChain(env, states[n].table, states[n].log);
  }

  /** Every committed row, in every run, carries its caller's columns, and the clock its Record read to the microsecond. */
  lemma CommittedRows(env: Env, states: seq<State>, steps: seq<Step>, n: nat, i: nat)
    requires IsRun(env, states, steps) && states[0] == INIT && n < |states| && i < |states[n].table|
    ensures |states[n].log| == |states[n].table|
    ensures var r, e := states[n].table[i], states[n].log[i].entry;
            && 0 <= states[n].log[i].now - r.occurredAt * 1000 < 1000
            && (r.hashVersion == 2 <==> states[n].log[i].version == V2)
            && r.event == e.event && r.actorId == e.actorId
            && r.actorType == (if e.actorType == "" then "user" else e.actorType)
            && r.platformId == e.platformId && r.partnerId == e.partnerId && r.tenantId == e.tenantId
            && r.targetType == Some(e.targetType) && r.targetId == Some(e.targetId)
            && r.userAgent == (if e.userAgent == "" then None else Some(e.userAgent))
            && r.ip == (if e.ip.None? then None else Some(env.host(e.ip.value)))
            && Some(r.payload) == e.payload
  {
    RunKeepsInv(env, states, steps, n);
    assert SerialAt(env, states[n].table, states[n].log, i);
  }

  /** A transaction that breaks off, wherever it does, leaves no row, and the lock free if it held it. */
  lemma BrokenOffRecord(env: Env, s: State, tx: int)
    requires Enabled(s, Rollback(tx)) || Enabled(s, InsertFails(tx))
    ensures forall step | step in {Rollback(tx), InsertFails(tx)} && Enabled(s, step) ::
      var s' := Apply(env, s, step);
      && s'.table == s.table && s'.log == s.log && s'.txs == s.txs - {tx}
      && s'.holder == (if s.holder == Some(tx) then None else s.holder)
  {
  }

  /** A transaction that nothing interrupts does what the Record method does: one new row, the lock free again. */
  lemma UninterruptedRecord(env: Env, s: State, tx: int, e: Entry, v: Version, now: int)
    requires Inv(env, s) && s.holder == None && tx !in s.txs && e.platformId != NIL_UUID_TEXT && e.payload.Some?
    ensures var steps := [Begin(tx, e, v), Lock(tx), ReadPrev(tx), Insert(tx, now), CommitTx(tx), Release(tx)];
            After(env, s, steps) == Some(State(s.table + [NextRow(env, v, s.table, s.nextId, now, e)], s.nextId + 1, None,
                                               s.txs, s.log + [Commit(e, v, now)]))
  {
    var s1 := Apply(env, s, Begin(tx, e, v));
    var s2 := Apply(env, s1, Lock(tx));
    var s3 := Apply(env, s2, ReadPrev(tx));
    var s4 := Apply(env, s3, Insert(tx, now));
    CommitAppends(s.table, s4.txs[tx].phase.row);
    var s5 := Apply(env, s4, CommitTx(tx));
    var s6 := Apply(env, s5, Release(tx));
    assert s6.txs == s.txs;
    AfterStep(env, s, Begin(tx, e, v), [Lock(tx), ReadPrev(tx), Insert(tx, now), CommitTx(tx), Release(tx)]);
    AfterStep(env, s1, Lock(tx), [ReadPrev(tx), Insert(tx, now), CommitTx(tx), Release(tx)]);
    AfterStep(env, s2, ReadPrev(tx), [Insert(tx, now), CommitTx(tx), Release(tx)]);
    AfterStep(env, s3, Insert(tx, now), [CommitTx(tx), Release(tx)]);
    AfterStep(env, s4, CommitTx(tx), [Release(tx)]);
    AfterStep(env, s5, Release(tx), []);
    assert [Begin(tx, e, v)] + [Lock(tx), ReadPrev(tx), Insert(tx, now), CommitTx(tx), Release(tx)]
        == [Begin(tx, e, v), Lock(tx), ReadPrev(tx), Insert(tx, now), CommitTx(tx), Release(tx)];
    assert [Release(tx)] + [] == [Release(tx)];
  }

  /** The state after some steps, if they are enabled one after the other. */
  function After(env: Env, s: State, steps: seq<Step>): Option<State>
    decreases |steps|
  {
    if steps == [] then Some(s)
    else if Enabled(s, steps[0]) then After(env, Apply(env, s, steps[0]), steps[1..])
    else None
  }

  lemma AfterStep(env: Env, s: State, a: Step, rest: seq<Step>)
    requires Enabled(s, a)
    ensures After(env, s, [a] + rest) == After(env, Apply(env, s, a), rest)
  {
    assert ([a] + rest)[1..] == rest;
  }
}
