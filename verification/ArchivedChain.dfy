/** What an archive object still says about the chain: its lines, read back and verified on their own. */
module ArchivedChain {
  import opened Wrappers
  import opened ChainHash
  import opened ChainSpec
  import opened Archive
  import opened PurgedReaders

  /** The row a line stands for, given the three columns it leaves out; an empty chain_prev is read as none. */
  function RowOf(l: Line, actorId: Option<Uuid>, userAgent: Option<string>, hashVersion: int): Row {
    Row(l.id, l.event, l.actorType, actorId, l.ip, userAgent, l.platformId, l.partnerId, l.tenantId, l.targetType,
        l.targetId, l.payload, if l.chainPrev == "" then None else Some(l.chainPrev), l.chainHash, l.occurredAt, hashVersion)
  }

  /** A line and the three columns give the row back, a predecessor of no bytes and none identified. */
  lemma LineReadsBack(r: Row)
    ensures RowOf(LineOf(r), r.actorId, r.userAgent, r.hashVersion)
            == r.(chainPrev := if r.chainPrev == Some("") then None else r.chainPrev)
  {
  }

  /** The bytes that a line's chain_hash covers, over the line's own chain_prev, written out. */
  function LineBytes(env: Env, l: Line, actorId: Option<Uuid>, userAgent: Option<string>, hashVersion: int): Bytes {
    l.chainPrev
    + (if hashVersion == 2 then "v2|" + env.format(l.occurredAt * 1000) + "|" else "")
    + l.event + "|" + l.actorType + "|" + (if actorId.Some? then actorId.value else "") + "|"
    + (if l.ip.Some? then l.ip.value else "") + "|" + (if userAgent.Some? then userAgent.value else "") + "|"
    + l.platformId + "|" + (if l.partnerId.Some? then l.partnerId.value else "<nil>") + "|"
    + (if l.tenantId.Some? then l.tenantId.value else "<nil>") + "|"
    + (if l.targetType.Some? then l.targetType.value else "") + "|"
    + ((if l.targetId.Some? then l.targetId.value else "") + l.payload)
  }

  /** They are the bytes that the row's hash covers. */
  lemma LineHasRowBytes(env: Env, r: Row)
    ensures LineBytes(env, LineOf(r), r.actorId, r.userAgent, r.hashVersion) == RowMaterial(env, r.chainPrev, r)
  {
    RowIsWrittenOut(env, r.chainPrev, r);
  }

  /** An id range of a table is a stretch of it. */
  lemma RangeOfTable(t: seq<Row>, run: Run)
    requires IsTable(t) && run.from <= run.to
    ensures RangeStart(t, run) <= RangeEnd(t, run) <= |t|
    ensures Filter(Between(run.from, run.to), t) == t[RangeStart(t, run)..RangeEnd(t, run)]
  {
    var lo, hi := RangeStart(t, run), RangeEnd(t, run);
    RangeIsStretch(t, run);
    OutsideDropped(t, run, 0, lo);
    OutsideDropped(t, run, hi, |t|);
    InsideKept(t, run, lo, hi);
    Middle(t, lo, hi);
    FilterMiddle(Between(run.from, run.to), t[0..lo], t[lo..hi], t[hi..|t|]);
  }

  lemma Middle(t: seq<Row>, lo: nat, hi: nat)
    requires lo <= hi <= |t|
    ensures t == t[0..lo] + (t[lo..hi] + t[hi..|t|])
  {
  }

  lemma FilterMiddle(p: Row -> bool, a: seq<Row>, b: seq<Row>, c: seq<Row>)
    requires Filter(p, a) == [] && Filter(p, b) == b && Filter(p, c) == []
    ensures Filter(p, a + (b + c)) == b
  {
    var bc := b + c;
    FilterConcat(p, b, c);
    FilterConcat(p, a, bc);
  }

  lemma OutsideDropped(t: seq<Row>, run: Run, i: nat, j: nat)
    requires i <= j <= |t| && forall k | i <= k < j :: !Covers(run, t[k].id)
    ensures Filter(Between(run.from, run.to), t[i..j]) == []
  {
    FilterDrops(Between(run.from, run.to), t[i..j]);
  }

  lemma InsideKept(t: seq<Row>, run: Run, i: nat, j: nat)
    requires i <= j <= |t| && forall k | i <= k < j :: Covers(run, t[k].id)
    ensures Filter(Between(run.from, run.to), t[i..j]) == t[i..j]
  {
    FilterKeeps(Between(run.from, run.to), t[i..j]);
  }

  /** With the row's three dropped columns the line is the row again, and its chain_hash is that of its own bytes. */
  ghost predicate Verifies(env: Env, r: Row, l: Line) {
    && r == RowOf(l, r.actorId, r.userAgent, r.hashVersion)
    && l.chainHash == env.sum(LineBytes(env, l, r.actorId, r.userAgent, r.hashVersion))
  }

  /** In every run over an intact, linked history, the lines of a recorded object verify row by row, and each line's
      chain_prev is the chain_hash of the line before it, for the first line that of the row before the range. */
  lemma ObjectVerifies(env: Env, states: seq<State>, steps: seq<Step>, n: nat, i: nat, k: nat)
    requires IsRun(states, steps) && n < |states| && i < |states[n].runs|
    requires Intact(RowHashOf(env), None, states[n].log) && Linked(None, states[n].log)
    requires states[n].runs[i].key in states[n].storage ==> k < |states[n].storage[states[n].runs[i].key]|
    ensures states[n].runs[i].key in states[n].storage
    ensures var log, lines, lo := states[n].log, states[n].storage[states[n].runs[i].key], RangeStart(states[n].log, states[n].runs[i]);
            && lo + k < |log|
            && Verifies(env, log[lo + k], lines[k])
            && lines[k].chainPrev == (if k > 0 then lines[k - 1].chainHash else DerefStr(PrevOf(None, log, lo)))
  {
    RunKeepsInv(states, steps, n);
    var s := states[n];
    assert RunOk(s.log, s.storage, s.runs[i]) && s.runs[i].from <= s.runs[i].to;
    RecordedObjectVerifies(env, s.log, s.storage, s.runs[i], k);
  }

  lemma RecordedObjectVerifies(env: Env, log: seq<Row>, storage: map<Key, seq<Line>>, run: Run, k: nat)
    requires IsTable(log) && Intact(RowHashOf(env), None, log) && Linked(None, log)
    requires RunOk(log, storage, run) && run.from <= run.to && k < |storage[run.key]|
    ensures RangeStart(log, run) + k < |log|
    ensures Verifies(env, log[RangeStart(log, run) + k], storage[run.key][k])
    ensures storage[run.key][k].chainPrev
            == (if k > 0 then storage[run.key][k - 1].chainHash else DerefStr(PrevOf(None, log, RangeStart(log, run))))
  {
    RangeOfTable(log, run);
    StretchVerifies(env, log, RangeStart(log, run), RangeEnd(log, run), storage[run.key], k);
  }

  lemma StretchVerifies(env: Env, log: seq<Row>, lo: nat, hi: nat, lines: seq<Line>, k: nat)
    requires Intact(RowHashOf(env), None, log) && Linked(None, log)
    requires lo <= hi <= |log| && lines == Lines(log[lo..hi]) && k < |lines|
    ensures Verifies(env, log[lo + k], lines[k])
    ensures lines[k].chainPrev == (if k > 0 then lines[k - 1].chainHash else DerefStr(PrevOf(None, log, lo)))
  {
    LinesLink(log, lo, hi, lines, k);
    RowVerifies(env, log, lo + k);
  }

  lemma LinesLink(log: seq<Row>, lo: nat, hi: nat, lines: seq<Line>, k: nat)
    requires Linked(None, log) && lo <= hi <= |log| && lines == Lines(log[lo..hi]) && k < |lines|
    ensures lines[k] == LineOf(log[lo + k])
    ensures lines[k].chainPrev == (if k > 0 then lines[k - 1].chainHash else DerefStr(PrevOf(None, log, lo)))
  {
    assert log[lo..hi][k] == log[lo + k];
    assert k > 0 ==> log[lo..hi][k - 1] == log[lo + k - 1];
    assert LinkedAt(None, log, lo + k);
  }

  lemma RowVerifies(env: Env, log: seq<Row>, i: nat)
    requires Intact(RowHashOf(env), None, log) && Linked(None, log) && i < |log|
    ensures Verifies(env, log[i], LineOf(log[i]))
  {
    assert Good(RowHashOf(env), None, log, i) && LinkedAt(None, log, i);
    LineHasRowBytes(env, log[i]);
    LineReadsBack(log[i]);
    PredecessorIsDigest(env, log, i);
  }

  lemma PredecessorIsDigest(env: Env, log: seq<Row>, i: nat)
    requires Intact(RowHashOf(env), None, log) && i <= |log|
    ensures PrevOf(None, log, i) != Some("")
  {
    if i > 0 {
      assert Good(RowHashOf(env), None, log, i - 1);
    }
  }
}
