/** How the verdicts of VerifyIncremental and VerifyTail relate to the verdict of VerifyDeep. */
module VerifierAgreement {
  import opened Wrappers
  import opened ChainHash
  import opened ChainSpec
  import opened AuditService

  /** Two different inputs with the same sha256. */
  ghost predicate Collision(env: Env, a: Bytes, b: Bytes) {
    a != b && env.sum(a) == env.sum(b)
  }

  // ---------- VerifyIncremental ----------

  /** The checkpoint is the empty seed, or names a row of the table together with that row's stored hash. */
  ghost predicate NamesRow(t: seq<Row>, c: Checkpoint) {
    var n := CountUpTo(t, c.lastVerifiedId);
    n <= |t| &&
    if n == 0 then c.lastVerifiedId == 0 && c.lastVerifiedHash == ""
    else t[n - 1].id == c.lastVerifiedId && t[n - 1].chainHash == c.lastVerifiedHash
  }

  /** From a checkpoint that names a row behind an intact prefix, the resumed scan finds what the full scan
      finds, also when the table is broken after the checkpoint. */
  lemma IncrementalAgreesWithDeep(h: RowHash, t: seq<Row>, c: Checkpoint)
    requires IsTable(t) && NamesRow(t, c)
    requires FirstBad(h, None, t) >= CountUpTo(t, c.lastVerifiedId)
    ensures Verdict(h, SeedOf(c), c.lastVerifiedId, RowsAfter(t, c.lastVerifiedId))
            == Verdict(h, None, 0, t).(total := |t| - CountUpTo(t, c.lastVerifiedId))
  {
    var n := CountUpTo(t, c.lastVerifiedId);
    CountSplits(t, c.lastVerifiedId);
    SeedIsPredecessor(h, t, c, n);
    VerdictOfSuffix(h, t, n, c.lastVerifiedId);
  }

  /** The two scans name the same first mismatch exactly when nothing at or before the checkpoint is broken. */
  lemma IncrementalAgreesExactly(h: RowHash, t: seq<Row>, c: Checkpoint)
    requires IsTable(t) && NamesRow(t, c)
    ensures Verdict(h, SeedOf(c), c.lastVerifiedId, RowsAfter(t, c.lastVerifiedId)).firstBadId
            == Verdict(h, None, 0, t).firstBadId
            <==> CountUpTo(t, c.lastVerifiedId) <= FirstBad(h, None, t)
  {
    var n, k := CountUpTo(t, c.lastVerifiedId), FirstBad(h, None, t);
    if n <= k {
      IncrementalAgreesWithDeep(h, t, c);
    } else {
      CountSplits(t, c.lastVerifiedId);
      ReportedIsBeyond(h, SeedOf(c), c.lastVerifiedId, t, n);
      assert 0 < t[k].id <= c.lastVerifiedId;
    }
  }

  /** What is reported about the rows from position n on is one of them, or nothing. */
  lemma ReportedIsBeyond(h: RowHash, seed: Option<Bytes>, base: int, t: seq<Row>, n: nat)
    requires n <= |t|
    ensures var id := Verdict(h, seed, base, t[n..]).firstBadId;
            id == 0 || exists i :: n <= i < |t| && t[i].id == id
  {
    var k := FirstBad(h, seed, t[n..]);
    if k < |t| - n {
      assert t[n + k] == t[n..][k];
    }
  }

  /** The verdict on the rows from position n on, chained to row n - 1, is the verdict on all rows. */
  lemma VerdictOfSuffix(h: RowHash, t: seq<Row>, n: nat, base: int)
    requires n <= |t| && n <= FirstBad(h, None, t) && base == (if n == 0 then 0 else t[n - 1].id)
    ensures Verdict(h, PrevOf(None, t, n), base, t[n..]) == Verdict(h, None, 0, t).(total := |t| - n)
  {
    FirstBadOfSuffix(h, None, t, n);
    VerdictOfRest(h, t, n, base, PrevOf(None, t, n), t[n..]);
  }

  lemma VerdictOfRest(h: RowHash, t: seq<Row>, n: nat, base: int, seed: Option<Bytes>, rest: seq<Row>)
    requires n <= |t| && seed == PrevOf(None, t, n) && rest == t[n..] && base == (if n == 0 then 0 else t[n - 1].id)
    requires FirstBad(h, seed, rest) + n == FirstBad(h, None, t)
    ensures Verdict(h, seed, base, rest) == Verdict(h, None, 0, t).(total := |t| - n)
  {
    VerdictAtSuffix(h, t, n, base, FirstBad(h, seed, rest));
  }

  lemma VerdictAtSuffix(h: RowHash, t: seq<Row>, n: nat, base: int, k: nat)
    requires n + k <= |t| && base == (if n == 0 then 0 else t[n - 1].id)
    ensures VerdictAt(h, PrevOf(None, t, n), base, t[n..], k) == VerdictAt(h, None, 0, t, n + k).(total := |t| - n)
  {
    var s := t[n..];
    if 0 < k {
      assert s[k - 1] == t[n + k - 1];
    }
    if k < |s| {
      assert s[k] == t[n + k];
      assert PrevOf(PrevOf(None, t, n), s, k) == PrevOf(None, t, n + k);
    }
  }

  lemma SeedIsPredecessor(h: RowHash, t: seq<Row>, c: Checkpoint, n: nat)
    requires NamesRow(t, c) && n == CountUpTo(t, c.lastVerifiedId) && n <= FirstBad(h, None, t)
    ensures SeedOf(c) == PrevOf(None, t, n)
  {
    if n > 0 {
      assert Good(h, None, t, n - 1);
      assert |t[n - 1].chainHash| == 32;
    }
  }

  /** On an intact table the scan moves the checkpoint to the last row and counts the rows in between. */
  lemma IntactAdvances(h: RowHash, t: seq<Row>, c: Checkpoint)
    requires IsTable(t) && NamesRow(t, c) && Intact(h, None, t)
    ensures var c' := Advance(c, c, ScanRows(h, Incremental, Resume(c), RowsAfter(t, c.lastVerifiedId)));
            && NamesRow(t, c')
            && CountUpTo(t, c'.lastVerifiedId) == |t|
            && c'.rowsVerifiedTotal - c.rowsVerifiedTotal == |t| - CountUpTo(t, c.lastVerifiedId)
  {
    IntactScan(h, t, c);
    var s := ScanRows(h, Incremental, Resume(c), RowsAfter(t, c.lastVerifiedId));
    AdvanceToEnd(t, c, s);
  }

  lemma AdvanceToEnd(t: seq<Row>, c: Checkpoint, s: Scan)
    requires IsTable(t) && NamesRow(t, c) && ScannedToEnd(t, c, s)
    ensures NamesRow(t, Advance(c, c, s)) && CountUpTo(t, Advance(c, c, s).lastVerifiedId) == |t|
    ensures Advance(c, c, s).rowsVerifiedTotal - c.rowsVerifiedTotal == |t| - CountUpTo(t, c.lastVerifiedId)
  {
    if CountUpTo(t, c.lastVerifiedId) < |t| {
      LastIsBeyond(t, c.lastVerifiedId);
      LastIsNamed(t, Advance(c, c, s));
    }
  }

  lemma LastIsNamed(t: seq<Row>, c: Checkpoint)
    requires t != [] && CountUpTo(t, t[|t| - 1].id) == |t|
    requires c.lastVerifiedId == t[|t| - 1].id && c.lastVerifiedHash == t[|t| - 1].chainHash
    ensures NamesRow(t, c)
  {
  }

  lemma LastIsBeyond(t: seq<Row>, id: int)
    requires IsTable(t) && CountUpTo(t, id) < |t|
    ensures id < t[|t| - 1].id && CountUpTo(t, t[|t| - 1].id) == |t|
  {
    CountSplits(t, id);
    RowsAfterIsSuffix(t, |t|, t[|t| - 1].id);
  }

  /** The variables of VerifyIncremental after it has read an intact table to the end. */
  ghost predicate ScannedToEnd(t: seq<Row>, c: Checkpoint, s: Scan) {
    && s.firstBad == 0 && s.total == |t| - CountUpTo(t, c.lastVerifiedId)
    && s.lastGood == (if CountUpTo(t, c.lastVerifiedId) == |t| then c.lastVerifiedId else t[|t| - 1].id)
    && s.prev == PrevOf(None, t, |t|)
  }

  lemma IntactVerdict(h: RowHash, seed: Option<Bytes>, base: int, t: seq<Row>)
    requires Intact(h, seed, t)
    ensures Verdict(h, seed, base, t) == Report(|t|, 0, if t == [] then base else t[|t| - 1].id, "", "")
  {
  }

  lemma IntactScan(h: RowHash, t: seq<Row>, c: Checkpoint)
    requires IsTable(t) && NamesRow(t, c) && Intact(h, None, t)
    ensures ScannedToEnd(t, c, ScanRows(h, Incremental, Resume(c), RowsAfter(t, c.lastVerifiedId)))
  {
    var n := CountUpTo(t, c.lastVerifiedId);
    CountSplits(t, c.lastVerifiedId);
    assert SeedOf(c) == PrevOf(None, t, n) by {
      SeedIsPredecessor(h, t, c, n);
    }
    IntactFold(h, t, n, c.lastVerifiedId);
  }

  lemma IntactFold(h: RowHash, t: seq<Row>, n: nat, base: int)
    requires IsTable(t) && n <= |t| && Intact(h, None, t)
    ensures var s := ScanRows(h, Incremental, StartScan(PrevOf(None, t, n), base), t[n..]);
            && ReportOf(s) == Report(|t| - n, 0, if n == |t| then base else t[|t| - 1].id, "", "")
            && s.prev == PrevOf(None, t, |t|)
  {
    var seed, rest := PrevOf(None, t, n), t[n..];
    forall i | 0 <= i < |rest|
      ensures Good(h, seed, rest, i)
    {
      assert Good(h, None, t, n + i);
    }
    IntactVerdict(h, seed, base, rest);
    FoldIsVerdict(h, Incremental, seed, base, rest);
  }

  /** On a table broken behind the checkpoint the checkpoint stays where it is. */
  lemma BrokenHolds(h: RowHash, t: seq<Row>, c: Checkpoint)
    requires IsTable(t) && NamesRow(t, c)
    requires CountUpTo(t, c.lastVerifiedId) <= FirstBad(h, None, t) < |t|
    ensures Advance(c, c, ScanRows(h, Incremental, Resume(c), RowsAfter(t, c.lastVerifiedId))) == c
  {
    CountSplits(t, c.lastVerifiedId);
    IncrementalAgreesWithDeep(h, t, c);
    ResumedVerdict(h, t, c);
  }

  // ---------- VerifyTail ----------

  /** The tail verdict is VerifyDeep's exactly when nothing before the anchor is broken. */
  lemma TailAgreesWithDeep(h: RowHash, t: seq<Row>, m: nat)
    requires IsTable(t) && m < |t| && t[m].chainPrev == PrevOf(None, t, m)
    ensures Verdict(h, t[m].chainPrev, 0, t[m..]).firstBadId == Verdict(h, None, 0, t).firstBadId
            <==> m <= FirstBad(h, None, t)
  {
    if FirstBad(h, None, t) < m {
      ReportedIsBeyond(h, t[m].chainPrev, 0, t, m);
    } else {
      var base := if m == 0 then 0 else t[m - 1].id;
      VerdictOfSuffix(h, t, m, base);
      BaseIsNotReported(h, t[m].chainPrev, base, 0, t[m..]);
    }
  }

  lemma BaseIsNotReported(h: RowHash, seed: Option<Bytes>, base: int, base': int, t: seq<Row>)
    ensures Verdict(h, seed, base, t).firstBadId == Verdict(h, seed, base', t).firstBadId
  {
  }

  /** Rewriting the anchor's chain_prev does not hide: an otherwise good anchor row is then reported,
      or the rewriting exhibits a hash collision. */
  lemma ForgedAnchorIsReported(env: Env, t: seq<Row>, m: nat)
    requires IsTable(t) && m < |t| && Good(RowHashOf(env), None, t, m)
    requires DerefStr(t[m].chainPrev) != DerefStr(PrevOf(None, t, m))
    ensures
      || Verdict(RowHashOf(env), t[m].chainPrev, 0, t[m..]).firstBadId == t[m].id
      || Collision(env, RowMaterial(env, t[m].chainPrev, t[m]), RowMaterial(env, PrevOf(None, t, m), t[m]))
  {
    var h, s, seed := RowHashOf(env), t[m..], t[m].chainPrev;
    PredecessorBinds(env, seed, PrevOf(None, t, m), t[m]);
    if !Collision(env, RowMaterial(env, seed, t[m]), RowMaterial(env, PrevOf(None, t, m), t[m])) {
      assert !Good(h, seed, s, 0);
      FirstBadUnique(h, seed, s, 0);
    }
  }

  /** Different predecessors give different bytes to hash. */
  lemma PredecessorBinds(env: Env, p: Option<Bytes>, q: Option<Bytes>, r: Row)
    ensures RowMaterial(env, p, r) == RowMaterial(env, q, r) <==> DerefStr(p) == DerefStr(q)
  {
    var b := Barred(RowFields(env, r)) + (DerefStr(r.targetId) + r.payload);
    if DerefStr(p) + b == DerefStr(q) + b {
      assert |DerefStr(p)| == |DerefStr(q)|;
      assert (DerefStr(p) + b)[..|DerefStr(p)|] == DerefStr(p);
      assert (DerefStr(q) + b)[..|DerefStr(q)|] == DerefStr(q);
    }
  }

  // ---------- a result set that breaks off ----------

  /** A tail scan that sees only the first k rows answers as if there were no others. */
  lemma CutOffVerdict(h: RowHash, seed: Option<Bytes>, t: seq<Row>, k: nat)
    requires IsTable(t) && k <= |t|
    ensures Verdict(h, seed, 0, t[..k]).firstBadId
            == if FirstBad(h, seed, t) < k then Verdict(h, seed, 0, t).firstBadId else 0
    ensures Verdict(h, seed, 0, t[..k]).firstBadId == Verdict(h, seed, 0, t).firstBadId
            <==> FirstBad(h, seed, t) < k || FirstBad(h, seed, t) == |t|
  {
    FirstBadOfPrefix(h, seed, t, k);
    var b := FirstBad(h, seed, t);
    assert b < |t| ==> t[b].id > 0;
  }
}
