/** What the three readers of the chain answer after rows have been deleted from an intact table. */
module PurgedReaders {
  import opened Wrappers
  import opened ChainHash
  import opened ChainSpec
  import opened AuditService
  import opened VerifierAgreement
  import opened TamperEvidence
  import opened Archive

  // ---------- the first gap ----------

  /** The first position from k on whose row is deleted, or |t|. */
  function FirstDropped(p: Row -> bool, t: seq<Row>, k: nat): (a: nat)
    requires k <= |t|
    ensures k <= a <= |t| && (a < |t| ==> !p(t[a]))
    ensures forall i | k <= i < a :: p(t[i])
    decreases |t| - k
  {
    if k < |t| && p(t[k]) then FirstDropped(p, t, k + 1) else k
  }

  /** The first position from k on whose row is retained, or |t|. */
  function FirstKept(p: Row -> bool, t: seq<Row>, k: nat): (b: nat)
    requires k <= |t|
    ensures k <= b <= |t| && (b < |t| ==> p(t[b]))
    ensures forall i | k <= i < b :: !p(t[i])
    decreases |t| - k
  {
    if k < |t| && !p(t[k]) then FirstKept(p, t, k + 1) else k
  }

  /** The first retained row from k on that lies above a deleted one, or |t|. */
  function GapEnd(p: Row -> bool, t: seq<Row>, k: nat): (b: nat)
    requires k <= |t|
    ensures FirstDropped(p, t, k) <= b <= |t|
    ensures b < |t| ==> FirstDropped(p, t, k) < b && p(t[b])
  {
    FirstKept(p, t, FirstDropped(p, t, k))
  }

  /** There is no such row exactly when everything deleted from k on lies above everything retained. */
  lemma NoGapExactly(p: Row -> bool, t: seq<Row>, k: nat)
    requires k <= |t|
    ensures GapEnd(p, t, k) == |t| <==> forall i, j | k <= i < j < |t| && p(t[j]) :: p(t[i])
  {
    var a, b := FirstDropped(p, t, k), GapEnd(p, t, k);
    if b == |t| {
      forall i, j | k <= i < j < |t| && p(t[j])
        ensures p(t[i])
      {
        assert j < a;
      }
    } else {
      assert k <= a < b < |t| && p(t[b]) && !p(t[a]);
    }
  }

  // ---------- hashing over the wrong predecessor ----------

  /** The bytes each row's hash covers. */
  function Materials(env: Env, t: seq<Row>): (m: seq<Bytes>)
    ensures |m| == |t|
  {
    seq(|t|, i requires 0 <= i < |t| => Hashed(env, t, i))
  }

  function Hashes(t: seq<Row>): (c: seq<Bytes>)
    ensures |c| == |t|
  {
    seq(|t|, i requires 0 <= i < |t| => t[i].chainHash)
  }

  lemma MaterialAndHash(env: Env, t: seq<Row>, i: nat)
    requires i < |t|
    ensures Materials(env, t)[i] == Hashed(env, t, i) && Hashes(t)[i] == t[i].chainHash
  {
  }

  /** Walks back from two positions in step to the last pair of different bytes. */
  function WalkBack(m: seq<Bytes>, a: nat, b: nat): Option<(Bytes, Bytes)>
    requires a < b < |m|
  {
    if m[a] != m[b] then Some((m[a], m[b]))
    else if a == 0 then None
    else WalkBack(m, a - 1, b - 1)
  }

  /** The bytes of row b over row a's predecessor and over its own; if they are the same, the two predecessors have
      the same stored hash, and the walk goes back from there. */
  function Clash(env: Env, t: seq<Row>, a: nat, b: nat): Option<(Bytes, Bytes)>
    requires a < b < |t|
  {
    if DerefStr(PrevOf(None, t, a)) != DerefStr(PrevOf(None, t, b)) || a == 0 then
      Some((RowMaterial(env, PrevOf(None, t, a), t[b]), RowMaterial(env, PrevOf(None, t, b), t[b])))
    else WalkBack(Materials(env, t), a - 1, b - 1)
  }

  /** A named pair of byte strings collides, or the bytes of the very first row begin with the stored hash of the
      row at b - a - 1: in a way no hash function can rule out, the chain has bitten its tail. */
  ghost predicate Deceived(env: Env, t: seq<Row>, a: nat, b: nat)
    requires a < b < |t|
  {
    Betrays(env.sum, Clash(env, t, a, b), t[b - a - 1].chainHash, Hashed(env, t, 0))
  }

  /** The pair is a collision; without one, the hash begins the bytes. */
  predicate Betrays(sum: Bytes -> Digest, w: Option<(Bytes, Bytes)>, hash: Bytes, first: Bytes) {
    match w
    case Some(pair) => pair.0 != pair.1 && sum(pair.0) == sum(pair.1)
    case None => hash <= first
  }

  /** Bytes and hashes as in an intact table: every hash is that of its bytes, which begin with the hash before. */
  ghost predicate Chained(sum: Bytes -> Digest, m: seq<Bytes>, c: seq<Bytes>) {
    && |m| == |c|
    && forall i | 0 <= i < |c| :: ChainedAt(sum, m, c, i)
  }

  predicate ChainedAt(sum: Bytes -> Digest, m: seq<Bytes>, c: seq<Bytes>, i: nat)
    requires i < |m| == |c|
  {
    c[i] == sum(m[i]) && (0 < i ==> c[i - 1] <= m[i])
  }

  lemma TableIsChained(env: Env, t: seq<Row>)
    requires Intact(RowHashOf(env), None, t)
    ensures Chained(env.sum, Materials(env, t), Hashes(t))
  {
    var m, c := Materials(env, t), Hashes(t);
    forall i | 0 <= i < |t|
      ensures ChainedAt(env.sum, m, c, i)
    {
      assert Good(RowHashOf(env), None, t, i);
      MaterialAndHash(env, t, i);
      if 0 < i {
        MaterialAndHash(env, t, i - 1);
        StartsWithPredecessor(env, t, i);
      }
    }
  }

  lemma StartsWithPredecessor(env: Env, t: seq<Row>, i: nat)
    requires 0 < i < |t|
    ensures t[i - 1].chainHash <= Hashed(env, t, i)
  {
  }

  /** Two equal hashes in a chain: walking back ends in two different byte strings with the same hash, or at the
      first bytes. */
  lemma {:induction false} RepeatedHash(sum: Bytes -> Digest, m: seq<Bytes>, c: seq<Bytes>, a: nat, b: nat)
    requires Chained(sum, m, c) && a < b < |m| && c[a] == c[b]
    ensures Betrays(sum, WalkBack(m, a, b), c[b - a - 1], m[0])
  {
    assert ChainedAt(sum, m, c, a) && ChainedAt(sum, m, c, b);
    if m[a] == m[b] && a > 0 {
      assert ChainedAt(sum, m, c, a - 1) && ChainedAt(sum, m, c, b - 1);
      var x, y: Digest := sum(m[a - 1]), sum(m[b - 1]);
      SameLengthPrefixes(x, y, m[a]);
      RepeatedHash(sum, m, c, a - 1, b - 1);
    }
  }

  lemma SameLengthPrefixes(x: Bytes, y: Bytes, s: Bytes)
    requires |x| == |y| && x <= s && y <= s
    ensures x == y
  {
  }

  lemma DifferentPredecessors(env: Env, p: Option<Bytes>, q: Option<Bytes>, r: Row)
    requires DerefStr(p) != DerefStr(q)
    requires ComputeRowHash(env, p, r) == r.chainHash == ComputeRowHash(env, q, r)
    ensures Collision(env, RowMaterial(env, p, r), RowMaterial(env, q, r))
  {
    PredecessorBinds(env, p, q, r);
  }

  /** A row of an intact table that passes over another row's predecessor deceives the reader. */
  lemma WrongPredecessor(env: Env, t: seq<Row>, a: nat, b: nat)
    requires Intact(RowHashOf(env), None, t) && a < b < |t|
    requires ComputeRowHash(env, PrevOf(None, t, a), t[b]) == t[b].chainHash
    ensures Deceived(env, t, a, b)
  {
    var p, q := PrevOf(None, t, a), PrevOf(None, t, b);
    assert ComputeRowHash(env, q, t[b]) == t[b].chainHash by {
      assert Good(RowHashOf(env), None, t, b);
    }
    if DerefStr(p) != DerefStr(q) {
      DifferentPredecessors(env, p, q, t[b]);
    } else {
      PredecessorLength(env, t, b);
      TableIsChained(env, t);
      SamePredecessors(env, t, a, b);
    }
  }

  lemma SamePredecessors(env: Env, t: seq<Row>, a: nat, b: nat)
    requires Chained(env.sum, Materials(env, t), Hashes(t)) && 0 < a < b < |t|
    requires DerefStr(PrevOf(None, t, a)) == DerefStr(PrevOf(None, t, b))
    ensures Deceived(env, t, a, b)
  {
    HashBefore(t, a);
    HashBefore(t, b);
    ClashWalks(env, t, a, b);
    WalkDeceives(env, t, a, b);
  }

  lemma WalkDeceives(env: Env, t: seq<Row>, a: nat, b: nat)
    requires Chained(env.sum, Materials(env, t), Hashes(t)) && 0 < a < b < |t|
    requires Hashes(t)[a - 1] == Hashes(t)[b - 1]
    ensures Betrays(env.sum, WalkBack(Materials(env, t), a - 1, b - 1), t[b - a - 1].chainHash, Hashed(env, t, 0))
  {
    RepeatedHash(env.sum, Materials(env, t), Hashes(t), a - 1, b - 1);
    MaterialAndHash(env, t, b - a - 1);
    MaterialAndHash(env, t, 0);
  }

  lemma PredecessorLength(env: Env, t: seq<Row>, i: nat)
    requires 0 < i <= |t| && Intact(RowHashOf(env), None, t)
    ensures |DerefStr(PrevOf(None, t, i))| == 32
  {
    assert Good(RowHashOf(env), None, t, i - 1);
  }

  lemma ClashWalks(env: Env, t: seq<Row>, a: nat, b: nat)
    requires 0 < a < b < |t| && DerefStr(PrevOf(None, t, a)) == DerefStr(PrevOf(None, t, b))
    ensures Clash(env, t, a, b) == WalkBack(Materials(env, t), a - 1, b - 1)
  {
  }

  lemma HashBefore(t: seq<Row>, i: nat)
    requires 0 < i <= |t|
    ensures DerefStr(PrevOf(None, t, i)) == Hashes(t)[i - 1]
  {
  }

  // ---------- a stretch of the table ----------

  lemma {:induction false} FilterKeeps(p: Row -> bool, rows: seq<Row>)
    requires forall i | 0 <= i < |rows| :: p(rows[i])
    ensures Filter(p, rows) == rows
  {
    if rows != [] {
      FilterKeeps(p, rows[..|rows| - 1]);
    }
  }

  lemma {:induction false} FilterDrops(p: Row -> bool, rows: seq<Row>)
    requires forall i | 0 <= i < |rows| :: !p(rows[i])
    ensures Filter(p, rows) == []
  {
    if rows != [] {
      FilterDrops(p, rows[..|rows| - 1]);
    }
  }

  /** What is retained from k on: everything up to the first deleted row, then everything from the gap's end on. */
  lemma RetainedParts(p: Row -> bool, t: seq<Row>, k: nat)
    requires k <= |t|
    ensures Filter(p, t[k..]) == t[k..FirstDropped(p, t, k)] + Filter(p, t[GapEnd(p, t, k)..])
  {
    var a, b := FirstDropped(p, t, k), GapEnd(p, t, k);
    ThreeStretches(t, k, a, b);
    FilterConcat(p, t[k..a], t[a..b] + t[b..]);
    FilterConcat(p, t[a..b], t[b..]);
    FilterKeeps(p, t[k..a]);
    FilterDrops(p, t[a..b]);
  }

  lemma ThreeStretches(t: seq<Row>, k: nat, a: nat, b: nat)
    requires k <= a <= b <= |t|
    ensures t[k..] == t[k..a] + (t[a..b] + t[b..])
  {
  }

  lemma RetainedHead(p: Row -> bool, t: seq<Row>, b: nat)
    requires b < |t| && p(t[b])
    ensures Filter(p, t[b..]) == [t[b]] + Filter(p, t[b + 1..])
  {
    assert t[b..] == [t[b]] + t[b + 1..];
    FilterConcat(p, [t[b]], t[b + 1..]);
    FilterKeeps(p, [t[b]]);
  }

  /** A reader that starts at position k of an intact table with the right predecessor, after the rows outside p
      have been deleted: it answers 0 if no retained row from k on lies above a deleted one, and otherwise names the
      first such row, unless it is deceived at that row. */
  ghost predicate Reports(env: Env, t: seq<Row>, p: Row -> bool, k: nat, id: int)
    requires k <= |t|
  {
    var a, b := FirstDropped(p, t, k), GapEnd(p, t, k);
    if b == |t| then id == 0 else id == t[b].id || Deceived(env, t, a, b)
  }

  lemma StretchIsGood(h: RowHash, t: seq<Row>, k: nat, a: nat, rest: seq<Row>)
    requires k <= a <= |t| && Intact(h, None, t)
    ensures var u := t[k..a] + rest;
            && (forall i | 0 <= i < a - k :: Good(h, PrevOf(None, t, k), u, i))
            && PrevOf(PrevOf(None, t, k), u, a - k) == PrevOf(None, t, a)
  {
    var u, seed := t[k..a] + rest, PrevOf(None, t, k);
    forall i | 0 <= i < a - k
      ensures Good(h, seed, u, i)
    {
      assert u[i] == t[k + i] && PrevOf(seed, u, i) == PrevOf(None, t, k + i);
      assert Good(h, None, t, k + i);
    }
  }

  lemma StretchVerdict(env: Env, t: seq<Row>, p: Row -> bool, k: nat, base: int)
    requires Intact(RowHashOf(env), None, t) && k <= |t|
    ensures Reports(env, t, p, k, Verdict(RowHashOf(env), PrevOf(None, t, k), base, Filter(p, t[k..])).firstBadId)
  {
    var a, b := FirstDropped(p, t, k), GapEnd(p, t, k);
    RetainedParts(p, t, k);
    if b == |t| {
      StretchIsGood(RowHashOf(env), t, k, a, []);
      IntactVerdict(RowHashOf(env), PrevOf(None, t, k), base, Filter(p, t[k..]));
    } else {
      RetainedHead(p, t, b);
      GapIsReported(env, t, k, a, b, base, Filter(p, t[b..]));
    }
  }

  /** Reading on from k to a and then from b, the reader names row b unless it is deceived. */
  lemma GapIsReported(env: Env, t: seq<Row>, k: nat, a: nat, b: nat, base: int, rest: seq<Row>)
    requires Intact(RowHashOf(env), None, t) && k <= a < b < |t| && rest != [] && rest[0] == t[b]
    ensures var id := Verdict(RowHashOf(env), PrevOf(None, t, k), base, t[k..a] + rest).firstBadId;
            id == t[b].id || Deceived(env, t, a, b)
  {
    if ComputeRowHash(env, PrevOf(None, t, a), t[b]) == t[b].chainHash {
      WrongPredecessor(env, t, a, b);
    } else {
      StopsAtGap(RowHashOf(env), t, k, a, b, base, rest);
    }
  }

  lemma StopsAtGap(h: RowHash, t: seq<Row>, k: nat, a: nat, b: nat, base: int, rest: seq<Row>)
    requires Intact(h, None, t) && k <= a < b < |t| && rest != [] && rest[0] == t[b]
    requires h(PrevOf(None, t, a), t[b]) != t[b].chainHash
    ensures Verdict(h, PrevOf(None, t, k), base, t[k..a] + rest).firstBadId == t[b].id
  {
    var seed, u := PrevOf(None, t, k), t[k..a] + rest;
    StretchIsGood(h, t, k, a, rest);
    assert u[a - k] == t[b];
    FirstBadUnique(h, seed, u, a - k);
  }

  // ---------- the three readers, whatever was deleted ----------

  lemma DeepAfterPurge(env: Env, t: seq<Row>, p: Row -> bool)
    requires Intact(RowHashOf(env), None, t)
    ensures Reports(env, t, p, 0, Verdict(RowHashOf(env), None, 0, Filter(p, t)).firstBadId)
  {
    assert t[0..] == t;
    StretchVerdict(env, t, p, 0, 0);
  }

  /** Deleting rows and reading on from an id commute. */
  lemma RowsAfterPurge(t: seq<Row>, p: Row -> bool, after: int)
    requires IsTable(t)
    ensures RowsAfter(Filter(p, t), after) == Filter(p, t[CountUpTo(t, after)..])
  {
    var n := CountUpTo(t, after);
    CountSplits(t, after);
    assert t == t[..n] + t[n..];
    ReadOnAcross(p, t[..n], t[n..], after);
  }

  lemma ReadOnAcross(p: Row -> bool, below: seq<Row>, above: seq<Row>, after: int)
    requires forall i | 0 <= i < |below| :: below[i].id <= after
    requires forall i | 0 <= i < |above| :: above[i].id > after
    ensures RowsAfter(Filter(p, below + above), after) == Filter(p, above)
  {
    var a, b := Filter(p, below), Filter(p, above);
    FilterConcat(p, below, above);
    FilterBounds(p, below, after);
    FilterBounds(p, above, after);
    RowsAfterIsSuffix(a + b, |a|, after);
  }

  lemma {:induction false} FilterBounds(p: Row -> bool, rows: seq<Row>, bound: int)
    ensures (forall i | 0 <= i < |rows| :: rows[i].id <= bound) ==>
              forall i | 0 <= i < |Filter(p, rows)| :: Filter(p, rows)[i].id <= bound
    ensures (forall i | 0 <= i < |rows| :: rows[i].id > bound) ==>
              forall i | 0 <= i < |Filter(p, rows)| :: Filter(p, rows)[i].id > bound
  {
    if rows != [] {
      var init := rows[..|rows| - 1];
      assert forall i | 0 <= i < |init| :: init[i] == rows[i];
      FilterBounds(p, init, bound);
    }
  }

  /** The checkpoint's own row may be among the deleted ones. */
  lemma IncrementalAfterPurge(env: Env, t: seq<Row>, p: Row -> bool, c: Checkpoint)
    requires IsTable(t) && Intact(RowHashOf(env), None, t) && NamesRow(t, c)
    ensures var rest := RowsAfter(Filter(p, t), c.lastVerifiedId);
            Reports(env, t, p, CountUpTo(t, c.lastVerifiedId),
                    Verdict(RowHashOf(env), SeedOf(c), c.lastVerifiedId, rest).firstBadId)
  {
    var n := CountUpTo(t, c.lastVerifiedId);
    RowsAfterPurge(t, p, c.lastVerifiedId);
    SeedIsPredecessor(RowHashOf(env), t, c, n);
    StretchVerdict(env, t, p, n, c.lastVerifiedId);
  }

  /** Where the last n retained rows begin. */
  function TailStart(p: Row -> bool, t: seq<Row>, n: nat): (k: nat)
    requires 0 < n <= |Filter(p, t)|
    ensures k < |t| && p(t[k]) && |Filter(p, t[k..])| == n
  {
    assert t != [] && t == [t[0]] + t[1..] && t[0..] == t;
    FilterConcat(p, [t[0]], t[1..]);
    assert Filter(p, [t[0]]) == if p(t[0]) then [t[0]] else [];
    if |Filter(p, t[1..])| < n then 0
    else
      var k := TailStart(p, t[1..], n);
      assert t[1..][k..] == t[k + 1..];
      k + 1
  }

  /** The position that VerifyTail starts from; a table with too few rows is read from the front. */
  function TailFrom(p: Row -> bool, t: seq<Row>, tail: int): (k: nat)
    ensures k <= |t|
  {
    if |Filter(p, t)| < TailLength(tail) then 0 else TailStart(p, t, TailLength(tail))
  }

  lemma TailAfterPurge(env: Env, t: seq<Row>, p: Row -> bool, tail: int)
    requires Intact(RowHashOf(env), None, t) && Linked(None, t)
    ensures Reports(env, t, p, TailFrom(p, t, tail), TailAnswer(RowHashOf(env), Filter(p, t), tail))
  {
    if |Filter(p, t)| < TailLength(tail) {
      DeepAfterPurge(env, t, p);
      ShortAnswer(RowHashOf(env), Filter(p, t), tail);
    } else {
      AnchoredAfterPurge(env, t, p, tail, TailStart(p, t, TailLength(tail)));
    }
  }

  lemma AnchoredAfterPurge(env: Env, t: seq<Row>, p: Row -> bool, tail: int, k: nat)
    requires Intact(RowHashOf(env), None, t) && Linked(None, t)
    requires k < |t| && p(t[k]) && |Filter(p, t[k..])| == TailLength(tail)
    ensures Reports(env, t, p, k, TailAnswer(RowHashOf(env), Filter(p, t), tail))
  {
    TailFromAnchor(RowHashOf(env), t, p, tail, k);
    assert LinkedAt(None, t, k);
    StretchVerdict(env, t, p, k, 0);
  }

  /** VerifyTail reads the retained rows from its anchor on. */
  lemma TailFromAnchor(h: RowHash, log: seq<Row>, p: Row -> bool, tail: int, k: nat)
    requires k < |log| && p(log[k]) && |Filter(p, log[k..])| == TailLength(tail)
    ensures TailAnswer(h, Filter(p, log), tail) == Verdict(h, log[k].chainPrev, 0, Filter(p, log[k..])).firstBadId
  {
    TailRows(p, log, TailLength(tail), k);
    LongAnswer(h, Filter(p, log), tail);
  }

  lemma ShortAnswer(h: RowHash, u: seq<Row>, tail: int)
    requires |u| < TailLength(tail)
    ensures TailAnswer(h, u, tail) == Verdict(h, None, 0, u).firstBadId
  {
  }

  lemma LongAnswer(h: RowHash, u: seq<Row>, tail: int)
    requires |u| >= TailLength(tail)
    ensures var n := TailLength(tail);
            TailAnswer(h, u, tail) == Verdict(h, u[|u| - n].chainPrev, 0, u[|u| - n..]).firstBadId
  {
  }

  lemma TailRows(p: Row -> bool, log: seq<Row>, n: nat, k: nat)
    requires k < |log| && p(log[k]) && |Filter(p, log[k..])| == n
    ensures var u := Filter(p, log);
            0 < n <= |u| && u[|u| - n..] == Filter(p, log[k..]) && u[|u| - n] == log[k]
  {
    assert log == log[..k] + log[k..];
    FilterConcat(p, log[..k], log[k..]);
    RetainedHead(p, log, k);
  }

  // ---------- one purged run ----------

  /** The positions that a run's id range takes up. */
  function RangeStart(t: seq<Row>, run: Run): nat {
    CountUpTo(t, run.from - 1)
  }

  function RangeEnd(t: seq<Row>, run: Run): nat {
    CountUpTo(t, run.to)
  }

  lemma {:induction false} CountIsMonotone(t: seq<Row>, lo: int, hi: int)
    requires lo <= hi
    ensures CountUpTo(t, lo) <= CountUpTo(t, hi)
  {
    if t != [] {
      CountIsMonotone(t[1..], lo, hi);
    }
  }

  lemma RangeIsStretch(t: seq<Row>, run: Run)
    requires IsTable(t) && run.from <= run.to
    ensures RangeStart(t, run) <= RangeEnd(t, run) <= |t|
    ensures forall i | 0 <= i < |t| :: Covers(run, t[i].id) <==> RangeStart(t, run) <= i < RangeEnd(t, run)
  {
    CountSplits(t, run.from - 1);
    CountSplits(t, run.to);
    CountIsMonotone(t, run.from - 1, run.to);
  }

  lemma FilterCut(p: Row -> bool, a: seq<Row>, b: seq<Row>, c: seq<Row>)
    requires Filter(p, a) == a && Filter(p, b) == [] && Filter(p, c) == c
    ensures Filter(p, a + (b + c)) == a + c
  {
    var bc := b + c;
    FilterConcat(p, b, c);
    assert Filter(p, bc) == c;
    FilterConcat(p, a, bc);
  }

  lemma KeptStretch(t: seq<Row>, run: Run, i: nat, j: nat)
    requires i <= j <= |t| && forall k | i <= k < j :: !Covers(run, t[k].id)
    ensures Filter(Beyond(run.from, run.to), t[i..j]) == t[i..j]
  {
    FilterKeeps(Beyond(run.from, run.to), t[i..j]);
  }

  lemma DroppedStretch(t: seq<Row>, run: Run, i: nat, j: nat)
    requires i <= j <= |t| && forall k | i <= k < j :: Covers(run, t[k].id)
    ensures Filter(Beyond(run.from, run.to), t[i..j]) == []
  {
    FilterDrops(Beyond(run.from, run.to), t[i..j]);
  }

  /** Deleting the range leaves, of the rows from k on, those before it and those behind it. */
  lemma PurgedParts(t: seq<Row>, run: Run, k: nat)
    requires IsTable(t) && run.from <= run.to && k <= RangeStart(t, run)
    ensures RangeStart(t, run) <= RangeEnd(t, run) <= |t|
    ensures Filter(Beyond(run.from, run.to), t[k..]) == t[k..RangeStart(t, run)] + t[RangeEnd(t, run)..]
  {
    RangeIsStretch(t, run);
    CutOut(t, run, k, RangeStart(t, run), RangeEnd(t, run));
  }

  lemma CutOut(t: seq<Row>, run: Run, k: nat, lo: nat, hi: nat)
    requires k <= lo <= hi <= |t|
    requires forall i | 0 <= i < |t| :: Covers(run, t[i].id) <==> lo <= i < hi
    ensures Filter(Beyond(run.from, run.to), t[k..]) == t[k..lo] + t[hi..]
  {
    KeptStretch(t, run, k, lo);
    DroppedStretch(t, run, lo, hi);
    KeptStretch(t, run, hi, |t|);
    assert t[hi..|t|] == t[hi..];
    ThreeStretches(t, k, lo, hi);
    FilterCut(Beyond(run.from, run.to), t[k..lo], t[lo..hi], t[hi..]);
  }

  /** Something was deleted, and something above it retained. */
  predicate LeavesGap(t: seq<Row>, run: Run) {
    RangeStart(t, run) < RangeEnd(t, run) < |t|
  }

  /** In a reader's view from before the range, the gap is the range itself. */
  lemma RangeGap(t: seq<Row>, run: Run, k: nat)
    requires IsTable(t) && run.from <= run.to && LeavesGap(t, run) && k <= RangeStart(t, run)
    ensures FirstDropped(Beyond(run.from, run.to), t, k) == RangeStart(t, run)
    ensures GapEnd(Beyond(run.from, run.to), t, k) == RangeEnd(t, run)
  {
    var p, lo, hi := Beyond(run.from, run.to), RangeStart(t, run), RangeEnd(t, run);
    RangeIsStretch(t, run);
    assert !p(t[lo]) && p(t[hi]);
  }

  /** A reader that starts behind the range sees no gap, and nobody does if the range leaves none. */
  lemma NoRangeGap(t: seq<Row>, run: Run, k: nat)
    requires IsTable(t) && run.from <= run.to && k <= |t|
    requires LeavesGap(t, run) ==> RangeEnd(t, run) <= k
    ensures GapEnd(Beyond(run.from, run.to), t, k) == |t|
  {
    RangeIsStretch(t, run);
    NoGapExactly(Beyond(run.from, run.to), t, k);
  }

  /** The answer to a purge: 0, or the first retained row behind the range unless the reader is deceived there. */
  ghost predicate Names(env: Env, t: seq<Row>, run: Run, id: int)
    requires LeavesGap(t, run)
  {
    id == t[RangeEnd(t, run)].id || Deceived(env, t, RangeStart(t, run), RangeEnd(t, run))
  }

  /** VerifyDeep on an intact table with one run's range deleted answers 0 exactly when no retained row lies above a
      deleted one, and otherwise names the first retained row behind the range. */
  lemma DeepReportsPurge(env: Env, t: seq<Row>, run: Run)
    requires IsTable(t) && Intact(RowHashOf(env), None, t) && run.from <= run.to
    ensures var id := Verdict(RowHashOf(env), None, 0, PurgedTable(t, run)).firstBadId;
            if LeavesGap(t, run) then Names(env, t, run, id) else id == 0
  {
    DeepAfterPurge(env, t, Beyond(run.from, run.to));
    if LeavesGap(t, run) {
      RangeGap(t, run, 0);
    } else {
      NoRangeGap(t, run, 0);
    }
  }

  /** A purge leaves the rows behind an id untouched exactly when it deletes none of them. */
  lemma IncrementalSurvivesPurge(t: seq<Row>, run: Run, after: int)
    requires IsTable(t)
    ensures RowsAfter(PurgedTable(t, run), after) == RowsAfter(t, after)
            <==> forall r | r in t && Covers(run, r.id) :: r.id <= after
  {
    var n := CountUpTo(t, after);
    RowsAfterPurge(t, Beyond(run.from, run.to), after);
    CountSplits(t, after);
    KeptWholeExactly(Beyond(run.from, run.to), t[n..]);
    AboveIsSuffix(t, after, n);
    NoneAbove(t, run, after, n);
  }

  lemma KeptWholeExactly(p: Row -> bool, rows: seq<Row>)
    ensures Filter(p, rows) == rows <==> forall r | r in rows :: p(r)
  {
    FilterAll(p, rows);
    if forall r | r in rows :: p(r) {
      FilterKeeps(p, rows);
    }
  }

  lemma NoneAbove(t: seq<Row>, run: Run, after: int, n: nat)
    requires n <= |t| && forall r :: r in t[n..] <==> r in t && r.id > after
    ensures (forall r | r in t[n..] :: Beyond(run.from, run.to)(r))
            <==> forall r | r in t && Covers(run, r.id) :: r.id <= after
  {
    assert forall r :: Beyond(run.from, run.to)(r) <==> !Covers(run, r.id);
  }

  lemma AboveIsSuffix(t: seq<Row>, after: int, n: nat)
    requires IsTable(t) && n <= |t|
    requires (forall i | 0 <= i < n :: t[i].id <= after) && (forall i | n <= i < |t| :: t[i].id > after)
    ensures forall r :: r in t[n..] <==> r in t && r.id > after
  {
    forall r
      ensures r in t[n..] <==> r in t && r.id > after
    {
      if r in t && r.id > after {
        var i :| 0 <= i < |t| && t[i] == r;
        assert t[n..][i - n] == r;
      }
    }
  }

  /** VerifyTail after a purge answers 0 exactly when it looks at no more rows than are retained above the range, or
      nothing retained lies above a deleted row; with more rows, also when it falls back to a full scan, it names the
      first retained row behind the range. */
  lemma TailSurvivesPurge(env: Env, t: seq<Row>, run: Run, tail: int)
    requires IsTable(t) && Intact(RowHashOf(env), None, t) && Linked(None, t) && run.from <= run.to
    ensures var id := TailAnswer(RowHashOf(env), PurgedTable(t, run), tail);
            if LeavesGap(t, run) && TailLength(tail) > |t| - RangeEnd(t, run) then Names(env, t, run, id) else id == 0
  {
    TailAfterPurge(env, t, Beyond(run.from, run.to), tail);
    TailAndRange(t, run, tail);
    if LeavesGap(t, run) && TailLength(tail) > |t| - RangeEnd(t, run) {
      RangeGap(t, run, TailFrom(Beyond(run.from, run.to), t, tail));
    } else {
      NoRangeGap(t, run, TailFrom(Beyond(run.from, run.to), t, tail));
    }
  }

  /** VerifyTail starts behind the range exactly when it looks at no more rows than are retained there. */
  lemma TailAndRange(t: seq<Row>, run: Run, tail: int)
    requires IsTable(t) && run.from <= run.to
    ensures var k := TailFrom(Beyond(run.from, run.to), t, tail);
            LeavesGap(t, run) ==>
              if TailLength(tail) <= |t| - RangeEnd(t, run) then RangeEnd(t, run) <= k else k <= RangeStart(t, run)
  {
    var p, n := Beyond(run.from, run.to), TailLength(tail);
    assert t[0..] == t;
    PurgedParts(t, run, 0);
    if |Filter(p, t)| >= n {
      var k := TailStart(p, t, n);
      RangeIsStretch(t, run);
      if k < RangeStart(t, run) {
        PurgedParts(t, run, k);
      } else {
        FilterKeeps(p, t[k..]);
      }
    }
  }

  // ---------- every state the archiver reaches ----------

  /** Some purged id lies below a retained row. */
  ghost predicate PurgedBelowRetained(s: State) {
    exists i, j :: 0 <= i < j < |s.log| && IsPurged(s.runs, s.log[i].id) && !IsPurged(s.runs, s.log[j].id)
  }

  /** In every run, whatever has been archived and purged: as long as the history itself is intact, VerifyDeep answers
      0 on the table exactly when no retained row lies above a purged one, and otherwise names the first that does. */
  lemma DeepOnReachableTables(env: Env, states: seq<State>, steps: seq<Step>, n: nat)
    requires IsRun(states, steps) && n < |states| && Intact(RowHashOf(env), None, states[n].log)
    ensures var s := states[n];
            var id := Verdict(RowHashOf(env), None, 0, s.table).firstBadId;
            && Reports(env, s.log, Kept(s.runs), 0, id)
            && (GapEnd(Kept(s.runs), s.log, 0) == |s.log| <==> !PurgedBelowRetained(s))
  {
    RunKeepsInv(states, steps, n);
    var s := states[n];
    DeepAfterPurge(env, s.log, Kept(s.runs));
    NoGapExactly(Kept(s.runs), s.log, 0);
    assert forall r :: Kept(s.runs)(r) <==> !IsPurged(s.runs, r.id);
  }
}
