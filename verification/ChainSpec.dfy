/** What an intact chain is, and the in-order fold that every verifier performs over it. */
module ChainSpec {
  import opened Wrappers
  import opened ChainHash

  /** Rows in id order; ids are positive and strictly increasing. */
  ghost predicate IsTable(t: seq<Row>) {
    && (forall i | 0 <= i < |t| :: 0 < t[i].id)
    && (forall i, j | 0 <= i < j < |t| :: t[i].id < t[j].id)
  }

  /** The hash that row i is chained to, when the row before the first is `seed`. */
  function PrevOf(seed: Option<Bytes>, t: seq<Row>, i: nat): Option<Bytes>
    requires i <= |t|
  {
    if i == 0 then seed else Some(t[i - 1].chainHash)
  }

  /** Row i's stored hash is the one recomputed from the stored hash before it. */
  predicate Good(h: RowHash, seed: Option<Bytes>, t: seq<Row>, i: nat)
    requires i < |t|
  {
    t[i].chainHash == h(PrevOf(seed, t, i), t[i])
  }

  ghost predicate Intact(h: RowHash, seed: Option<Bytes>, t: seq<Row>) {
    forall i | 0 <= i < |t| :: Good(h, seed, t, i)
  }

  /** Every row's stored chain_prev is the stored hash before it. */
  ghost predicate Linked(seed: Option<Bytes>, t: seq<Row>) {
    forall i | 0 <= i < |t| :: LinkedAt(seed, t, i)
  }

  predicate LinkedAt(seed: Option<Bytes>, t: seq<Row>, i: nat)
    requires i < |t|
  {
    t[i].chainPrev == PrevOf(seed, t, i)
  }

  /** The position of the first mismatching row, or |t|. */
  function FirstBad(h: RowHash, seed: Option<Bytes>, t: seq<Row>): (k: nat)
    ensures k <= |t|
    ensures forall i | 0 <= i < k :: Good(h, seed, t, i)
    ensures k < |t| ==> !Good(h, seed, t, k)
  {
    if t == [] then 0
    else
      var init := t[..|t| - 1];
      assert forall i | 0 <= i < |init| :: Good(h, seed, init, i) <==> Good(h, seed, t, i);
      var k := FirstBad(h, seed, init);
      if k < |init| || !Good(h, seed, t, |init|) then k else |t|
  }

  /** What a verification run reports; hex renderings are left as bytes. */
  datatype Report = Report(total: nat, firstBadId: int, lastGoodId: int, expectedHash: Bytes, storedHash: Bytes)

  /** The report a correct verifier makes about rows `t` that follow hash `seed` at id `base`. */
  function Verdict(h: RowHash, seed: Option<Bytes>, base: int, t: seq<Row>): Report {
    VerdictAt(h, seed, base, t, FirstBad(h, seed, t))
  }

  /** The report when row k is the first mismatch, or k is |t|. */
  function VerdictAt(h: RowHash, seed: Option<Bytes>, base: int, t: seq<Row>, k: nat): Report
    requires k <= |t|
  {
    var lastGood := if k == 0 then base else t[k - 1].id;
    if k == |t| then Report(|t|, 0, lastGood, "", "")
    else Report(|t|, t[k].id, lastGood, h(PrevOf(seed, t, k), t[k]), t[k].chainHash)
  }

  /** Row i is the smallest mismatching row. */
  ghost predicate IsFirstBad(h: RowHash, seed: Option<Bytes>, t: seq<Row>, i: nat) {
    && i < |t| && !Good(h, seed, t, i)
    && forall j | 0 <= j < i :: Good(h, seed, t, j)
  }

  lemma FirstBadUnique(h: RowHash, seed: Option<Bytes>, t: seq<Row>, i: nat)
    requires IsFirstBad(h, seed, t, i)
    ensures FirstBad(h, seed, t) == i
  {
  }

  /** FirstBadID is 0 exactly on intact rows and otherwise the smallest mismatching id;
      LastGoodID names the row before it. */
  lemma VerdictMeaning(h: RowHash, seed: Option<Bytes>, base: int, t: seq<Row>, i: nat)
    requires IsTable(t) && i < |t|
    ensures var r := Verdict(h, seed, base, t);
            && r.total == |t|
            && (r.firstBadId == 0 <==> Intact(h, seed, t))
            && (r.firstBadId == t[i].id <==> IsFirstBad(h, seed, t, i))
            && (r.firstBadId == 0 ==> r.lastGoodId == t[|t| - 1].id)
            && (r.firstBadId == t[i].id ==> r.lastGoodId == if i == 0 then base else t[i - 1].id)
            && (r.firstBadId == 0 ==> r.expectedHash == "" && r.storedHash == "")
            && (r.firstBadId == t[i].id ==>
                 r.expectedHash == h(PrevOf(seed, t, i), t[i]) && r.storedHash == t[i].chainHash)
  {
    var k := FirstBad(h, seed, t);
    assert k < |t| ==> IsFirstBad(h, seed, t, k);
    if IsFirstBad(h, seed, t, i) {
      FirstBadUnique(h, seed, t, i);
    }
  }

  lemma ZeroMeansIntact(h: RowHash, seed: Option<Bytes>, base: int, t: seq<Row>)
    requires IsTable(t)
    ensures Verdict(h, seed, base, t).firstBadId == 0 <==> FirstBad(h, seed, t) == |t|
  {
  }

  lemma FirstBadOfPrefix(h: RowHash, seed: Option<Bytes>, t: seq<Row>, n: nat)
    requires n <= |t|
    ensures FirstBad(h, seed, t[..n]) == if FirstBad(h, seed, t) < n then FirstBad(h, seed, t) else n
  {
    var k, p := FirstBad(h, seed, t), t[..n];
    forall i | 0 <= i < n
      ensures Good(h, seed, p, i) <==> Good(h, seed, t, i)
    {
    }
    if k < n {
      FirstBadUnique(h, seed, p, k);
    } else {
      assert forall i | 0 <= i < n :: Good(h, seed, p, i);
    }
  }

  /** Judging the rows after position m against row m - 1's stored hash finds the first mismatch at or after m. */
  lemma FirstBadOfSuffix(h: RowHash, seed: Option<Bytes>, t: seq<Row>, m: nat)
    requires m <= |t| && FirstBad(h, seed, t) >= m
    ensures FirstBad(h, PrevOf(seed, t, m), t[m..]) + m == FirstBad(h, seed, t)
  {
    var s, seed' := t[m..], PrevOf(seed, t, m);
    forall i | 0 <= i < |s|
      ensures Good(h, seed', s, i) <==> Good(h, seed, t, m + i)
    {
    }
    var k' := FirstBad(h, seed', s);
    forall j | 0 <= j < m + k'
      ensures Good(h, seed, t, j)
    {
      if j >= m {
        assert Good(h, seed', s, j - m);
      }
    }
    if k' < |s| {
      FirstBadUnique(h, seed, t, m + k');
    }
  }

  // ---------- the last rows ----------

  ghost predicate GoodBetween(h: RowHash, t: seq<Row>, from: nat, to: nat)
    requires to <= |t|
  {
    forall j | from <= j < to :: Good(h, None, t, j)
  }

  /** On a table whose anchor row is linked to its predecessor, the tail verdict is the smallest mismatch from
      position m on. */
  lemma TailVerdict(h: RowHash, t: seq<Row>, m: nat, i: nat)
    requires IsTable(t) && m < |t| && t[m].chainPrev == PrevOf(None, t, m)
    requires m <= i < |t|
    ensures var bad := Verdict(h, t[m].chainPrev, 0, t[m..]).firstBadId;
            && (bad == 0 <==> GoodBetween(h, t, m, |t|))
            && (bad == t[i].id <==> !Good(h, None, t, i) && GoodBetween(h, t, m, i))
  {
    SuffixIsTable(t, m);
    TailIsZero(h, t, m, t[m].chainPrev, t[m..]);
    TailNames(h, t, m, i, t[m].chainPrev, t[m..]);
  }

  /** The id is 0 exactly when every row from position m on is good, and otherwise that of the first one that is not. */
  ghost predicate NamesFirstBad(h: RowHash, t: seq<Row>, m: nat, id: int)
    requires m <= |t|
  {
    && (id == 0 <==> GoodBetween(h, t, m, |t|))
    && (forall i | m <= i < |t| :: id == t[i].id <==> !Good(h, None, t, i) && GoodBetween(h, t, m, i))
  }

  lemma TailMeaning(h: RowHash, t: seq<Row>, m: nat)
    requires IsTable(t) && m < |t| && t[m].chainPrev == PrevOf(None, t, m)
    ensures NamesFirstBad(h, t, m, Verdict(h, t[m].chainPrev, 0, t[m..]).firstBadId)
  {
    var id := Verdict(h, t[m].chainPrev, 0, t[m..]).firstBadId;
    TailVerdict(h, t, m, m);
    forall i | m <= i < |t|
      ensures id == t[i].id <==> !Good(h, None, t, i) && GoodBetween(h, t, m, i)
    {
      TailVerdict(h, t, m, i);
    }
  }

  lemma WholeMeaning(h: RowHash, t: seq<Row>)
    requires IsTable(t)
    ensures NamesFirstBad(h, t, 0, Verdict(h, None, 0, t).firstBadId)
  {
    assert t[0..] == t;
    TailIsZero(h, t, 0, None, t);
    forall i | 0 <= i < |t|
      ensures Verdict(h, None, 0, t).firstBadId == t[i].id <==> !Good(h, None, t, i) && GoodBetween(h, t, 0, i)
    {
      TailNames(h, t, 0, i, None, t);
    }
  }

  lemma TailIsZero(h: RowHash, t: seq<Row>, m: nat, seed: Option<Bytes>, s: seq<Row>)
    requires IsTable(s) && m <= |t| && s == t[m..] && seed == PrevOf(None, t, m)
    ensures Verdict(h, seed, 0, s).firstBadId == 0 <==> GoodBetween(h, t, m, |t|)
  {
    ZeroMeansIntact(h, seed, 0, s);
    AllGood(h, seed, s);
    GoodFrom(h, seed, t, m, |t|);
  }

  lemma AllGood(h: RowHash, seed: Option<Bytes>, t: seq<Row>)
    ensures FirstBad(h, seed, t) == |t| <==> forall j | 0 <= j < |t| :: Good(h, seed, t, j)
  {
    var k := FirstBad(h, seed, t);
    assert k < |t| ==> !Good(h, seed, t, k);
  }

  lemma TailNames(h: RowHash, t: seq<Row>, m: nat, i: nat, seed: Option<Bytes>, s: seq<Row>)
    requires IsTable(s) && m <= i < |t| && s == t[m..] && seed == PrevOf(None, t, m)
    ensures Verdict(h, seed, 0, s).firstBadId == t[i].id <==> !Good(h, None, t, i) && GoodBetween(h, t, m, i)
  {
    assert s[i - m] == t[i];
    VerdictMeaning(h, seed, 0, s, i - m);
    FirstBadFrom(h, seed, t, m, i);
  }

  lemma FirstBadFrom(h: RowHash, seed: Option<Bytes>, t: seq<Row>, m: nat, i: nat)
    requires m <= i < |t| && seed == PrevOf(None, t, m)
    ensures IsFirstBad(h, seed, t[m..], i - m) <==> !Good(h, None, t, i) && GoodBetween(h, t, m, i)
  {
    GoodFrom(h, seed, t, m, i);
  }

  lemma SuffixIsTable(t: seq<Row>, m: nat)
    requires IsTable(t) && m <= |t|
    ensures IsTable(t[m..])
  {
  }

  lemma GoodFrom(h: RowHash, seed: Option<Bytes>, t: seq<Row>, m: nat, n: nat)
    requires m <= n <= |t| && seed == PrevOf(None, t, m)
    ensures (forall j | 0 <= j < n - m :: Good(h, seed, t[m..], j)) <==> GoodBetween(h, t, m, n)
    ensures n < |t| ==> (Good(h, seed, t[m..], n - m) <==> Good(h, None, t, n))
  {
    forall j | 0 <= j < |t| - m
      ensures Good(h, seed, t[m..], j) <==> Good(h, None, t, m + j)
    {
    }
    if forall j | 0 <= j < n - m :: Good(h, seed, t[m..], j) {
      forall j | m <= j < n
        ensures Good(h, None, t, j)
      {
        assert Good(h, seed, t[m..], j - m);
      }
    }
    if GoodBetween(h, t, m, n) {
      forall j | 0 <= j < n - m
        ensures Good(h, seed, t[m..], j)
      {
        assert Good(h, None, t, m + j);
      }
    }
  }

  // ---------- the fold ----------

  /** VerifyDeep carries every stored hash forward; VerifyIncremental stops doing so at the first mismatch. */
  datatype Mode = Deep | Incremental

  /** The variables of a verification loop. */
  datatype Scan = Scan(prev: Option<Bytes>, total: nat, lastGood: int, firstBad: int, lastId: int,
                       expected: Bytes, stored: Bytes)

  function StartScan(seed: Option<Bytes>, base: int): Scan {
    Scan(seed, 0, base, 0, base, "", "")
  }

  function ScanRow(h: RowHash, mode: Mode, s: Scan, r: Row): Scan {
    var want := h(s.prev, r);
    var mismatch := s.firstBad == 0 && want != r.chainHash;
    var firstBad := if mismatch then r.id else s.firstBad;
    Scan(if mode == Deep || firstBad == 0 then Some(r.chainHash) else s.prev,
         s.total + 1,
         if firstBad == 0 then r.id else s.lastGood,
         firstBad,
         r.id,
         if mismatch then want else s.expected,
         if mismatch then r.chainHash else s.stored)
  }

  function ScanRows(h: RowHash, mode: Mode, s: Scan, rows: seq<Row>): Scan {
    if rows == [] then s
    else ScanRow(h, mode, ScanRows(h, mode, s, rows[..|rows| - 1]), rows[|rows| - 1])
  }

  lemma ScanNext(h: RowHash, mode: Mode, s: Scan, rows: seq<Row>, n: nat)
    requires n < |rows|
    ensures ScanRows(h, mode, s, rows[..n + 1]) == ScanRow(h, mode, ScanRows(h, mode, s, rows[..n]), rows[n])
  {
    assert rows[..n + 1][..n] == rows[..n];
  }

  lemma {:induction false} ScanConcat(h: RowHash, mode: Mode, s: Scan, a: seq<Row>, b: seq<Row>)
    ensures ScanRows(h, mode, s, a + b) == ScanRows(h, mode, ScanRows(h, mode, s, a), b)
  {
    if b == [] {
      assert a + b == a;
    } else {
      assert (a + b)[..|a + b| - 1] == a + b[..|b| - 1];
      ScanConcat(h, mode, s, a, b[..|b| - 1]);
    }
  }

  function ReportOf(s: Scan): Report {
    Report(s.total, s.firstBad, s.lastGood, s.expected, s.stored)
  }

  /** What one more row does to a report. */
  function NextReport(v: Report, want: Digest, r: Row): Report {
    if v.firstBadId != 0 then v.(total := v.total + 1)
    else if want == r.chainHash then Report(v.total + 1, 0, r.id, v.expectedHash, v.storedHash)
    else Report(v.total + 1, r.id, v.lastGoodId, want, r.chainHash)
  }

  lemma VerdictNext(h: RowHash, seed: Option<Bytes>, base: int, t: seq<Row>, n: nat)
    requires IsTable(t) && n == |t| - 1
    ensures Verdict(h, seed, base, t) == NextReport(Verdict(h, seed, base, t[..n]), h(PrevOf(seed, t, n), t[n]), t[n])
  {
    var init := t[..n];
    var k := FirstBad(h, seed, init);
    assert k < |init| ==> t[k].id > 0 && PrevOf(seed, init, k) == PrevOf(seed, t, k);
  }

  lemma ScanRowNext(h: RowHash, mode: Mode, s: Scan, r: Row, prev: Option<Bytes>)
    requires r.id != 0 && (mode == Deep || s.firstBad == 0 ==> s.prev == prev)
    ensures var s' := ScanRow(h, mode, s, r);
            && ReportOf(s') == NextReport(ReportOf(s), h(prev, r), r)
            && (mode == Deep || s'.firstBad == 0 ==> s'.prev == Some(r.chainHash))
            && s'.lastId == r.id
  {
  }

  /** The fold computes the verdict, in either mode. */
  lemma {:induction false} FoldIsVerdict(h: RowHash, mode: Mode, seed: Option<Bytes>, base: int, t: seq<Row>)
    requires IsTable(t)
    ensures var s := ScanRows(h, mode, StartScan(seed, base), t);
            && ReportOf(s) == Verdict(h, seed, base, t)
            && s.lastId == (if t == [] then base else t[|t| - 1].id)
            && (mode == Deep || s.firstBad == 0 ==> s.prev == PrevOf(seed, t, |t|))
  {
    if t != [] {
      var n := |t| - 1;
      var before := ScanRows(h, mode, StartScan(seed, base), t[..n]);
      FoldIsVerdict(h, mode, seed, base, t[..n]);
      assert PrevOf(seed, t[..n], n) == PrevOf(seed, t, n);
      ScanRowNext(h, mode, before, t[n], PrevOf(seed, t, n));
      VerdictNext(h, seed, base, t, n);
    }
  }

  // ---------- keyset paging ----------

  /** `WHERE id > after ORDER BY id`. */
  function RowsAfter(t: seq<Row>, after: int): seq<Row> {
    if t == [] then []
    else if t[0].id > after then [t[0]] + RowsAfter(t[1..], after)
    else RowsAfter(t[1..], after)
  }

  /** `WHERE id > after ORDER BY id LIMIT limit`. */
  function PageAfter(t: seq<Row>, after: int, limit: nat): seq<Row> {
    var rows := RowsAfter(t, after);
    if |rows| <= limit then rows else rows[..limit]
  }

  /** `count(*) WHERE id <= upTo`. */
  function CountUpTo(t: seq<Row>, upTo: int): (n: nat)
    ensures n <= |t|
  {
    if t == [] then 0 else (if t[0].id <= upTo then 1 else 0) + CountUpTo(t[1..], upTo)
  }

  /** In an ordered table, the rows after the id at position n - 1 are the rows from position n on. */
  lemma {:induction false} RowsAfterIsSuffix(t: seq<Row>, n: nat, after: int)
    requires n <= |t|
    requires forall i | 0 <= i < n :: t[i].id <= after
    requires forall i | n <= i < |t| :: t[i].id > after
    ensures RowsAfter(t, after) == t[n..] && CountUpTo(t, after) == n
  {
    if t != [] {
      if n > 0 {
        RowsAfterIsSuffix(t[1..], n - 1, after);
      } else {
        RowsAfterIsSuffix(t[1..], 0, after);
        assert [t[0]] + t[1..] == t;
      }
    }
  }

  lemma {:induction false} CountSplits(t: seq<Row>, upTo: int)
    requires IsTable(t)
    ensures var n := CountUpTo(t, upTo);
            && n <= |t|
            && (forall i | 0 <= i < n :: t[i].id <= upTo)
            && (forall i | n <= i < |t| :: t[i].id > upTo)
            && RowsAfter(t, upTo) == t[n..]
  {
    if t != [] {
      CountSplits(t[1..], upTo);
      var n := CountUpTo(t, upTo);
      forall i | 0 <= i < n
        ensures t[i].id <= upTo
      {
        if i > 0 {
          assert t[i] == t[1..][i - 1];
        }
      }
      forall i | n <= i < |t|
        ensures t[i].id > upTo
      {
        if i > 0 {
          assert t[i] == t[1..][i - 1];
        }
      }
      RowsAfterIsSuffix(t, n, upTo);
    }
  }

  /** How many page queries of `chunk` rows it takes to see n rows and then a short page. */
  function Pages(n: nat, chunk: nat): nat
    requires 0 < chunk
  {
    if n < chunk then 1 else 1 + Pages(n - chunk, chunk)
  }

  lemma AppendKeepsTable(t: seq<Row>, row: Row)
    requires IsTable(t) && 0 < row.id && forall i | 0 <= i < |t| :: t[i].id < row.id
    ensures IsTable(t + [row])
  {
  }

  lemma ExtendIntact(h: RowHash, t: seq<Row>, row: Row)
    requires Intact(h, None, t) && row.chainHash == h(PrevOf(None, t, |t|), row)
    ensures Intact(h, None, t + [row])
  {
    var u := t + [row];
    forall i | 0 <= i < |u|
      ensures Good(h, None, u, i)
    {
      assert PrevOf(None, u, i) == PrevOf(None, t, i);
      assert i < |t| ==> Good(h, None, t, i);
    }
  }

  lemma ExtendLinked(t: seq<Row>, row: Row)
    requires Linked(None, t) && row.chainPrev == PrevOf(None, t, |t|)
    ensures Linked(None, t + [row])
  {
    var u := t + [row];
    forall i | 0 <= i < |u|
      ensures LinkedAt(None, u, i)
    {
      assert PrevOf(None, u, i) == PrevOf(None, t, i);
      assert i < |t| ==> LinkedAt(None, t, i);
    }
  }

  /** The row Record appends to a table it reads its predecessor from. */
  function NextRow(env: Env, v: Version, t: seq<Row>, id: int, now: int, e: Entry): Row
    requires e.payload.Some?
  {
    StoredRow(env, v, id, PrevOf(None, t, |t|), now, e)
  }

  /** Appending through Record keeps the links, and keeps the chain intact if the address text survives; whichever
      versions the rows before were written by. */
  lemma NextRowExtends(env: Env, v: Version, t: seq<Row>, id: int, now: int, e: Entry)
    requires e.payload.Some?
    ensures var t' := t + [NextRow(env, v, t, id, now, e)];
            && (AddressStable(env, e) && Intact(RowHashOf(env), None, t) ==> Intact(RowHashOf(env), None, t'))
            && (Linked(None, t) ==> Linked(None, t'))
  {
    var row := NextRow(env, v, t, id, now, e);
    WriteReadAgreement(env, v, id, PrevOf(None, t, |t|), now, e);
    assert RowHashOf(env)(PrevOf(None, t, |t|), row) == ComputeRowHash(env, PrevOf(None, t, |t|), row);
    if AddressStable(env, e) && Intact(RowHashOf(env), None, t) {
      ExtendIntact(RowHashOf(env), t, row);
    }
    if Linked(None, t) {
      ExtendLinked(t, row);
    }
  }
}
