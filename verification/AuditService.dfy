/** Record and the three readers of the chain, over the audit tables. */
module AuditService {
  import opened Wrappers
  import opened ChainHash
  import opened ChainSpec

  /** The page size that the program uses; the results hold for every positive one. */
  const VERIFY_DEEP_CHUNK_SIZE := 10_000
  const DEFAULT_TAIL := 256

  /** One row of audit_chain_breaks. */
  datatype Break = Break(firstBadId: int, lastGoodId: int)

  /** The single row of audit_chain_verification_checkpoints. */
  datatype Checkpoint = Checkpoint(lastVerifiedId: int, lastVerifiedHash: Bytes, rowsVerifiedTotal: int)

  /** The seed that migration 0062 inserts. */
  const EMPTY_CHECKPOINT := Checkpoint(0, "", 0)

  /** The empty-bytes seed means no predecessor. */
  function SeedOf(c: Checkpoint): Option<Bytes> {
    if c.lastVerifiedHash == "" then None else Some(c.lastVerifiedHash)
  }

  /** The state VerifyIncremental resumes from. */
  function Resume(c: Checkpoint): Scan {
    StartScan(SeedOf(c), c.lastVerifiedId)
  }

  /** The conditional UPDATE at the end of VerifyIncremental: `read` is the checkpoint read at the start,
      `current` the one the UPDATE finds. */
  function Advance(current: Checkpoint, read: Checkpoint, s: Scan): Checkpoint {
    if s.firstBad == 0 && s.lastGood > read.lastVerifiedId && s.prev.Some?
       && current.lastVerifiedId <= read.lastVerifiedId
    then Checkpoint(s.lastGood, s.prev.value, current.rowsVerifiedTotal + s.total)
    else current
  }

  /** How far the statements of one Record get; a rolled-back insert still consumes an id. */
  datatype Reached = Nothing | Began | Locked | PrevRead | Inserted | Committed

  // ---------- the verification loops ----------

  /** The row loop over one page. */
  method ScanPage(h: RowHash, mode: Mode, start: Scan, page: seq<Row>) returns (s: Scan)
    ensures s == ScanRows(h, mode, start, page)
  {
    var prev, total, lastGood, firstBad := start.prev, start.total, start.lastGood, start.firstBad;
    var lastId, expected, stored := start.lastId, start.expected, start.stored;
    for i := 0 to |page|
      invariant Scan(prev, total, lastGood, firstBad, lastId, expected, stored) == ScanRows(h, mode, start, page[..i])
    {
      var row := page[i];
      total := total + 1;
      lastId := row.id;
      var want := h(prev, row);
      if firstBad == 0 && want != row.chainHash {
        firstBad := row.id;
        expected, stored := want, row.chainHash;
      }
      if firstBad == 0 {
        lastGood := row.id;
      }
      if mode == Deep || firstBad == 0 {
        prev := Some(row.chainHash);
      }
      ScanNext(h, mode, start, page, i);
    }
    assert page[..|page|] == page;
    s := Scan(prev, total, lastGood, firstBad, lastId, expected, stored);
  }

  /** One page query and its rows: a short page ends the scan, a full one leads on to the next page. */
  method ReadPage(h: RowHash, mode: Mode, start: Scan, table: seq<Row>, s: Scan, chunk: nat,
                  ghost rest: seq<Row>, ghost done: nat)
    returns (s': Scan, rows: nat)
    requires IsTable(table) && 0 < chunk && ReadUpTo(h, mode, start, table, rest, done, s)
    ensures if rows < chunk then s' == ScanRows(h, mode, start, rest) && |rest| - done < chunk
            else ReadUpTo(h, mode, start, table, rest, done + chunk, s') && chunk <= |rest| - done
  {
    var page := PageAfter(table, s.lastId, chunk);
    NextPage(h, mode, start, table, rest, done, s, chunk);
    s' := ScanPage(h, mode, s, page);
    rows := |page|;
  }

  /** The page loop: keyset pages of `chunk` rows until a short page. `queries` page queries succeed before
      the context dies or the database fails. */
  method ScanPages(h: RowHash, mode: Mode, start: Scan, table: seq<Row>, chunk: nat, queries: nat)
    returns (r: Result<Scan, string>)
    requires IsTable(table) && 0 < chunk
    ensures r.Ok? <==> Pages(|RowsAfter(table, start.lastId)|, chunk) <= queries
    ensures r.Ok? ==> r.value == ScanRows(h, mode, start, RowsAfter(table, start.lastId))
  {
    var s := start;
    var pages := 0;
    ghost var rest := RowsAfter(table, start.lastId);
    ghost var done := 0;
    assert ReadUpTo(h, mode, start, table, rest, 0, s) by {
      assert rest[..0] == [];
    }
    while true
      invariant pages <= queries && ReadUpTo(h, mode, start, table, rest, done, s)
      invariant ReadSoFar(pages, |rest|, done, chunk)
      decreases |rest| - done
    {
      if pages == queries {
        return Err("context cancelled or query failed");
      }
      var rows: nat;
      NextQuery(pages, |rest|, done, chunk);
      s, rows := ReadPage(h, mode, start, table, s, chunk, rest, done);
      pages := pages + 1;
      if rows < chunk {
        return Ok(s);
      }
      done := done + chunk;
    }
  }

  /** The row loop of VerifyTail, which stops at the first mismatch. */
  method ScanTail(h: RowHash, anchor: Option<Bytes>, rows: seq<Row>) returns (bad: int)
    ensures bad == Verdict(h, anchor, 0, rows).firstBadId
  {
    var prev := anchor;
    for i := 0 to |rows|
      invariant prev == PrevOf(anchor, rows, i)
      invariant forall j | 0 <= j < i :: Good(h, anchor, rows, j)
    {
      var want := h(prev, rows[i]);
      if want != rows[i].chainHash {
        FirstBadUnique(h, anchor, rows, i);
        return rows[i].id;
      }
      prev := Some(rows[i].chainHash);
    }
    return 0;
  }

  /** The last n rows, from the stored chain_prev of the first of them. */
  method VerifyLast(h: RowHash, t: seq<Row>, n: nat, anchored: bool, readable: nat) returns (r: Result<int, string>)
    requires IsTable(t) && 0 < n <= |t|
    ensures r.Ok? <==> anchored
    ensures r.Ok? ==>
      var rows := t[|t| - n..];
      r.value == Verdict(h, rows[0].chainPrev, 0, if readable < n then rows[..readable] else rows).firstBadId
    ensures TailIsRight(h, t, n, anchored, readable, r)
  {
    if !anchored {
      return Err("query failed");
    }
    var rows := t[|t| - n..];
    var bad := ScanTail(h, rows[0].chainPrev, if readable < n then rows[..readable] else rows);
    r := Ok(bad);
    LastRowsAreRight(h, t, n, readable, r);
  }

  class Service {
    var table: seq<Row>
    var nextId: int
    var breaks: seq<Break>
    var checkpoint: Option<Checkpoint>

    ghost predicate Valid()
      reads this
    {
      IsTable(table) && 0 < nextId && forall i | 0 <= i < |table| :: table[i].id < nextId
    }

    constructor ()
      ensures Valid() && table == [] && breaks == [] && checkpoint == Some(EMPTY_CHECKPOINT)
    {
      table, nextId, breaks, checkpoint := [], 1, [], Some(EMPTY_CHECKPOINT);
    }

    /** Appends one entry. `now` is the clock in nanoseconds; `reached` is the last statement that succeeds. */
    method Record(env: Env, entry: Entry, now: int, reached: Reached) returns (r: Result<Row, string>)
      requires Valid()
      modifies this`table, this`nextId
      ensures Valid()
      ensures r.Ok? <==> entry.platformId != NIL_UUID_TEXT && entry.payload.Some? && reached == Committed
      ensures r.Err? ==> table == old(table)
      ensures r.Ok? ==>
        && table == old(table) + [r.value]
        && r.value == NextRow(env, V2, old(table), old(nextId), now, entry)
        && r.value.id == old(nextId) && r.value.hashVersion == 2
        && r.value.chainPrev == (if old(table) == [] then None else Some(old(table)[|old(table)| - 1].chainHash))
      ensures r.Ok? ==> 0 <= now - r.value.occurredAt * 1000 < 1000
      ensures r.Ok? ==>
        && r.value.event == entry.event && r.value.actorId == entry.actorId
        && r.value.actorType == (if entry.actorType == "" then "user" else entry.actorType)
        && r.value.platformId == entry.platformId && r.value.partnerId == entry.partnerId
        && r.value.tenantId == entry.tenantId
        && r.value.targetType == Some(entry.targetType) && r.value.targetId == Some(entry.targetId)
        && r.value.userAgent == (if entry.userAgent == "" then None else Some(entry.userAgent))
        && r.value.ip == (if entry.ip.None? then None else Some(env.host(entry.ip.value)))
        && Some(r.value.payload) == entry.payload
      ensures r.Ok? && AddressStable(env, entry) && Intact(RowHashOf(env), None, old(table)) ==>
        Intact(RowHashOf(env), None, table)
      ensures r.Ok? && Linked(None, old(table)) ==> Linked(None, table)
    {
      var e := entry;
      if e.actorType == "" {
        e := e.(actorType := "user");
      }
      if e.platformId == NIL_UUID_TEXT {
        return Err("audit: platform_id required");
      }
      if e.payload.None? {
        return Err("audit: marshal payload");
      }
      if reached == Nothing {
        return Err("begin");
      }
      if reached == Began {
        return Err("audit: lock chain");
      }
      if reached == Locked {
        return Err("audit: read prev chain hash");
      }
      var prev := if |table| == 0 then None else Some(table[|table| - 1].chainHash);
      if reached == PrevRead {
        return Err("audit: insert");
      }
      var row := StoredRow(env, V2, nextId, prev, now, e);
      RowIsNext(env, table, nextId, prev, now, entry);
      if reached == Inserted {
        nextId := nextId + 1;
        return Err("commit");
      }
      Commit(env, entry, now, row);
      return Ok(row);
    }

    /** The insert becomes visible. */
    method Commit(env: Env, e: Entry, now: int, row: Row)
      requires Valid() && e.payload.Some? && row == NextRow(env, V2, table, nextId, now, e)
      modifies this`table, this`nextId
      ensures Valid() && table == old(table) + [row]
      ensures AddressStable(env, e) && Intact(RowHashOf(env), None, old(table)) ==> Intact(RowHashOf(env), None, table)
      ensures Linked(None, old(table)) ==> Linked(None, table)
    {
      NextRowExtends(env, V2, table, nextId, now, e);
      AppendKeepsTable(table, row);
      nextId := nextId + 1;
      table := table + [row];
    }

    /** Walks the whole table and reports the first mismatch, noting it in audit_chain_breaks. */
    method VerifyDeep(h: RowHash, chunk: nat, queries: nat, breakLogged: bool) returns (r: Result<Report, string>)
      requires Valid() && 0 < chunk
      modifies this`breaks
      ensures r.Ok? <==> Pages(|table|, chunk) <= queries
      ensures r.Ok? ==> r.value == Verdict(h, None, 0, table)
      ensures breaks == old(breaks) +
        if r.Ok? && r.value.firstBadId != 0 && breakLogged then [Break(r.value.firstBadId, r.value.lastGoodId)] else []
    {
      RowsAfterIsSuffix(table, 0, 0);
      var scanned := ScanPages(h, Deep, StartScan(None, 0), table, chunk, queries);
      if scanned.Err? {
        return Err(scanned.error);
      }
      FoldIsVerdict(h, Deep, None, 0, table);
      var report := ReportOf(scanned.value);
      if report.firstBadId != 0 && breakLogged {
        breaks := breaks + [Break(report.firstBadId, report.lastGoodId)];
      }
      return Ok(report);
    }

    /** Resumes from the checkpoint and advances it past an intact tail. A checkpoint UPDATE that the database
        refuses (`advanced` is false) goes unnoticed. */
    method VerifyIncremental(h: RowHash, chunk: nat, queries: nat, breakLogged: bool, checkpointRead: bool,
                             advanced: bool)
      returns (r: Result<Report, string>)
      requires Valid() && 0 < chunk
      modifies this`breaks, this`checkpoint
      ensures !checkpointRead ==> r.Err?
      ensures checkpointRead && old(checkpoint).None? ==> (r.Ok? <==> Pages(|table|, chunk) <= queries)
      ensures checkpointRead && old(checkpoint).None? && r.Ok? ==> r.value == Verdict(h, None, 0, table)
      ensures checkpointRead && old(checkpoint).Some? ==>
        var c := old(checkpoint).value;
        && (r.Ok? <==> Pages(|RowsAfter(table, c.lastVerifiedId)|, chunk) <= queries)
        && (r.Ok? ==> r.value == Verdict(h, SeedOf(c), c.lastVerifiedId, RowsAfter(table, c.lastVerifiedId)))
        && (r.Ok? && advanced ==>
             checkpoint == Some(Advance(c, c, ScanRows(h, Incremental, Resume(c), RowsAfter(table, c.lastVerifiedId)))))
      ensures r.Err? || old(checkpoint).None? || !advanced ==> checkpoint == old(checkpoint)
      ensures breaks == old(breaks) +
        if r.Ok? && r.value.firstBadId != 0 && breakLogged then [Break(r.value.firstBadId, r.value.lastGoodId)] else []
    {
      if !checkpointRead {
        return Err("audit: checkpoint read");
      }
      if checkpoint.None? {
        r := VerifyDeep(h, chunk, queries, breakLogged);
        return;
      }
      var c := checkpoint.value;
      var scanned := ScanPages(h, Incremental, Resume(c), table, chunk, queries);
      if scanned.Err? {
        return Err(scanned.error);
      }
      ResumedVerdict(h, table, c);
      var s := scanned.value;
      var report := ReportOf(s);
      if s.firstBad != 0 {
        if breakLogged {
          breaks := breaks + [Break(report.firstBadId, report.lastGoodId)];
        }
        return Ok(report);
      }
      if s.lastGood > c.lastVerifiedId && s.prev.Some? && advanced {
        var current := checkpoint.value;
        if current.lastVerifiedId <= c.lastVerifiedId {
          checkpoint := Some(Checkpoint(s.lastGood, s.prev.value, current.rowsVerifiedTotal + s.total));
        }
      }
      return Ok(report);
    }

    /** Revalidates the last `tail` rows, anchored on a stored chain_prev; a short table gets a full Verify, and so
        does one whose anchor id cannot be looked up (`found` is false). `anchored` says whether the two queries
        after that succeed; the result set then breaks off after `readable` rows, which nothing checks. */
    method VerifyTail(h: RowHash, tail: int, found: bool, anchored: bool, readable: nat,
                      chunk: nat, queries: nat, breakLogged: bool)
      returns (r: Result<int, string>)
      requires Valid() && 0 < chunk
      modifies this`breaks
      ensures var n := TailLength(tail);
        if !found || |table| < n then
          && (r.Ok? <==> Pages(|table|, chunk) <= queries)
          && (r.Ok? ==> r.value == Verdict(h, None, 0, table).firstBadId)
        else
          && (r.Ok? <==> anchored)
          && (r.Ok? ==>
               var rows := table[|table| - n..];
               r.value == Verdict(h, rows[0].chainPrev, 0, if readable < n then rows[..readable] else rows).firstBadId)
          && breaks == old(breaks)
      ensures found && readable >= TailLength(tail) && r.Ok? ==> r.value == TailAnswer(h, table, tail)
      ensures TailIsRight(h, table, if tail <= 0 then 256 else tail, found && anchored, readable, r)
    {
      var n := TailLength(tail);
      if !found || |table| < n {
        var report := VerifyDeep(h, chunk, queries, breakLogged);
        r := if report.Ok? then Ok(report.value.firstBadId) else Err(report.error);
        WholeIsRight(h, table, n, found && anchored, readable, r);
        return;
      }
      r := VerifyLast(h, table, n, anchored, readable);
    }
  }

  /** The row the statements build is the next row of the table, with the caller's columns. */
  lemma RowIsNext(env: Env, t: seq<Row>, id: int, prev: Option<Bytes>, now: int, entry: Entry)
    requires entry.payload.Some? && prev == PrevOf(None, t, |t|)
    ensures var e := if entry.actorType == "" then entry.(actorType := "user") else entry;
            var row := StoredRow(env, V2, id, prev, now, e);
            && row == NextRow(env, V2, t, id, now, entry) && row.id == id && row.chainPrev == prev && row.hashVersion == 2
            && 0 <= now - row.occurredAt * 1000 < 1000
            && row.event == entry.event && row.actorId == entry.actorId && row.actorType == e.actorType
            && row.platformId == entry.platformId && row.partnerId == entry.partnerId && row.tenantId == entry.tenantId
            && row.targetType == Some(entry.targetType) && row.targetId == Some(entry.targetId)
            && row.userAgent == (if entry.userAgent == "" then None else Some(entry.userAgent))
            && row.ip == (if entry.ip.None? then None else Some(env.host(entry.ip.value)))
            && Some(row.payload) == entry.payload
  {
    var e := if entry.actorType == "" then entry.(actorType := "user") else entry;
    assert RecordMaterial(env, V2, prev, now, e) == RecordMaterial(env, V2, prev, now, entry);
  }

  /** With fewer than n rows the answer names the first bad row of the table; with n or more, when all queries succeed and
      all rows are delivered and the first of the last n is linked, the first bad one of the last n. */
  ghost predicate TailIsRight(h: RowHash, t: seq<Row>, n: nat, queried: bool, readable: nat, r: Result<int, string>) {
    && ((|t| < n || (queried && readable >= n)) && r.Ok? ==> r.value == LastAnswer(h, t, n))
    && (|t| < n && r.Ok? ==> NamesFirstBad(h, t, 0, r.value))
    && (0 < n <= |t| && queried && readable >= n && t[|t| - n].chainPrev == PrevOf(None, t, |t| - n) ==>
         r.Ok? && NamesFirstBad(h, t, |t| - n, r.value))
  }

  lemma WholeIsRight(h: RowHash, t: seq<Row>, n: nat, queried: bool, readable: nat, r: Result<int, string>)
    requires IsTable(t) && (r.Ok? ==> r.value == Verdict(h, None, 0, t).firstBadId) && (!queried || |t| < n)
    ensures TailIsRight(h, t, n, queried, readable, r)
  {
    WholeMeaning(h, t);
  }

  lemma LastRowsAreRight(h: RowHash, t: seq<Row>, n: nat, readable: nat, r: Result<int, string>)
    requires IsTable(t) && 0 < n <= |t|
    requires readable >= n ==> r == Ok(Verdict(h, t[|t| - n].chainPrev, 0, t[|t| - n..]).firstBadId)
    ensures TailIsRight(h, t, n, true, readable, r)
  {
    if t[|t| - n].chainPrev == PrevOf(None, t, |t| - n) {
      TailMeaning(h, t, |t| - n);
    }
  }

  /** How many rows VerifyTail looks at. */
  function TailLength(tail: int): (n: nat)
    ensures n > 0
  {
    if tail <= 0 then DEFAULT_TAIL else tail
  }

  /** What VerifyTail answers when every query succeeds and delivers all its rows. */
  function TailAnswer(h: RowHash, t: seq<Row>, tail: int): int {
    LastAnswer(h, t, TailLength(tail))
  }

  function LastAnswer(h: RowHash, t: seq<Row>, n: nat): int {
    if n == 0 || |t| < n then Verdict(h, None, 0, t).firstBadId
    else Verdict(h, t[|t| - n].chainPrev, 0, t[|t| - n..]).firstBadId
  }

  /** The page loop has read the first `done` of the rows it set out to read. */
  ghost predicate ReadUpTo(h: RowHash, mode: Mode, start: Scan, t: seq<Row>, rest: seq<Row>, done: nat, s: Scan) {
    done <= |rest| && s == ScanRows(h, mode, start, rest[..done]) && RowsAfter(t, s.lastId) == rest[done..]
  }

  /** The queries made so far, and those still needed, are what the whole scan takes. */
  ghost predicate ReadSoFar(pages: nat, total: nat, done: nat, chunk: nat) {
    done <= total && 0 < chunk && pages + Pages(total - done, chunk) == Pages(total, chunk)
  }

  lemma NextQuery(pages: nat, total: nat, done: nat, chunk: nat)
    requires ReadSoFar(pages, total, done, chunk)
    ensures if total - done < chunk then pages + 1 == Pages(total, chunk) else ReadSoFar(pages + 1, total, done + chunk, chunk)
    ensures pages < Pages(total, chunk)
  {
  }

  /** A page is the next stretch of the rows still to be read, and continues the fold over them. */
  lemma NextPage(h: RowHash, mode: Mode, start: Scan, t: seq<Row>, rest: seq<Row>, done: nat, s: Scan, chunk: nat)
    requires IsTable(t) && 0 < chunk && ReadUpTo(h, mode, start, t, rest, done, s)
    ensures var page := PageAfter(t, s.lastId, chunk);
            var s' := ScanRows(h, mode, s, page);
            if |page| < chunk then s' == ScanRows(h, mode, start, rest) && |rest| - done < chunk
            else ReadUpTo(h, mode, start, t, rest, done + chunk, s') && chunk <= |rest| - done
  {
    var page := PageAfter(t, s.lastId, chunk);
    assert rest[..done] + page == rest[..done + |page|];
    ScanConcat(h, mode, start, rest[..done], page);
    if |page| < chunk {
      assert rest[..done + |page|] == rest;
    } else {
      FullPageEnds(h, mode, s, t, page, chunk);
      assert rest[done..][chunk..] == rest[done + chunk..];
    }
  }

  /** After a full page the next page starts right behind it. */
  lemma FullPageEnds(h: RowHash, mode: Mode, s: Scan, t: seq<Row>, page: seq<Row>, chunk: nat)
    requires IsTable(t) && 0 < chunk && page == PageAfter(t, s.lastId, chunk) && |page| == chunk
    ensures RowsAfter(t, ScanRows(h, mode, s, page).lastId) == RowsAfter(t, s.lastId)[chunk..]
  {
    var n := CountUpTo(t, s.lastId);
    CountSplits(t, s.lastId);
    assert page[chunk - 1] == t[n..][chunk - 1] == t[n + chunk - 1];
    assert ScanRows(h, mode, s, page).lastId == t[n + chunk - 1].id;
    RowsAfterIsSuffix(t, n + chunk, t[n + chunk - 1].id);
    assert t[n..][chunk..] == t[n + chunk..];
  }

  /** What a scan resumed from a checkpoint reports. */
  lemma ResumedVerdict(h: RowHash, t: seq<Row>, c: Checkpoint)
    requires IsTable(t)
    ensures var rest := RowsAfter(t, c.lastVerifiedId);
            ReportOf(ScanRows(h, Incremental, Resume(c), rest)) == Verdict(h, SeedOf(c), c.lastVerifiedId, rest)
  {
    CountSplits(t, c.lastVerifiedId);
    FoldIsVerdict(h, Incremental, SeedOf(c), c.lastVerifiedId, RowsAfter(t, c.lastVerifiedId));
  }
}
