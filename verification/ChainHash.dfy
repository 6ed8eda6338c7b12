/** The bytes that an audit row's chain hash covers, on the write side and on the read side. */
module ChainHash {
  import opened Wrappers

  /** Go strings and byte slices are byte sequences; a char stands for one byte. */
  type Bytes = string

  /** The result of sha256: 32 bytes. */
  type Digest = d: Bytes | |d| == 32 witness "00000000000000000000000000000000"

  /** The library functions the chain depends on: sha256, the RFC 3339 rendering of a UTC instant
      (in nanoseconds), and the text in which the database reads an inet column back. */
  datatype Env = Env(sum: Bytes -> Digest, format: int -> string, host: string -> string)

  predicate IsUuidText(s: string) {
    && |s| == 36
    && s[8] == '-' && s[13] == '-' && s[18] == '-' && s[23] == '-'
    && '|' !in s
  }

  const NIL_UUID_TEXT := "00000000-0000-0000-0000-000000000000"

  /** A UUID, as its canonical text. */
  type Uuid = s: string | IsUuidText(s) witness NIL_UUID_TEXT

  /** What a caller hands to Record. `payload` is the marshalled payload, or None when marshalling fails. */
  datatype Entry = Entry(
    platformId: Uuid, partnerId: Option<Uuid>, tenantId: Option<Uuid>, actorId: Option<Uuid>,
    actorType: string, event: string, targetType: string, targetId: string,
    payload: Option<string>, ip: Option<string>, userAgent: string)

  /** One row of audit_logs as a reader scans it; `occurredAt` is in microseconds. */
  datatype Row = Row(
    id: int, event: string, actorType: string, actorId: Option<Uuid>, ip: Option<string>,
    userAgent: Option<string>, platformId: Uuid, partnerId: Option<Uuid>, tenantId: Option<Uuid>,
    targetType: Option<string>, targetId: Option<string>, payload: string,
    chainPrev: Option<Bytes>, chainHash: Bytes, occurredAt: int, hashVersion: int)

  // ---------- canonical forms ----------

  function DerefStr(s: Option<string>): string {
    if s.Some? then s.value else ""
  }

  function NullIfEmpty(s: string): Option<string> {
    if s == "" then None else Some(s)
  }

  function CanonicalActorId(id: Option<Uuid>): string {
    if id.Some? then id.value else ""
  }

  /** What `%v` prints for a nullable UUID pointer. */
  function RenderId(id: Option<Uuid>): string {
    if id.Some? then id.value else "<nil>"
  }

  /** Every field followed by a bar. */
  function Barred(fields: seq<string>): string {
    if fields == [] then "" else fields[0] + "|" + Barred(fields[1..])
  }

  /** An instant in nanoseconds, cut down to whole microseconds. */
  function TruncateMicro(ns: int): (t: int)
    ensures t % 1000 == 0 && t <= ns < t + 1000
  {
    ns - ns % 1000
  }

  /** Record's default. */
  function ActorTypeOf(e: Entry): (a: string)
    ensures e.actorType != "" ==> a == e.actorType
    ensures e.actorType == "" ==> a == "user"
  {
    if e.actorType == "" then "user" else e.actorType
  }

  /** The byte stream written to the hash: predecessor, barred metadata, target id, payload. */
  function Material(prev: Option<Bytes>, fields: seq<string>, targetId: string, payload: string): Bytes {
    DerefStr(prev) + (Barred(fields) + (targetId + payload))
  }

  // ---------- write side ----------

  /** The algorithm that wrote a row: V1 leaves out the time. */
  datatype Version = V1 | V2

  /** What Record feeds to the hash, written out. */
  function RecordMaterial(env: Env, v: Version, prev: Option<Bytes>, ns: int, e: Entry): Bytes
    requires e.payload.Some?
  {
    (if prev.Some? then prev.value else "")
    + (if v == V2 then "v2|" + env.format(TruncateMicro(ns)) + "|" else "")
    + e.event + "|" + ActorTypeOf(e) + "|" + (if e.actorId.Some? then e.actorId.value else "") + "|"
    + (if e.ip.Some? then e.ip.value else "") + "|" + e.userAgent + "|" + e.platformId + "|"
    + (if e.partnerId.Some? then e.partnerId.value else "<nil>") + "|"
    + (if e.tenantId.Some? then e.tenantId.value else "<nil>") + "|"
    + e.targetType + "|" + (e.targetId + e.payload.value)
  }

  /** The inserted row, as any later reader scans it. */
  function StoredRow(env: Env, v: Version, id: int, prev: Option<Bytes>, ns: int, e: Entry): Row
    requires e.payload.Some?
  {
    Row(id, e.event, ActorTypeOf(e), e.actorId,
        if e.ip.Some? then Some(env.host(e.ip.value)) else None,
        NullIfEmpty(e.userAgent), e.platformId, e.partnerId, e.tenantId,
        Some(e.targetType), Some(e.targetId), e.payload.value,
        prev, env.sum(RecordMaterial(env, v, prev, ns, e)), TruncateMicro(ns) / 1000, if v == V2 then 2 else 1)
  }

  // ---------- read side ----------

  /** The metadata fields that precede the target id, by hash version. */
  function RowFields(env: Env, r: Row): seq<string> {
    var common := [r.event, r.actorType, CanonicalActorId(r.actorId), DerefStr(r.ip), DerefStr(r.userAgent),
                   r.platformId, RenderId(r.partnerId), RenderId(r.tenantId), DerefStr(r.targetType)];
    if r.hashVersion == 2 then ["v2", env.format(r.occurredAt * 1000)] + common else common
  }

  /** What the verifiers feed to the hash. */
  function RowMaterial(env: Env, prev: Option<Bytes>, r: Row): Bytes {
    Material(prev, RowFields(env, r), DerefStr(r.targetId), r.payload)
  }

  function ComputeRowHash(env: Env, prev: Option<Bytes>, r: Row): Digest {
    env.sum(RowMaterial(env, prev, r))
  }

  /** computeRowHash with its library functions fixed. */
  type RowHash = (Option<Bytes>, Row) -> Digest

  function RowHashOf(env: Env): RowHash {
    (prev: Option<Bytes>, r: Row) => ComputeRowHash(env, prev, r)
  }

  // ---------- write/read agreement ----------

  /** The database reads the entry's address back in the text that was hashed. */
  predicate AddressStable(env: Env, e: Entry) {
    e.ip.Some? ==> env.host(e.ip.value) == e.ip.value
  }

  /** Changing one field changes the barred text. */
  lemma {:induction false} BarredUpdate(fs: seq<string>, i: nat, x: string, t: string)
    requires i < |fs|
    ensures Barred(fs[i := x]) + t == Barred(fs) + t <==> x == fs[i]
  {
    var gs := fs[i := x];
    if x == fs[i] {
      assert gs == fs;
    } else if i == 0 {
      assert gs[1..] == fs[1..];
      var b := Barred(fs[1..]) + t;
      assert Barred(gs) + t == x + ("|" + b) && Barred(fs) + t == fs[0] + ("|" + b);
      assert (x + ("|" + b))[..|x|] == x && (fs[0] + ("|" + b))[..|fs[0]|] == fs[0];
    } else {
      assert gs[1..] == fs[1..][i - 1 := x];
      BarredUpdate(fs[1..], i - 1, x, t);
      var p, a, b := fs[0] + "|", Barred(gs[1..]) + t, Barred(fs[1..]) + t;
      assert Barred(gs) + t == p + a && Barred(fs) + t == p + b;
      assert (p + a)[|p|..] == a && (p + b)[|p|..] == b;
    }
  }

  // ---------- the two byte streams ----------

  /** One field and its bar. */
  lemma BarredStep(s: string, x: string, fs: seq<string>, t: string)
    ensures s + (Barred([x] + fs) + t) == s + x + "|" + (Barred(fs) + t)
  {
    assert ([x] + fs)[1..] == fs;
  }

  /** Nine fields, written out. */
  lemma NineFields(s: string, a: string, b: string, c: string, d: string, e: string, f: string, g: string, h: string,
                   i: string, t: string)
    ensures s + (Barred([a, b, c, d, e, f, g, h, i]) + t)
            == s + a + "|" + b + "|" + c + "|" + d + "|" + e + "|" + f + "|" + g + "|" + h + "|" + i + "|" + t
  {
    var s3 := s + a + "|" + b + "|" + c + "|";
    var s6 := s3 + d + "|" + e + "|" + f + "|";
    ThreeFields(s, a, b, c, [d, e, f, g, h, i], t);
    ThreeFields(s3, d, e, f, [g, h, i], t);
    ThreeFields(s6, g, h, i, [], t);
    assert [a, b, c] + [d, e, f, g, h, i] == [a, b, c, d, e, f, g, h, i];
    assert [d, e, f] + [g, h, i] == [d, e, f, g, h, i] && [g, h, i] + [] == [g, h, i];
    assert Barred([]) + t == t;
  }

  lemma ThreeFields(s: string, a: string, b: string, c: string, fs: seq<string>, t: string)
    ensures s + (Barred([a, b, c] + fs) + t) == s + a + "|" + b + "|" + c + "|" + (Barred(fs) + t)
  {
    BarredStep(s, a, [b, c] + fs, t);
    BarredStep(s + a + "|", b, [c] + fs, t);
    BarredStep(s + a + "|" + b + "|", c, fs, t);
    assert [a] + ([b, c] + fs) == [a, b, c] + fs && [b] + ([c] + fs) == [b, c] + fs;
  }

  /** The metadata fields of an entry, with the address text x. */
  function EntryFields(e: Entry, x: string): seq<string> {
    [e.event, ActorTypeOf(e), CanonicalActorId(e.actorId), x, e.userAgent,
     e.platformId, RenderId(e.partnerId), RenderId(e.tenantId), e.targetType]
  }

  function Header(env: Env, v: Version, ns: int): seq<string> {
    if v == V2 then ["v2", env.format(TruncateMicro(ns))] else []
  }

  /** Record writes its fields with bars. */
  lemma RecordIsBarred(env: Env, v: Version, prev: Option<Bytes>, ns: int, e: Entry)
    requires e.payload.Some?
    ensures RecordMaterial(env, v, prev, ns, e)
            == Material(prev, Header(env, v, ns) + EntryFields(e, DerefStr(e.ip)), e.targetId, e.payload.value)
  {
    var fs, t := EntryFields(e, DerefStr(e.ip)), e.targetId + e.payload.value;
    var s := DerefStr(prev) + if v == V2 then "v2|" + env.format(TruncateMicro(ns)) + "|" else "";
    HeaderIsBarred(env, v, DerefStr(prev), ns, fs, t);
    NineFields(s, fs[0], fs[1], fs[2], fs[3], fs[4], fs[5], fs[6], fs[7], fs[8], t);
    assert fs == [fs[0], fs[1], fs[2], fs[3], fs[4], fs[5], fs[6], fs[7], fs[8]];
  }

  lemma HeaderIsBarred(env: Env, v: Version, p: string, ns: int, fs: seq<string>, t: string)
    ensures p + (Barred(Header(env, v, ns) + fs) + t)
            == p + (if v == V2 then "v2|" + env.format(TruncateMicro(ns)) + "|" else "") + (Barred(fs) + t)
  {
    if v == V2 {
      var time := env.format(TruncateMicro(ns));
      BarredStep(p, "v2", [time] + fs, t);
      BarredStep(p + "v2" + "|", time, fs, t);
      assert ["v2"] + ([time] + fs) == Header(env, v, ns) + fs;
      assert p + "v2" + "|" + time + "|" == p + ("v2|" + time + "|");
    } else {
      assert Header(env, v, ns) + fs == fs;
      assert p + "" == p;
    }
  }

  /** What comes back is what was written, field by field, but for the address text. */
  lemma StoredFields(env: Env, v: Version, id: int, prev: Option<Bytes>, ns: int, e: Entry)
    requires e.payload.Some?
    ensures var r := StoredRow(env, v, id, prev, ns, e);
            RowFields(env, r) == Header(env, v, ns) + EntryFields(e, DerefStr(r.ip))
  {
    assert TruncateMicro(ns) / 1000 * 1000 == TruncateMicro(ns);
  }

  lemma PrefixCancels(p: string, a: string, b: string)
    ensures p + a == p + b <==> a == b
  {
    assert (p + a)[|p|..] == a && (p + b)[|p|..] == b;
  }

  /** A reader hashes exactly the bytes Record hashed, in either version, if and only if the address text survives the
      database. */
  lemma WriteReadAgreement(env: Env, v: Version, id: int, prev: Option<Bytes>, ns: int, e: Entry)
    requires e.payload.Some?
    ensures var r := StoredRow(env, v, id, prev, ns, e);
            && (RowMaterial(env, prev, r) == RecordMaterial(env, v, prev, ns, e) <==> AddressStable(env, e))
            && (AddressStable(env, e) ==> ComputeRowHash(env, prev, r) == r.chainHash)
  {
    var r := StoredRow(env, v, id, prev, ns, e);
    StoredFields(env, v, id, prev, ns, e);
    RecordIsBarred(env, v, prev, ns, e);
    AgreementOnFields(prev, Header(env, v, ns), e, DerefStr(r.ip), DerefStr(e.ip), e.targetId, e.payload.value);
  }

  /** An IPv4-compatible IPv6 address is written in hexadecimal groups and read back in dotted form: wherever the
      database does that, no reader hashes what Record hashed. */
  lemma CompatibleAddressIsUnstable(env: Env, v: Version, id: int, prev: Option<Bytes>, ns: int, e: Entry)
    requires e.payload.Some? && e.ip == Some("::102:304") && env.host("::102:304") == "::1.2.3.4"
    ensures !AddressStable(env, e)
    ensures RowMaterial(env, prev, StoredRow(env, v, id, prev, ns, e)) != RecordMaterial(env, v, prev, ns, e)
  {
    assert "::102:304"[3] != "::1.2.3.4"[3];
    WriteReadAgreement(env, v, id, prev, ns, e);
  }

  lemma AgreementOnFields(prev: Option<Bytes>, head: seq<string>, e: Entry, x: string, y: string, tid: string, payload: string)
    ensures Material(prev, head + EntryFields(e, x), tid, payload) == Material(prev, head + EntryFields(e, y), tid, payload)
            <==> x == y
  {
    var fs, i := head + EntryFields(e, y), |head| + 3;
    assert fs[i] == y && fs[i := x] == head + EntryFields(e, x);
    BarredUpdate(fs, i, x, tid + payload);
    PrefixCancels(DerefStr(prev), Barred(fs[i := x]) + (tid + payload), Barred(fs) + (tid + payload));
  }

  /** What a reader feeds to the hash, written out; a version other than 2 is read as V1. */
  lemma RowIsWrittenOut(env: Env, prev: Option<Bytes>, r: Row)
    ensures RowMaterial(env, prev, r) ==
      (if prev.Some? then prev.value else "")
      + (if r.hashVersion == 2 then "v2|" + env.format(r.occurredAt * 1000) + "|" else "")
      + r.event + "|" + r.actorType + "|" + (if r.actorId.Some? then r.actorId.value else "") + "|"
      + (if r.ip.Some? then r.ip.value else "") + "|" + (if r.userAgent.Some? then r.userAgent.value else "") + "|"
      + r.platformId + "|" + (if r.partnerId.Some? then r.partnerId.value else "<nil>") + "|"
      + (if r.tenantId.Some? then r.tenantId.value else "<nil>") + "|"
      + (if r.targetType.Some? then r.targetType.value else "") + "|"
      + ((if r.targetId.Some? then r.targetId.value else "") + r.payload)
  {
    var fs, t := RowFields(env, r), DerefStr(r.targetId) + r.payload;
    if r.hashVersion == 2 {
      TimedFields(DerefStr(prev), env.format(r.occurredAt * 1000), fs, t);
    } else {
      assert DerefStr(prev) + "" == DerefStr(prev);
      LastNine(DerefStr(prev), fs, t);
    }
  }

  lemma TimedFields(p: string, time: string, fs: seq<string>, t: string)
    requires |fs| == 11 && fs[0] == "v2" && fs[1] == time
    ensures p + (Barred(fs) + t)
            == p + ("v2|" + time + "|") + fs[2] + "|" + fs[3] + "|" + fs[4] + "|" + fs[5] + "|" + fs[6] + "|" + fs[7] + "|"
               + fs[8] + "|" + fs[9] + "|" + fs[10] + "|" + t
  {
    BarredStep(p, "v2", fs[1..], t);
    BarredStep(p + "v2" + "|", time, fs[2..], t);
    assert fs == ["v2"] + fs[1..] && fs[1..] == [time] + fs[2..];
    assert p + "v2" + "|" + time + "|" == p + ("v2|" + time + "|");
    LastNine(p + ("v2|" + time + "|"), fs[2..], t);
  }

  lemma LastNine(s: string, fs: seq<string>, t: string)
    requires |fs| == 9
    ensures s + (Barred(fs) + t)
            == s + fs[0] + "|" + fs[1] + "|" + fs[2] + "|" + fs[3] + "|" + fs[4] + "|" + fs[5] + "|" + fs[6] + "|"
               + fs[7] + "|" + fs[8] + "|" + t
  {
    NineFields(s, fs[0], fs[1], fs[2], fs[3], fs[4], fs[5], fs[6], fs[7], fs[8], t);
    assert fs == [fs[0], fs[1], fs[2], fs[3], fs[4], fs[5], fs[6], fs[7], fs[8]];
  }

  // ---------- injectivity ----------

  lemma {:induction false} BarredConcat(fs: seq<string>, gs: seq<string>)
    ensures Barred(fs + gs) == Barred(fs) + Barred(gs)
  {
    if fs == [] {
      assert fs + gs == gs;
    } else {
      assert (fs + gs)[1..] == fs[1..] + gs;
      BarredConcat(fs[1..], gs);
    }
  }

  /** No time renders with a bar, and no two instants render alike. */
  ghost predicate TimeFormatInjective(env: Env) {
    && (forall t :: '|' !in env.format(t))
    && (forall t, u :: env.format(t) == env.format(u) ==> t == u)
  }

  /** The delimiters the canonical form relies on do not occur inside the fields they delimit. */
  predicate Delimited(r: Row) {
    && '|' !in r.event && '|' !in r.actorType && '|' !in DerefStr(r.userAgent) && '|' !in DerefStr(r.targetType)
    && '|' !in DerefStr(r.ip) && '-' !in DerefStr(r.ip)
    && '{' !in DerefStr(r.targetId)
    && IsPayload(r.payload)
  }

  /** The rows say the same thing: same version, and equal hashed fields with NULL and empty identified. */
  predicate SameContent(r: Row, q: Row) {
    && (r.hashVersion == 2 <==> q.hashVersion == 2)
    && (r.hashVersion == 2 ==> r.occurredAt == q.occurredAt)
    && r.event == q.event && r.actorType == q.actorType && r.actorId == q.actorId
    && DerefStr(r.ip) == DerefStr(q.ip) && DerefStr(r.userAgent) == DerefStr(q.userAgent)
    && r.platformId == q.platformId && r.partnerId == q.partnerId && r.tenantId == q.tenantId
    && DerefStr(r.targetType) == DerefStr(q.targetType) && DerefStr(r.targetId) == DerefStr(q.targetId)
    && r.payload == q.payload
  }

  function FirstIndex(s: string, c: char): nat {
    if s == "" || s[0] == c then 0 else 1 + FirstIndex(s[1..], c)
  }

  lemma FirstIndexSkips(f: string, c: char, u: string)
    requires c !in f
    ensures FirstIndex(f + u, c) == |f| + FirstIndex(u, c)
  {
    if f == "" {
      assert f + u == u;
    } else {
      assert (f + u)[1..] == f[1..] + u;
      FirstIndexSkips(f[1..], c, u);
    }
  }

  lemma FirstBarSplits(f: string, u: string, g: string, w: string)
    requires '|' !in f && '|' !in g
    requires f + ("|" + u) == g + ("|" + w)
    ensures f == g && u == w
  {
    FirstIndexSkips(f, '|', "|" + u);
    FirstIndexSkips(g, '|', "|" + w);
    var s := f + ("|" + u);
    assert f == s[..|f|] == g && u == s[|f| + 1..] == w;
  }

  predicate NoBars(fs: seq<string>) {
    forall f | f in fs :: '|' !in f
  }

  lemma {:induction false} BarredInjective(fs: seq<string>, gs: seq<string>, x: string, y: string)
    requires |fs| == |gs| && NoBars(fs) && NoBars(gs)
    requires Barred(fs) + x == Barred(gs) + y
    ensures fs == gs && x == y
  {
    if fs == [] {
      assert Barred(fs) + x == x && Barred(gs) + y == y;
    } else {
      var u, w := Barred(fs[1..]) + x, Barred(gs[1..]) + y;
      assert Barred(fs) + x == fs[0] + ("|" + u);
      assert Barred(gs) + y == gs[0] + ("|" + w);
      FirstBarSplits(fs[0], u, gs[0], w);
      BarredInjective(fs[1..], gs[1..], x, y);
      assert fs == [fs[0]] + fs[1..] && gs == [gs[0]] + gs[1..];
    }
  }

  predicate IsPayload(p: string) {
    p == "null" || "{" <= p
  }

  /** The target id ends where the JSON payload begins. */
  lemma PayloadSplits(x: string, p: string, y: string, q: string)
    requires '{' !in x && '{' !in y && IsPayload(p) && IsPayload(q)
    requires x + p == y + q
    ensures x == y && p == q
  {
    FirstIndexSkips(x, '{', p);
    FirstIndexSkips(y, '{', q);
    FirstIndexSkips("null", '{', "");
    assert "null" + "" == "null";
    var s := x + p;
    assert |x| == |y|;
    assert x == s[..|x|] == y && p == s[|x|..] == q;
  }

  lemma FieldsHaveNoBars(env: Env, r: Row)
    requires TimeFormatInjective(env) && Delimited(r)
    ensures NoBars(RowFields(env, r))
  {
  }

  /** The separators force equal field lists, target ids and payloads. */
  lemma MaterialSplits(prev: Option<Bytes>, fs: seq<string>, x: string, p: string,
                       gs: seq<string>, y: string, q: string)
    requires |fs| == |gs| && NoBars(fs) && NoBars(gs)
    requires '{' !in x && '{' !in y && IsPayload(p) && IsPayload(q)
    requires Material(prev, fs, x, p) == Material(prev, gs, y, q)
    ensures fs == gs && x == y && p == q
  {
    PrefixCancels(DerefStr(prev), Barred(fs) + (x + p), Barred(gs) + (y + q));
    BarredInjective(fs, gs, x + p, y + q);
    PayloadSplits(x, p, y, q);
  }

  /** Eleven fields and nine fields that agree in a barred text agree on the first nine. */
  lemma NineFieldsAgree(prev: Option<Bytes>, fs: seq<string>, x: string, p: string,
                        gs: seq<string>, y: string, q: string)
    requires |fs| == 11 && |gs| == 9 && NoBars(fs) && NoBars(gs)
    requires Material(prev, fs, x, p) == Material(prev, gs, y, q)
    ensures fs[5] == gs[5]
  {
    PrefixCancels(DerefStr(prev), Barred(fs) + (x + p), Barred(gs) + (y + q));
    BarredConcat(fs[..9], fs[9..]);
    assert fs == fs[..9] + fs[9..];
    assert Barred(fs) + (x + p) == Barred(fs[..9]) + (Barred(fs[9..]) + (x + p));
    BarredInjective(fs[..9], gs, Barred(fs[9..]) + (x + p), y + q);
    assert fs[..9][5] == fs[5];
  }

  /** A v1 row and a v2 row never hash the same bytes: where v1 has its platform id, v2 has an address. */
  lemma VersionsDisjoint(env: Env, prev: Option<Bytes>, r: Row, q: Row)
    requires TimeFormatInjective(env) && Delimited(r) && Delimited(q)
    requires r.hashVersion == 2 && q.hashVersion != 2
    ensures RowMaterial(env, prev, r) != RowMaterial(env, prev, q)
  {
    assert q.platformId[8] == '-';
    assert RowFields(env, r)[5] != RowFields(env, q)[5];
    if RowMaterial(env, prev, r) == RowMaterial(env, prev, q) {
      FieldsHaveNoBars(env, r);
      FieldsHaveNoBars(env, q);
      NineFieldsAgree(prev, RowFields(env, r), DerefStr(r.targetId), r.payload,
                      RowFields(env, q), DerefStr(q.targetId), q.payload);
    }
  }

  /** Over equal predecessors, two delimited rows feed the hash the same bytes exactly when they say the same
      thing, whichever versions they carry. */
  lemma MaterialInjective(env: Env, prev: Option<Bytes>, r: Row, q: Row)
    requires TimeFormatInjective(env) && Delimited(r) && Delimited(q)
    ensures RowMaterial(env, prev, r) == RowMaterial(env, prev, q) <==> SameContent(r, q)
  {
    if SameContent(r, q) {
      assert RowFields(env, r) == RowFields(env, q);
    }
    if RowMaterial(env, prev, r) == RowMaterial(env, prev, q) {
      if r.hashVersion == 2 && q.hashVersion != 2 {
        VersionsDisjoint(env, prev, r, q);
      } else if r.hashVersion != 2 && q.hashVersion == 2 {
        VersionsDisjoint(env, prev, q, r);
      } else {
        FieldsHaveNoBars(env, r);
        FieldsHaveNoBars(env, q);
        MaterialSplits(prev, RowFields(env, r), DerefStr(r.targetId), r.payload,
                       RowFields(env, q), DerefStr(q.targetId), q.payload);
        FieldsDetermineRow(env, r, q);
      }
    }
  }

  lemma FieldsDetermineRow(env: Env, r: Row, q: Row)
    requires TimeFormatInjective(env) && RowFields(env, r) == RowFields(env, q)
    requires r.hashVersion == 2 <==> q.hashVersion == 2
    requires DerefStr(r.targetId) == DerefStr(q.targetId) && r.payload == q.payload
    ensures SameContent(r, q)
  {
    var d := if r.hashVersion == 2 then 2 else 0;
    var fs, gs := RowFields(env, r), RowFields(env, q);
    assert fs[d + 0] == r.event && fs[d + 1] == r.actorType && fs[d + 2] == CanonicalActorId(r.actorId);
    assert fs[d + 3] == DerefStr(r.ip) && fs[d + 4] == DerefStr(r.userAgent) && fs[d + 5] == r.platformId;
    assert fs[d + 6] == RenderId(r.partnerId) && fs[d + 7] == RenderId(r.tenantId);
    assert fs[d + 8] == DerefStr(r.targetType);
    if d == 2 {
      assert fs[1] == env.format(r.occurredAt * 1000) && gs[1] == env.format(q.occurredAt * 1000);
    }
  }

  /** Without the delimiter condition the encoding is ambiguous: a bar can move between neighbouring fields. */
  lemma BarMakesItAmbiguous(env: Env, prev: Option<Bytes>, r: Row)
    ensures var a := r.(event := "x|y", actorType := "z");
            var b := r.(event := "x", actorType := "y|z");
            !SameContent(a, b) && RowMaterial(env, prev, a) == RowMaterial(env, prev, b)
  {
    var a := r.(event := "x|y", actorType := "z");
    var b := r.(event := "x", actorType := "y|z");
    var head, rest := SplitFields(env, r, "x|y", "z");
    var head', rest' := SplitFields(env, r, "x", "y|z");
    BarMoves(head, rest);
    assert RowMaterial(env, prev, a) == RowMaterial(env, prev, b);
  }

  lemma SplitFields(env: Env, r: Row, event: string, actor: string) returns (head: seq<string>, rest: seq<string>)
    ensures RowFields(env, r.(event := event, actorType := actor)) == head + ([event, actor] + rest)
    ensures head == if r.hashVersion == 2 then ["v2", env.format(r.occurredAt * 1000)] else []
    ensures rest == RowFields(env, r)[|head| + 2..]
  {
    head := if r.hashVersion == 2 then ["v2", env.format(r.occurredAt * 1000)] else [];
    rest := RowFields(env, r)[|head| + 2..];
  }

  lemma BarredPair(x: string, y: string)
    ensures Barred([x, y]) == x + "|" + (y + "|")
  {
    assert [x, y][1..] == [y];
    assert Barred([y]) == y + "|" + Barred([]);
    assert y + "|" + "" == y + "|";
  }

  lemma BarMoves(head: seq<string>, rest: seq<string>)
    ensures Barred(head + (["x|y", "z"] + rest)) == Barred(head + (["x", "y|z"] + rest))
  {
    MovedBar();
    SameBars(["x|y", "z"], ["x", "y|z"], rest);
    BarredConcat(head, ["x|y", "z"] + rest);
    BarredConcat(head, ["x", "y|z"] + rest);
  }

  lemma MovedBar()
    ensures Barred(["x|y", "z"]) == Barred(["x", "y|z"])
  {
    BarredPair("x|y", "z");
    BarredPair("x", "y|z");
    assert "x|y" + "|" + ("z" + "|") == "x" + "|" + ("y|z" + "|");
  }

  lemma SameBars(fs: seq<string>, gs: seq<string>, rest: seq<string>)
    requires Barred(fs) == Barred(gs)
    ensures Barred(fs + rest) == Barred(gs + rest)
  {
    BarredConcat(fs, rest);
    BarredConcat(gs, rest);
  }
}
