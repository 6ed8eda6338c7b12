/** Comparing dotted agent versions, and choosing the update bundle to offer. */
module Versions {
  import opened Wrappers

  // ---------- Go's int ----------

  const TWO_TO_63 := 0x8000_0000_0000_0000
  const TWO_TO_64 := 0x1_0000_0000_0000_0000

  /** 64-bit two's complement wrap-around. */
  function Wrap64(n: int): int {
    (n + TWO_TO_63) % TWO_TO_64 - TWO_TO_63
  }

  // ---------- splitVersion and parseInt ----------

  /** The completed segments and the one being read. */
  function SplitFrom(s: string, parts: seq<string>, cur: string): seq<string> {
    if s == "" then (if cur != "" then parts + [cur] else parts)
    else if s[0] == '.' then SplitFrom(s[1..], parts + [cur], "")
    else SplitFrom(s[1..], parts, cur + [s[0]])
  }

  /** The segments between dots; an empty last segment is dropped. */
  function Split(s: string): seq<string> {
    SplitFrom(s, [], "")
  }

  method SplitVersion(s: string) returns (parts: seq<string>)
    ensures parts == Split(s)
  {
    parts := [];
    var cur := "";
    for i := 0 to |s|
      invariant SplitFrom(s[i..], parts, cur) == Split(s)
    {
      if s[i] == '.' {
        parts := parts + [cur];
        cur := "";
      } else {
        cur := cur + [s[i]];
      }
    }
    if cur != "" {
      parts := parts + [cur];
    }
  }

  predicate IsDigit(c: char) {
    '0' <= c <= '9'
  }

  predicate AllDigits(s: string) {
    forall i | 0 <= i < |s| :: IsDigit(s[i])
  }

  function Parsed(s: string): int
    requires AllDigits(s)
  {
    if s == "" then 0 else Wrap64(Parsed(s[..|s| - 1]) * 10 + (s[|s| - 1] as int - '0' as int))
  }

  method ParseInt(s: string) returns (n: int, ok: bool)
    ensures ok <==> s != "" && AllDigits(s)
    ensures n == if ok then Parsed(s) else 0
  {
    n := 0;
    if s == "" {
      return 0, false;
    }
    for i := 0 to |s|
      invariant AllDigits(s[..i]) && n == Parsed(s[..i])
    {
      if s[i] < '0' || s[i] > '9' {
        return 0, false;
      }
      assert s[..i + 1][..i] == s[..i];
      n := Wrap64(n * 10 + (s[i] as int - '0' as int));
    }
    assert s[..|s|] == s;
    return n, true;
  }

  // ---------- versionLess ----------

  function StringLess(a: string, b: string): bool {
    if b == "" then false
    else if a == "" then true
    else a[0] < b[0] || (a[0] == b[0] && StringLess(a[1..], b[1..]))
  }

  predicate IsNumeral(s: string) {
    s != "" && AllDigits(s)
  }

  /** How two different segments compare. */
  predicate SegmentLess(a: string, b: string) {
    if IsNumeral(a) && IsNumeral(b) then Parsed(a) < Parsed(b) else StringLess(a, b)
  }

  predicate PartsLess(a: seq<string>, b: seq<string>) {
    if a == [] || b == [] then |a| < |b|
    else if a[0] == b[0] then PartsLess(a[1..], b[1..])
    else SegmentLess(a[0], b[0])
  }

  predicate Less(a: string, b: string) {
    PartsLess(Split(a), Split(b))
  }

  method VersionLess(a: string, b: string) returns (less: bool)
    ensures less == Less(a, b)
  {
    var pa := SplitVersion(a);
    var pb := SplitVersion(b);
    var i := 0;
    while i < |pa| && i < |pb|
      invariant i <= |pa| && i <= |pb|
      invariant PartsLess(pa[i..], pb[i..]) == Less(a, b)
    {
      assert pa[i..][1..] == pa[i + 1..] && pb[i..][1..] == pb[i + 1..];
      if pa[i] != pb[i] {
        var ai, aOk := ParseInt(pa[i]);
        var bi, bOk := ParseInt(pb[i]);
        if aOk && bOk {
          return ai < bi;
        }
        return StringLess(pa[i], pb[i]);
      }
      i := i + 1;
    }
    return |pa| < |pb|;
  }

  // ---------- what they compute ----------

  /** Every segment followed by a dot. */
  function Dotted(parts: seq<string>): string {
    if parts == [] then "" else Dotted(parts[..|parts| - 1]) + parts[|parts| - 1] + "."
  }

  /** The dots of a version end its segments; only a last segment may lack one. No segment contains a dot. */
  lemma SplitExactly(s: string)
    ensures Dotted(Split(s)) == if s == "" || s[|s| - 1] == '.' then s else s + "."
    ensures forall i | 0 <= i < |Split(s)| :: '.' !in Split(s)[i]
  {
    SplitRejoins(s, [], "");
    assert Dotted([]) + "" + s == s;
  }

  lemma {:induction false} SplitRejoins(s: string, parts: seq<string>, cur: string)
    requires '.' !in cur && forall i | 0 <= i < |parts| :: '.' !in parts[i]
    ensures var all := SplitFrom(s, parts, cur);
            && Dotted(all) == Dotted(parts) + cur + s + (if s == "" then (if cur == "" then "" else ".")
                                                         else if s[|s| - 1] == '.' then "" else ".")
            && forall i | 0 <= i < |all| :: '.' !in all[i]
    decreases |s|
  {
    assert (parts + [cur])[..|parts|] == parts;
    if s != "" {
      assert s == [s[0]] + s[1..];
      if s[0] == '.' {
        SplitRejoins(s[1..], parts + [cur], "");
        assert Dotted(parts + [cur]) + "" + s[1..] == Dotted(parts) + cur + s;
      } else {
        SplitRejoins(s[1..], parts, cur + [s[0]]);
        assert Dotted(parts) + (cur + [s[0]]) + s[1..] == Dotted(parts) + cur + s;
      }
    }
  }

  /** A string comes before another if it is a proper prefix of it, or has the lower character where they first differ. */
  lemma {:induction false} StringLessExactly(a: string, b: string)
    ensures StringLess(a, b) <==>
      (a != b && a <= b) || exists i :: 0 <= i < |a| && i < |b| && a[..i] == b[..i] && a[i] < b[i]
    decreases |a|
  {
    if a != "" && b != "" {
      if a[0] == b[0] {
        StringLessExactly(a[1..], b[1..]);
        assert a == [a[0]] + a[1..] && b == [b[0]] + b[1..];
        DifferLater(a, b);
      } else {
        assert a[..0] == b[..0];
        FirstDecides(a, b);
      }
    }
  }

  lemma FirstDecides(a: string, b: string)
    requires a != "" && b != "" && a[0] != b[0]
    ensures (exists i :: 0 <= i < |a| && i < |b| && a[..i] == b[..i] && a[i] < b[i]) <==> a[0] < b[0]
  {
    if a[0] < b[0] {
      assert a[..0] == b[..0];
    }
    forall i | 0 < i < |a| && i < |b|
      ensures a[..i] != b[..i]
    {
      assert a[..i][0] != b[..i][0];
    }
  }

  lemma DifferLater(a: string, b: string)
    requires a != "" && b != "" && a[0] == b[0]
    ensures (exists i :: 0 <= i < |a| && i < |b| && a[..i] == b[..i] && a[i] < b[i])
            <==> exists i :: 0 <= i < |a[1..]| && i < |b[1..]| && a[1..][..i] == b[1..][..i] && a[1..][i] < b[1..][i]
  {
    forall i | 0 <= i < |a| - 1 && i < |b| - 1
      ensures a[1..][..i] == b[1..][..i] <==> a[..i + 1] == b[..i + 1]
      ensures a[1..][i] == a[i + 1] && b[1..][i] == b[i + 1]
    {
      assert a[..i + 1] == [a[0]] + a[1..][..i] && b[..i + 1] == [b[0]] + b[1..][..i];
      assert a[..i + 1][1..] == a[1..][..i] && b[..i + 1][1..] == b[1..][..i];
    }
    if i :| 0 <= i < |a| && i < |b| && a[..i] == b[..i] && a[i] < b[i] {
      assert i > 0;
      assert a[1..][..i - 1] == b[1..][..i - 1] && a[1..][i - 1] < b[1..][i - 1];
    }
    if i :| 0 <= i < |a[1..]| && i < |b[1..]| && a[1..][..i] == b[1..][..i] && a[1..][i] < b[1..][i] {
      assert a[..i + 1] == b[..i + 1] && a[i + 1] < b[i + 1];
    }
  }

  /** Two versions are decided by their first different segments: as numbers if both are numerals, otherwise as strings. */
  lemma {:induction false} FirstDifferenceDecides(a: seq<string>, b: seq<string>, i: nat)
    requires i < |a| && i < |b| && a[..i] == b[..i] && a[i] != b[i]
    ensures PartsLess(a, b) <==>
      if a[i] != "" && AllDigits(a[i]) && b[i] != "" && AllDigits(b[i]) then Wrap64(Value(a[i])) < Wrap64(Value(b[i]))
      else StringLess(a[i], b[i])
    decreases i
  {
    if i > 0 {
      assert a[0] == a[..i][0] == b[..i][0] == b[0];
      assert a[1..][..i - 1] == a[..i][1..] && b[1..][..i - 1] == b[..i][1..];
      FirstDifferenceDecides(a[1..], b[1..], i - 1);
    } else if IsNumeral(a[0]) && IsNumeral(b[0]) {
      ParsedWraps(a[0]);
      ParsedWraps(b[0]);
    }
  }

  /** Without one, the version with fewer segments comes first. */
  lemma {:induction false} FewerSegmentsFirst(a: seq<string>, b: seq<string>)
    requires a <= b
    ensures PartsLess(a, b) <==> |a| < |b|
    ensures !PartsLess(b, a)
    decreases |a|
  {
    if a != [] {
      FewerSegmentsFirst(a[1..], b[1..]);
    }
  }

  // ---------- canonical versions ----------

  function Numeral(n: nat): (s: string)
    ensures s != "" && AllDigits(s)
  {
    var d := [(n % 10 + '0' as int) as char];
    if n < 10 then d else Numeral(n / 10) + d
  }

  /** Numerals without leading zeros, joined by dots. */
  function Render(xs: seq<nat>): string {
    if xs == [] then ""
    else if |xs| == 1 then Numeral(xs[0])
    else Numeral(xs[0]) + ("." + Render(xs[1..]))
  }

  predicate FitsInt(xs: seq<nat>) {
    forall i | 0 <= i < |xs| :: xs[i] < TWO_TO_63
  }

  /** Lexicographic order on lists of numbers. */
  predicate LexLess(xs: seq<nat>, ys: seq<nat>) {
    if xs == [] || ys == [] then |xs| < |ys|
    else xs[0] < ys[0] || (xs[0] == ys[0] && LexLess(xs[1..], ys[1..]))
  }

  function Numerals(xs: seq<nat>): (parts: seq<string>)
    ensures |parts| == |xs|
  {
    if xs == [] then [] else [Numeral(xs[0])] + Numerals(xs[1..])
  }

  /** The number a string of digits denotes. */
  function Value(s: string): nat
    requires AllDigits(s)
  {
    if s == "" then 0 else Value(s[..|s| - 1]) * 10 + (s[|s| - 1] as int - '0' as int)
  }

  lemma WrapStep(x: int, d: int)
    ensures Wrap64(Wrap64(x) * 10 + d) == Wrap64(x * 10 + d)
  {
    var q := (x + TWO_TO_63) / TWO_TO_64;
    assert Wrap64(x) == x - q * TWO_TO_64;
  }

  /** parseInt reads the value modulo 2^64, as a signed number. */
  lemma {:induction false} ParsedWraps(s: string)
    requires AllDigits(s)
    ensures Parsed(s) == Wrap64(Value(s))
  {
    if s != "" {
      ParsedWraps(s[..|s| - 1]);
      WrapStep(Value(s[..|s| - 1]), s[|s| - 1] as int - '0' as int);
    }
  }

  lemma {:induction false} NumeralValue(n: nat)
    ensures Value(Numeral(n)) == n
  {
    var s := Numeral(n);
    assert s[|s| - 1] as int - '0' as int == n % 10;
    if n < 10 {
      assert s[..|s| - 1] == "";
    } else {
      assert s[..|s| - 1] == Numeral(n / 10);
      NumeralValue(n / 10);
    }
  }

  lemma SegmentsByValue(a: string, b: string)
    requires a != "" && b != "" && AllDigits(a) && AllDigits(b)
    ensures SegmentLess(a, b) <==> Wrap64(Value(a)) < Wrap64(Value(b))
  {
    ParsedWraps(a);
    ParsedWraps(b);
  }

  lemma NumeralsCompare(n: nat, m: nat)
    ensures SegmentLess(Numeral(n), Numeral(m)) <==> Wrap64(n) < Wrap64(m)
    ensures Numeral(n) == Numeral(m) <==> n == m
  {
    SegmentsByValue(Numeral(n), Numeral(m));
    NumeralValue(n);
    NumeralValue(m);
  }

  lemma FittingNumbers(n: nat)
    requires n < TWO_TO_63
    ensures Wrap64(n) == n
  {
  }

  lemma {:induction false} SplitSkips(seg: string, rest: string, parts: seq<string>, cur: string)
    requires '.' !in seg
    ensures SplitFrom(seg + rest, parts, cur) == SplitFrom(rest, parts, cur + seg)
  {
    if seg == "" {
      assert seg + rest == rest && cur + seg == cur;
    } else {
      assert (seg + rest)[1..] == seg[1..] + rest;
      SplitSkips(seg[1..], rest, parts, cur + [seg[0]]);
      assert cur + [seg[0]] + seg[1..] == cur + seg;
    }
  }

  /** Splitting undoes rendering. */
  lemma {:induction false} SplitRender(xs: seq<nat>, parts: seq<string>)
    ensures SplitFrom(Render(xs), parts, "") == parts + Numerals(xs)
    decreases |xs|
  {
    if |xs| == 1 {
      SplitLast(Numeral(xs[0]), parts);
      Associates(parts, Numeral(xs[0]), []);
    } else if |xs| > 1 {
      var d := Numeral(xs[0]);
      SplitFirst(d, Render(xs[1..]), parts);
      SplitRender(xs[1..], parts + [d]);
      Associates(parts, d, Numerals(xs[1..]));
    }
  }

  lemma Associates(parts: seq<string>, d: string, rest: seq<string>)
    ensures parts + ([d] + rest) == parts + [d] + rest
    ensures rest == [] ==> parts + ([d] + rest) == parts + [d]
  {
  }

  lemma SplitLast(d: string, parts: seq<string>)
    requires d != "" && AllDigits(d)
    ensures SplitFrom(d, parts, "") == parts + [d]
  {
    SplitSkips(d, "", parts, "");
    assert d + "" == d && "" + d == d;
  }

  lemma SplitFirst(d: string, rest: string, parts: seq<string>)
    requires AllDigits(d)
    ensures SplitFrom(d + ("." + rest), parts, "") == SplitFrom(rest, parts + [d], "")
  {
    SplitSkips(d, "." + rest, parts, "");
    assert "" + d == d && ("." + rest)[1..] == rest;
  }

  lemma {:induction false} PartsLessIsLex(xs: seq<nat>, ys: seq<nat>)
    requires FitsInt(xs) && FitsInt(ys)
    ensures PartsLess(Numerals(xs), Numerals(ys)) <==> LexLess(xs, ys)
    decreases |xs|
  {
    if xs != [] && ys != [] {
      NumeralsCompare(xs[0], ys[0]);
      FittingNumbers(xs[0]);
      FittingNumbers(ys[0]);
      assert Numerals(xs)[1..] == Numerals(xs[1..]) && Numerals(ys)[1..] == Numerals(ys[1..]);
      PartsLessIsLex(xs[1..], ys[1..]);
    }
  }

  /** On canonical versions whose segments fit a 64-bit int, versionLess is the lexicographic order on the numbers. */
  lemma VersionOrderIsLexicographic(xs: seq<nat>, ys: seq<nat>)
    requires FitsInt(xs) && FitsInt(ys)
    ensures Less(Render(xs), Render(ys)) <==> LexLess(xs, ys)
  {
    SplitRender(xs, []);
    SplitRender(ys, []);
    assert [] + Numerals(xs) == Numerals(xs) && [] + Numerals(ys) == Numerals(ys);
    PartsLessIsLex(xs, ys);
  }

  lemma {:induction false} LexIsStrictTotalOrder(xs: seq<nat>, ys: seq<nat>, zs: seq<nat>)
    ensures !LexLess(xs, xs)
    ensures LexLess(xs, ys) && LexLess(ys, zs) ==> LexLess(xs, zs)
    ensures LexLess(xs, ys) || xs == ys || LexLess(ys, xs)
    decreases |xs| + |ys| + |zs|
  {
    if xs != [] {
      LexIsStrictTotalOrder(xs[1..], if ys == [] then [] else ys[1..], if zs == [] then [] else zs[1..]);
      if ys != [] {
        assert xs == [xs[0]] + xs[1..] && ys == [ys[0]] + ys[1..];
      }
    }
  }

  /** versionLess is a strict total order on canonical versions. */
  lemma VersionOrderIsTotal(xs: seq<nat>, ys: seq<nat>, zs: seq<nat>)
    requires FitsInt(xs) && FitsInt(ys) && FitsInt(zs)
    ensures !Less(Render(xs), Render(xs))
    ensures Less(Render(xs), Render(ys)) && Less(Render(ys), Render(zs)) ==> Less(Render(xs), Render(zs))
    ensures Less(Render(xs), Render(ys)) || Render(xs) == Render(ys) || Less(Render(ys), Render(xs))
  {
    VersionOrderIsLexicographic(xs, xs);
    VersionOrderIsLexicographic(xs, ys);
    VersionOrderIsLexicographic(ys, xs);
    VersionOrderIsLexicographic(ys, zs);
    VersionOrderIsLexicographic(xs, zs);
    LexIsStrictTotalOrder(xs, ys, zs);
  }

  // ---------- versions outside the canonical form ----------

  predicate NumericParts(parts: seq<string>) {
    forall i | 0 <= i < |parts| :: IsNumeral(parts[i])
  }

  /** The first segments that differ are numerals that denote the same number modulo 2^64. */
  predicate Twins(a: seq<string>, b: seq<string>) {
    a != [] && b != [] &&
    if a[0] == b[0] then Twins(a[1..], b[1..])
    else IsNumeral(a[0]) && IsNumeral(b[0]) && (Value(a[0]) - Value(b[0])) % TWO_TO_64 == 0
  }

  lemma WrapCongruent(x: int, y: int)
    ensures Wrap64(x) == Wrap64(y) <==> (x - y) % TWO_TO_64 == 0
  {
    var p, q := (x + TWO_TO_63) / TWO_TO_64, (y + TWO_TO_63) / TWO_TO_64;
    assert x - y == Wrap64(x) - Wrap64(y) + (p - q) * TWO_TO_64;
    RemainderOfSum(Wrap64(x) - Wrap64(y), p - q);
  }

  lemma RemainderOfSum(r: int, q: int)
    requires -TWO_TO_64 < r < TWO_TO_64
    ensures (r + q * TWO_TO_64) % TWO_TO_64 == 0 <==> r == 0
  {
  }

  /** Comparing strings is a strict total order. */
  lemma {:induction false} StringOrder(a: string, b: string, c: string)
    ensures !StringLess(a, a)
    ensures StringLess(a, b) && StringLess(b, c) ==> StringLess(a, c)
    ensures StringLess(a, b) || a == b || StringLess(b, a)
    decreases |a| + |b| + |c|
  {
    if a != "" {
      StringOrder(a[1..], if b == "" then "" else b[1..], if c == "" then "" else c[1..]);
      if b != "" {
        assert a == [a[0]] + a[1..] && b == [b[0]] + b[1..];
      }
    }
  }

  lemma SegmentsTieExactly(a: string, b: string)
    requires a != b
    ensures !SegmentLess(a, b) && !SegmentLess(b, a)
            <==> IsNumeral(a) && IsNumeral(b) && (Value(a) - Value(b)) % TWO_TO_64 == 0
  {
    if IsNumeral(a) && IsNumeral(b) {
      SegmentsByValue(a, b);
      SegmentsByValue(b, a);
      WrapCongruent(Value(a), Value(b));
    } else {
      StringOrder(a, b, a);
    }
  }

  /** Two different lists of segments are left unordered exactly when their first different segments are twins, such as
      a numeral and the same numeral with a leading zero. */
  lemma {:induction false} UnorderedExactly(a: seq<string>, b: seq<string>)
    ensures !PartsLess(a, b) && !PartsLess(b, a) <==> a == b || Twins(a, b)
    decreases |a|
  {
    if a != [] && b != [] {
      if a[0] == b[0] {
        UnorderedExactly(a[1..], b[1..]);
        assert a == [a[0]] + a[1..] && b == [b[0]] + b[1..];
      } else {
        SegmentsTieExactly(a[0], b[0]);
      }
    }
  }

  // ---------- where transitivity fails ----------

  /** Two numerals and a segment that is no numeral: as numbers p comes before q or ties with it, but as strings the
      third lies between them the other way round. */
  predicate Snag(p: string, q: string, x: string) {
    && IsNumeral(p) && IsNumeral(q) && !IsNumeral(x)
    && Parsed(p) <= Parsed(q) && StringLess(q, x) && StringLess(x, p)
  }

  lemma SegmentsChainExactly(a: string, b: string, c: string)
    ensures SegmentLess(a, b) && SegmentLess(b, c) ==>
              SegmentLess(a, c) || Snag(a, b, c) || Snag(b, c, a) || Snag(c, a, b)
    ensures !SegmentLess(a, a)
    ensures SegmentLess(a, b) ==> !SegmentLess(b, a)
  {
    StringOrder(a, b, c);
    StringOrder(a, b, a);
    StringOrder(a, c, a);
  }

  /** The segments at the first position where not all three agree are a snag. */
  predicate Tangled(a: seq<string>, b: seq<string>, c: seq<string>) {
    a != [] && b != [] && c != [] &&
    if a[0] == b[0] == c[0] then Tangled(a[1..], b[1..], c[1..]) else Snag(a[0], b[0], c[0])
  }

  /** The order is irreflexive, and transitive but for a snag. */
  lemma {:induction false} OrderChains(a: seq<string>, b: seq<string>, c: seq<string>)
    ensures !PartsLess(a, a)
    ensures PartsLess(a, b) && PartsLess(b, c) ==>
              PartsLess(a, c) || Tangled(a, b, c) || Tangled(b, c, a) || Tangled(c, a, b)
    decreases |a|
  {
    if a != [] {
      OrderChains(a[1..], if b == [] then [] else b[1..], if c == [] then [] else c[1..]);
      if b != [] && c != [] {
        SegmentsChainExactly(a[0], b[0], c[0]);
      }
    }
  }

  lemma SnagTurns(p: string, q: string, x: string)
    requires Snag(p, q, x)
    ensures p != q && q != x && x != p && SegmentLess(q, x) && SegmentLess(x, p)
    ensures SegmentLess(p, q) || (Value(p) - Value(q)) % TWO_TO_64 == 0
  {
    StringOrder(q, x, p);
    StringOrder(p, p, p);
    StringOrder(q, q, q);
    if !SegmentLess(p, q) {
      SegmentsTieExactly(p, q);
    }
  }

  /** A snag makes a cycle, or a pair of twins. */
  lemma {:induction false} TangledTurns(a: seq<string>, b: seq<string>, c: seq<string>)
    requires Tangled(a, b, c)
    ensures PartsLess(a, b) || Twins(a, b)
    ensures PartsLess(b, c) && PartsLess(c, a)
    decreases |a|
  {
    if a[0] == b[0] == c[0] {
      TangledTurns(a[1..], b[1..], c[1..]);
    } else {
      SnagTurns(a[0], b[0], c[0]);
    }
  }

  lemma {:induction false} NumericIsNotTangled(a: seq<string>, b: seq<string>, c: seq<string>)
    requires NumericParts(c)
    ensures !Tangled(a, b, c)
    decreases |a|
  {
    if a != [] && b != [] && c != [] && a[0] == b[0] == c[0] {
      NumericIsNotTangled(a[1..], b[1..], c[1..]);
    }
  }

  /** On numeric versions of any size the order is irreflexive and transitive. */
  lemma NumericOrderIsStrict(a: seq<string>, b: seq<string>, c: seq<string>)
    requires NumericParts(a) && NumericParts(b) && NumericParts(c)
    ensures !PartsLess(a, a)
    ensures PartsLess(a, b) && PartsLess(b, c) ==> PartsLess(a, c)
  {
    OrderChains(a, b, c);
    NumericIsNotTangled(a, b, c);
    NumericIsNotTangled(b, c, a);
    NumericIsNotTangled(c, a, b);
  }

  /** versionLess is a strict total order on the set. */
  ghost predicate StrictTotalOrder(vs: set<string>) {
    && (forall a | a in vs :: !Less(a, a))
    && (forall a, b, c | a in vs && b in vs && c in vs :: Less(a, b) && Less(b, c) ==> Less(a, c))
    && (forall a, b | a in vs && b in vs && a != b :: Less(a, b) || Less(b, a))
  }

  /** No two different versions have the same segments or are twins. */
  ghost predicate Untied(vs: set<string>) {
    forall a, b | a in vs && b in vs && a != b :: Split(a) != Split(b) && !Twins(Split(a), Split(b))
  }

  ghost predicate Untangled(vs: set<string>) {
    forall a, b, c | a in vs && b in vs && c in vs :: !Tangled(Split(a), Split(b), Split(c))
  }

  /** Any set of versions, whatever their segments, is strictly totally ordered exactly when no two of them are tied and
      no three of them first differ at a snag. */
  lemma VersionsAreOrderedExactly(vs: set<string>)
    ensures StrictTotalOrder(vs) <==> Untied(vs) && Untangled(vs)
  {
    if Untied(vs) && Untangled(vs) {
      UntangledIsOrdered(vs);
    }
    if StrictTotalOrder(vs) {
      OrderedIsUntied(vs);
      OrderedIsUntangled(vs);
    }
  }

  lemma UntangledIsOrdered(vs: set<string>)
    requires Untied(vs) && Untangled(vs)
    ensures StrictTotalOrder(vs)
  {
    forall a, b, c | a in vs && b in vs && c in vs
      ensures !Less(a, a) && (Less(a, b) && Less(b, c) ==> Less(a, c))
    {
      OrderChains(Split(a), Split(b), Split(c));
    }
    forall a, b | a in vs && b in vs && a != b
      ensures Less(a, b) || Less(b, a)
    {
      UnorderedExactly(Split(a), Split(b));
    }
  }

  lemma OrderedIsUntied(vs: set<string>)
    requires StrictTotalOrder(vs)
    ensures Untied(vs)
  {
    forall a, b | a in vs && b in vs && a != b
      ensures Split(a) != Split(b) && !Twins(Split(a), Split(b))
    {
      UnorderedExactly(Split(a), Split(b));
    }
  }

  lemma OrderedIsUntangled(vs: set<string>)
    requires StrictTotalOrder(vs)
    ensures Untangled(vs)
  {
    OrderedIsUntied(vs);
    forall a, b, c | a in vs && b in vs && c in vs
      ensures !Tangled(Split(a), Split(b), Split(c))
    {
      if Tangled(Split(a), Split(b), Split(c)) {
        TangledTurns(Split(a), Split(b), Split(c));
        UnorderedExactly(Split(a), Split(b));
      }
    }
  }

  /** A set of numeric versions, canonical or not and of any size, is strictly totally ordered exactly when no two of
      them are tied. */
  lemma NumericVersionsAreOrderedExactly(vs: set<string>)
    requires forall v | v in vs :: NumericParts(Split(v))
    ensures StrictTotalOrder(vs) <==> Untied(vs)
  {
    VersionsAreOrderedExactly(vs);
    forall a, b, c | a in vs && b in vs && c in vs
      ensures !Tangled(Split(a), Split(b), Split(c))
    {
      NumericIsNotTangled(Split(a), Split(b), Split(c));
    }
  }

  // ---------- where the order is not the numeric one ----------

  /** The first numbers that differ compare modulo 2^64, signed, as they do without bounds. */
  predicate OrderFits(xs: seq<nat>, ys: seq<nat>) {
    xs == [] || ys == [] ||
    if xs[0] == ys[0] then OrderFits(xs[1..], ys[1..]) else (Wrap64(xs[0]) < Wrap64(ys[0]) <==> xs[0] < ys[0])
  }

  lemma {:induction false} PartsFollowExactly(xs: seq<nat>, ys: seq<nat>)
    ensures (PartsLess(Numerals(xs), Numerals(ys)) <==> LexLess(xs, ys)) <==> OrderFits(xs, ys)
    decreases |xs|
  {
    if xs != [] && ys != [] {
      NumeralsCompare(xs[0], ys[0]);
      assert Numerals(xs)[1..] == Numerals(xs[1..]) && Numerals(ys)[1..] == Numerals(ys[1..]);
      PartsFollowExactly(xs[1..], ys[1..]);
    }
  }

  /** On canonical versions of any size, versionLess agrees with the lexicographic order on the numbers exactly when it
      does so at the first numbers that differ. */
  lemma CanonicalOrderExactly(xs: seq<nat>, ys: seq<nat>)
    ensures (Less(Render(xs), Render(ys)) <==> LexLess(xs, ys)) <==> OrderFits(xs, ys)
  {
    SplitRender(xs, []);
    SplitRender(ys, []);
    assert [] + Numerals(xs) == Numerals(xs) && [] + Numerals(ys) == Numerals(ys);
    PartsFollowExactly(xs, ys);
  }

  /** A numeral from 2^63 up to 2^64 compares below every smaller one that fits. */
  lemma LargeSegmentsWrap(n: nat, m: nat)
    requires m < TWO_TO_63 <= n < TWO_TO_64
    ensures PartsLess([Numeral(n)], [Numeral(m)])
  {
    NumeralsCompare(n, m);
    WrapsBelow(n, m);
    OneSegmentEach(Numeral(n), Numeral(m));
  }

  lemma WrapsBelow(n: nat, m: nat)
    requires m < TWO_TO_63 <= n < TWO_TO_64
    ensures Wrap64(n) < 0 <= Wrap64(m)
  {
  }

  lemma OneSegmentEach(a: string, b: string)
    requires a != b
    ensures PartsLess([a], [b]) <==> SegmentLess(a, b)
  {
  }

  lemma SingleSegment(s: string)
    requires s != "" && '.' !in s
    ensures Split(s) == [s]
  {
    SplitSkips(s, "", [], "");
    assert s + "" == s && "" + s == s;
  }

  /** With a segment that is not a number the order can be a cycle. */
  lemma MixedSegmentsCycle()
    ensures Less("9", "10") && Less("10", "1a") && Less("1a", "9")
  {
    SingleSegments("9", "10");
    SingleSegments("10", "1a");
    SingleSegments("1a", "9");
    NineBelowTen();
    assert "1a"[1] == 'a' && !AllDigits("1a");
    assert "10"[1..] == "0" && "1a"[1..] == "a";
    assert StringLess("0", "a");
  }

  lemma SingleSegments(a: string, b: string)
    requires a != "" && b != "" && '.' !in a && '.' !in b && a != b
    ensures Less(a, b) <==> SegmentLess(a, b)
  {
    SingleSegment(a);
    SingleSegment(b);
  }

  lemma NineBelowTen()
    ensures SegmentLess("9", "10")
  {
    NumeralsCompare(9, 10);
    assert "1" == Numeral(1) && "0" == [(10 % 10 + '0' as int) as char];
    assert Numeral(10) == "1" + "0" == "10";
    assert Numeral(9) == "9";
  }

  // ---------- OfferUpdate ----------

  /** A row of agent_update_bundles; minFrom is "" when there is no minimum. */
  datatype Bundle = Bundle(id: nat, target: string, minFrom: string)

  type AgentId = nat

  /** The agent is not on the bundle's version already and is not below the minimum it asks for. */
  predicate Applies(b: Bundle, current: string) {
    b.target != current && (b.minFrom == "" || current == "" || !Less(current, b.minFrom))
  }

  /** agent_update_assignments, and the choice over the bundles that are not paused, newest rollout first. */
  class Offers {
    var assignments: set<(AgentId, nat)>

    constructor ()
      ensures assignments == {}
    {
      assignments := {};
    }

    /** `queried` says whether the query succeeds; its result set breaks off after `readable` rows, which nothing
        checks. An INSERT that the database refuses (`recorded` is false) goes unnoticed as well. */
    method OfferUpdate(bundles: seq<Bundle>, queried: bool, readable: nat, agent: AgentId, current: string,
                       recorded: bool)
      returns (r: Result<Option<Bundle>, string>)
      modifies this
      ensures r.Ok? <==> queried
      ensures r == Ok(None) <==>
              queried && forall i | 0 <= i < |bundles| && i < readable :: !Applies(bundles[i], current)
      ensures r.Ok? && r.value.Some? ==>
        var b := r.value.value;
        && b.target != current
        && (b.minFrom == "" || current == "" || !Less(current, b.minFrom))
      ensures r.Ok? && r.value.Some? ==> exists i ::
                0 <= i < |bundles| && i < readable && r.value == Some(bundles[i]) && Applies(bundles[i], current)
                && forall j | 0 <= j < i :: !Applies(bundles[j], current)
      ensures assignments == old(assignments) +
        if recorded && r.Ok? && r.value.Some? then {(agent, r.value.value.id)} else {}
    {
      if !queried {
        return Err("query failed");
      }
      for k := 0 to |bundles|
        invariant k <= readable
        invariant forall j | 0 <= j < k :: !Applies(bundles[j], current)
        invariant assignments == old(assignments)
      {
        if k == readable {
          break;
        }
        var b := bundles[k];
        if b.target == current {
          continue;
        }
        if b.minFrom != "" && current != "" {
          var below := VersionLess(current, b.minFrom);
          if below {
            continue;
          }
        }
        if recorded {
          assignments := assignments + {(agent, b.id)};
        }
        return Ok(Some(b));
      }
      return Ok(None);
    }
  }

  /** A bundle is withheld for two reasons only: the agent is on its version already, or both versions are given and the
      agent's is below the minimum. */
  lemma WithheldExactly(b: Bundle, current: string)
    ensures !Applies(b, current) <==>
      b.target == current || (b.minFrom != "" && current != "" && Less(current, b.minFrom))
  {
  }

  /** The minimum-version gate, in numbers: between canonical versions a bundle applies exactly when the agent is on
      a different version that is lexicographically at or above the minimum. */
  lemma GateIsNumeric(b: Bundle, current: seq<nat>, min: seq<nat>)
    requires FitsInt(current) && FitsInt(min) && current != [] && min != []
    requires b.minFrom == Render(min)
    ensures Applies(b, Render(current)) <==>
              b.target != Render(current) && (min == current || LexLess(min, current))
  {
    VersionOrderIsLexicographic(current, min);
    LexIsStrictTotalOrder(current, min, current);
    LexIsStrictTotalOrder(min, current, min);
  }
}
