/** Truncating a string to a byte budget without cutting a UTF-8 sequence (section 3 of RFC 3629). */
module CapString {

  newtype Byte = b: int | 0 <= b < 256

  type Text = seq<Byte>

  predicate IsContinuation(b: Byte) {
    0x80 <= b < 0xC0
  }

  /** utf8.RuneStart: anything but a continuation byte. */
  predicate RuneStart(b: Byte) {
    !IsContinuation(b)
  }

  predicate InRange(b: Byte, lo: Byte, hi: Byte) {
    lo <= b <= hi
  }

  /** The length of the well-formed UTF-8 sequence at the head of s, or 0. Overlong forms, surrogates and values
      above U+10FFFF are not well formed. */
  function HeadLength(s: Text): (n: nat)
    ensures n <= |s| && n <= 4
    ensures n > 0 ==> RuneStart(s[0]) && forall i | 1 <= i < n :: IsContinuation(s[i])
  {
    if s == [] then 0
    else if s[0] < 0x80 then 1
    else if InRange(s[0], 0xC2, 0xDF) && |s| >= 2 && IsContinuation(s[1]) then 2
    else if |s| >= 3 && IsContinuation(s[1]) && IsContinuation(s[2]) &&
            ((s[0] == 0xE0 && s[1] >= 0xA0) || InRange(s[0], 0xE1, 0xEC)
             || (s[0] == 0xED && s[1] < 0xA0) || InRange(s[0], 0xEE, 0xEF)) then 3
    else if |s| >= 4 && IsContinuation(s[1]) && IsContinuation(s[2]) && IsContinuation(s[3]) &&
            ((s[0] == 0xF0 && s[1] >= 0x90) || InRange(s[0], 0xF1, 0xF3) || (s[0] == 0xF4 && s[1] < 0x90)) then 4
    else 0
  }

  predicate ValidUtf8(s: Text) {
    s == [] || (HeadLength(s) > 0 && ValidUtf8(s[HeadLength(s)..]))
  }

  // ---------- what valid means ----------

  /** A Unicode scalar value. */
  predicate IsScalar(r: int) {
    0 <= r <= 0x10FFFF && !(0xD800 <= r <= 0xDFFF)
  }

  function Tail(r: int): Byte
    requires 0 <= r
  {
    (0x80 + r % 64) as Byte
  }

  /** The UTF-8 encoding of a scalar value. */
  function EncodeRune(r: int): (s: Text)
    requires IsScalar(r)
    ensures 1 <= |s| <= 4
  {
    if r < 0x80 then [r as Byte]
    else if r < 0x800 then [(0xC0 + r / 64) as Byte, Tail(r)]
    else if r < 0x10000 then [(0xE0 + r / 4096) as Byte, Tail(r / 64), Tail(r)]
    else [(0xF0 + r / 262144) as Byte, Tail(r / 4096), Tail(r / 64), Tail(r)]
  }

  /** The scalar value that n bytes of a well-formed head spell. */
  function DecodeRune(s: Text, n: nat): int
    requires 1 <= n <= 4 && n <= |s|
  {
    if n == 1 then s[0] as int
    else if n == 2 then (s[0] as int - 0xC0) * 64 + (s[1] as int - 0x80)
    else if n == 3 then ((s[0] as int - 0xE0) * 64 + (s[1] as int - 0x80)) * 64 + (s[2] as int - 0x80)
    else (((s[0] as int - 0xF0) * 64 + (s[1] as int - 0x80)) * 64 + (s[2] as int - 0x80)) * 64 + (s[3] as int - 0x80)
  }

  lemma EncodedIsHead(r: int, rest: Text)
    requires IsScalar(r)
    ensures HeadLength(EncodeRune(r) + rest) == |EncodeRune(r)|
  {
    var s, e := EncodeRune(r) + rest, EncodeRune(r);
    assert forall i | 0 <= i < |e| :: s[i] == e[i];
  }

  /** A well-formed head is the encoding of one scalar value: no overlong form, no surrogate, nothing above U+10FFFF. */
  lemma HeadIsEncoded(s: Text)
    requires HeadLength(s) > 0
    ensures var n := HeadLength(s); var r := DecodeRune(s, n); IsScalar(r) && s[..n] == EncodeRune(r)
  {
    var n := HeadLength(s);
    if n == 2 {
      TwoBytes(s[0] as int - 0xC0, s[1] as int - 0x80);
    } else if n == 3 {
      ThreeByteHead(s);
    } else if n == 4 {
      FourByteHead(s);
    }
  }

  lemma ThreeByteHead(s: Text)
    requires HeadLength(s) == 3
    ensures IsScalar(DecodeRune(s, 3)) && s[..3] == EncodeRune(DecodeRune(s, 3))
  {
    ThreeBytes(s[0] as int - 0xE0, s[1] as int - 0x80, s[2] as int - 0x80);
  }

  lemma FourByteHead(s: Text)
    requires HeadLength(s) == 4
    ensures IsScalar(DecodeRune(s, 4)) && s[..4] == EncodeRune(DecodeRune(s, 4))
  {
    FourBytes(s[0] as int - 0xF0, s[1] as int - 0x80, s[2] as int - 0x80, s[3] as int - 0x80);
  }

  lemma TwoBytes(a: int, b: int)
    requires 0 <= b < 64
    ensures (a * 64 + b) / 64 == a && (a * 64 + b) % 64 == b
  {
  }

  lemma ThreeBytes(a: int, b: int, c: int)
    requires 0 <= b < 64 && 0 <= c < 64
    ensures var r := (a * 64 + b) * 64 + c; r / 4096 == a && r / 64 % 64 == b && r % 64 == c
  {
    TwoBytes(a * 64 + b, c);
    TwoBytes(a, b);
  }

  lemma FourBytes(a: int, b: int, c: int, d: int)
    requires 0 <= b < 64 && 0 <= c < 64 && 0 <= d < 64
    ensures var r := ((a * 64 + b) * 64 + c) * 64 + d; r / 262144 == a && r / 4096 % 64 == b && r / 64 % 64 == c && r % 64 == d
  {
    TwoBytes((a * 64 + b) * 64 + c, d);
    ThreeBytes(a, b, c);
  }

  predicate AllScalars(rs: seq<int>) {
    forall i | 0 <= i < |rs| :: IsScalar(rs[i])
  }

  function EncodeAll(rs: seq<int>): Text
    requires AllScalars(rs)
  {
    if rs == [] then [] else EncodeRune(rs[0]) + EncodeAll(rs[1..])
  }

  /** What a text decodes to, as far as it is valid. */
  function DecodeAll(s: Text): (rs: seq<int>)
    ensures AllScalars(rs)
  {
    var n := HeadLength(s);
    if n == 0 then []
    else
      HeadIsEncoded(s);
      [DecodeRune(s, n)] + DecodeAll(s[n..])
  }

  /** Valid text is exactly what encoding scalar values produces. */
  lemma {:induction false} EncodedIsValid(rs: seq<int>)
    requires AllScalars(rs)
    ensures ValidUtf8(EncodeAll(rs))
  {
    if rs != [] {
      var head, rest := EncodeRune(rs[0]), EncodeAll(rs[1..]);
      EncodedIsHead(rs[0], rest);
      EncodedIsValid(rs[1..]);
      assert (head + rest)[|head|..] == rest;
    }
  }

  lemma {:induction false} ValidIsEncoded(s: Text)
    requires ValidUtf8(s)
    ensures EncodeAll(DecodeAll(s)) == s
  {
    if s != [] {
      var n := HeadLength(s);
      ValidIsEncoded(s[n..]);
      ConsIsEncoded(s, n);
    }
  }

  lemma ConsIsEncoded(s: Text, n: nat)
    requires 0 < n == HeadLength(s) && EncodeAll(DecodeAll(s[n..])) == s[n..]
    ensures EncodeAll(DecodeAll(s)) == s
  {
    DecodeCons(s, n);
    EncodeCons(DecodeRune(s, n), DecodeAll(s[n..]));
    assert s == s[..n] + s[n..];
  }

  lemma DecodeCons(s: Text, n: nat)
    requires 0 < n == HeadLength(s)
    ensures IsScalar(DecodeRune(s, n)) && EncodeRune(DecodeRune(s, n)) == s[..n]
    ensures DecodeAll(s) == [DecodeRune(s, n)] + DecodeAll(s[n..])
  {
    HeadIsEncoded(s);
  }

  lemma EncodeCons(r: int, rs: seq<int>)
    requires IsScalar(r) && AllScalars(rs)
    ensures AllScalars([r] + rs) && EncodeAll([r] + rs) == EncodeRune(r) + EncodeAll(rs)
  {
    assert ([r] + rs)[1..] == rs;
  }

  // ---------- capString ----------

  function StepBack(s: Text, i: nat): (k: nat)
    requires i < |s|
    ensures k <= i
    ensures k == 0 || RuneStart(s[k])
    ensures forall j | k < j <= i :: IsContinuation(s[j])
  {
    if i == 0 || RuneStart(s[i]) then i else StepBack(s, i - 1)
  }

  function Capped(s: Text, max: int): Text {
    if max <= 0 then [] else if |s| <= max then s else s[..StepBack(s, max)]
  }

  method Cap(s: Text, max: int) returns (r: Text)
    ensures r == Capped(s, max)
  {
    if max <= 0 {
      return [];
    }
    if |s| <= max {
      return s;
    }
    var i: nat := max;
    while i > 0 && !RuneStart(s[i])
      invariant i <= max && StepBack(s, i) == StepBack(s, max)
    {
      i := i - 1;
    }
    return s[..i];
  }

  // ---------- boundaries ----------

  /** A head sequence does not look past its own end. */
  lemma HeadIsLocal(s: Text, i: nat)
    requires i <= |s| && HeadLength(s) <= i
    ensures HeadLength(s) > 0 ==> HeadLength(s[..i]) == HeadLength(s)
  {
  }

  /** A head sequence cut short is not well formed. */
  lemma CutHeadIsMalformed(s: Text, i: nat)
    requires 0 < i < HeadLength(s)
    ensures HeadLength(s[..i]) == 0
  {
  }

  /** In valid text, a position cuts it into valid pieces exactly when a sequence starts there. */
  lemma {:induction false} BoundaryIsRuneStart(s: Text, i: nat)
    requires ValidUtf8(s) && i < |s|
    ensures ValidUtf8(s[..i]) <==> RuneStart(s[i])
  {
    var n := HeadLength(s);
    if i == 0 {
    } else if i < n {
      CutHeadIsMalformed(s, i);
    } else {
      HeadIsLocal(s, i);
      assert s[..i][n..] == s[n..][..i - n];
      BoundaryIsRuneStart(s[n..], i - n);
    }
  }

  /** Valid text never has more than three continuation bytes in a row, and never starts with one. */
  lemma {:induction false} ContinuationsAreShort(s: Text, i: nat)
    requires ValidUtf8(s) && i < |s|
    ensures exists k :: 0 <= k <= i < k + 4 && RuneStart(s[k])
  {
    var n := HeadLength(s);
    if i < n {
      assert RuneStart(s[0]);
    } else {
      ContinuationsAreShort(s[n..], i - n);
      var k :| 0 <= k <= i - n < k + 4 && RuneStart(s[n..][k]);
      assert RuneStart(s[n + k]);
    }
  }

  /** Stepping back stops at the last sequence start. */
  lemma {:induction false} StepBackIsLast(s: Text, i: nat, j: nat)
    requires j <= i < |s| && RuneStart(s[j])
    ensures j <= StepBack(s, i)
  {
    if j < i && IsContinuation(s[i]) {
      StepBackIsLast(s, i - 1, j);
    }
  }

  /** On valid text the result is the longest valid prefix within the budget, at most three bytes short of it. */
  lemma CappedIsLongestPrefix(s: Text, max: int, p: Text)
    requires ValidUtf8(s)
    ensures Capped(s, max) <= s && ValidUtf8(Capped(s, max))
    ensures |Capped(s, max)| <= if max < 0 then 0 else max
    ensures p <= s && ValidUtf8(p) && |p| <= max ==> |p| <= |Capped(s, max)|
    ensures |s| > max ==> |Capped(s, max)| > max - 4
    ensures |s| <= max && max > 0 ==> Capped(s, max) == s
  {
    if 0 < max < |s| {
      var k := StepBack(s, max);
      ContinuationsAreShort(s, max);
      ContinuationsAreShort(s, 0);
      var j :| 0 <= j <= max < j + 4 && RuneStart(s[j]);
      StepBackIsLast(s, max, j);
      BoundaryIsRuneStart(s, k);
      if p <= s && ValidUtf8(p) && |p| <= max {
        assert p == s[..|p|];
        BoundaryIsRuneStart(s, |p|);
        StepBackIsLast(s, max, |p|);
      }
    }
  }

  // ---------- text that is not valid ----------

  /** The length of the longest valid prefix. */
  function ValidLength(s: Text): (n: nat)
    ensures n <= |s|
    ensures ValidUtf8(s[..n])
  {
    var h := HeadLength(s);
    if h == 0 then 0
    else
      var m := ValidLength(s[h..]);
      HeadIsLocal(s, h + m);
      assert s[..h + m][h..] == s[h..][..m];
      h + m
  }

  lemma {:induction false} ValidLengthIsMaximal(s: Text, i: nat)
    requires i <= |s| && ValidUtf8(s[..i])
    ensures i <= ValidLength(s)
  {
    var h := HeadLength(s);
    if i > 0 {
      assert HeadLength(s[..i]) == h by {
        if h <= i { HeadIsLocal(s, i); } else { CutHeadIsMalformed(s, i); }
        HeadExtends(s, i);
      }
      assert s[..i][h..] == s[h..][..i - h];
      ValidLengthIsMaximal(s[h..], i - h);
    }
  }

  /** A well-formed head stays one when more text follows. */
  lemma HeadExtends(s: Text, i: nat)
    requires 0 < i <= |s| && HeadLength(s[..i]) > 0
    ensures HeadLength(s) == HeadLength(s[..i])
  {
  }

  /** A cut where a sequence starts is valid exactly when it lies within the valid prefix. */
  lemma CutIsValidExactly(s: Text, k: nat)
    requires k < |s| && (k == 0 || RuneStart(s[k]))
    ensures ValidUtf8(s[..k]) <==> k <= ValidLength(s)
  {
    if ValidUtf8(s[..k]) {
      ValidLengthIsMaximal(s, k);
    } else if k <= ValidLength(s) {
      CutInside(s, ValidLength(s), k);
    }
  }

  lemma CutInside(s: Text, n: nat, k: nat)
    requires k <= n <= |s| && ValidUtf8(s[..n]) && (k == 0 || k == n || RuneStart(s[k]))
    ensures ValidUtf8(s[..k])
  {
    if 0 < k < n {
      var p := s[..n];
      BoundaryIsRuneStart(p, k);
      assert p[..k] == s[..k];
    }
  }

  /** For any bytes, the result is valid exactly when no byte past the valid prefix, up to the budget, starts a
      sequence; a string within the budget is passed through as it is. */
  lemma CappedIsValidExactly(s: Text, max: int)
    requires max > 0
    ensures |s| <= max ==> (ValidUtf8(Capped(s, max)) <==> ValidLength(s) == |s|)
    ensures |s| > max ==>
              (ValidUtf8(Capped(s, max)) <==> forall j | ValidLength(s) < j <= max :: IsContinuation(s[j]))
  {
    if |s| <= max {
      WholeIsValidExactly(s);
    } else {
      CutIsValidExactly(s, StepBack(s, max));
      StepBackWithin(s, max, ValidLength(s));
    }
  }

  lemma WholeIsValidExactly(s: Text)
    ensures ValidUtf8(s) <==> ValidLength(s) == |s|
  {
    assert s[..|s|] == s;
    if ValidUtf8(s) {
      ValidLengthIsMaximal(s, |s|);
    }
  }

  lemma {:induction false} StepBackWithin(s: Text, i: nat, n: nat)
    requires i < |s|
    ensures StepBack(s, i) <= n <==> forall j | n < j <= i :: IsContinuation(s[j])
  {
    if i > 0 && IsContinuation(s[i]) {
      StepBackWithin(s, i - 1, n);
    }
  }

  /** A stray lead byte is not repaired. */
  lemma InvalidStaysInvalid()
    ensures var s: Text := [0xFF, 0x41, 0x41]; !ValidUtf8(Capped(s, 2))
  {
    var s: Text := [0xFF, 0x41, 0x41];
    assert StepBack(s, 2) == 2;
    assert HeadLength(s[..2]) == 0;
  }
}
