/** Re-tagging CMS signed attributes for signature verification (section 5.4 of RFC 5652). */
module SignedAttrs {
  import opened Wrappers

  newtype Byte = b: int | 0 <= b < 256

  const IMPLICIT_0: Byte := 0xA0
  const SET_OF: Byte := 0x31

  datatype Error = TooShort | UnexpectedTag | BadLengthOctets | Truncated

  // ---------- DER ----------

  /** A number in base 256, most significant octet first, in exactly n octets. */
  function BigEndian(v: nat, n: nat): (s: seq<Byte>)
    ensures |s| == n
  {
    if n == 0 then [] else BigEndian(v / 256, n - 1) + [(v % 256) as Byte]
  }

  function Value(s: seq<Byte>): nat {
    if s == [] then 0 else Value(s[..|s| - 1]) * 256 + s[|s| - 1] as nat
  }

  /** The fewest octets that hold v. */
  function OctetCount(v: nat): nat {
    if v == 0 then 0 else 1 + OctetCount(v / 256)
  }

  /** DER length octets: short form below 128, otherwise the shortest long form. */
  function EncodeLength(v: nat): seq<Byte>
    requires OctetCount(v) < 127
  {
    if v < 128 then [v as Byte] else [(0x80 + OctetCount(v)) as Byte] + BigEndian(v, OctetCount(v))
  }

  function Encode(tag: Byte, content: seq<Byte>): seq<Byte>
    requires OctetCount(|content|) < 127
  {
    [tag] + EncodeLength(|content|) + content
  }

  /** What a definite-length header promises, for length fields of at most four octets: the content's length and
      the octets after the header. */
  function ReadHeader(s: seq<Byte>): Option<(nat, seq<Byte>)> {
    if |s| < 2 then None
    else if s[1] < 0x80 then Some((s[1] as nat, s[2..]))
    else
      var n := s[1] as nat - 0x80;
      if n == 0 || n > 4 || |s| < 2 + n then None else Some((Value(s[2..2 + n]), s[2 + n..]))
  }

  // ---------- canonicalSignedAttrs ----------

  function Canonical(implicit: seq<Byte>): Result<seq<Byte>, Error> {
    if |implicit| < 2 then Err(TooShort)
    else if implicit[0] != IMPLICIT_0 then
      if implicit[0] == SET_OF then Ok(implicit) else Err(UnexpectedTag)
    else if implicit[1] >= 0x80 then
      var n := implicit[1] as nat - 0x80;
      if n == 0 || n > 4 then Err(BadLengthOctets)
      else if |implicit| < 2 + n then Err(Truncated)
      else Ok([SET_OF] + implicit[1..])
    else Ok([SET_OF] + implicit[1..])
  }

  /** Copies the attributes and overwrites their tag; the universal form is handed back as it is. */
  method CanonicalSignedAttrs(implicit: array<Byte>) returns (r: Result<array<Byte>, Error>)
    ensures r.Ok? ==> Canonical(implicit[..]) == Ok(r.value[..])
    ensures r.Ok? ==> r.value == implicit || fresh(r.value)
    ensures r.Err? ==> Canonical(implicit[..]) == Err(r.error)
  {
    if implicit.Length < 2 {
      return Err(TooShort);
    }
    if implicit[0] != IMPLICIT_0 {
      if implicit[0] == SET_OF {
        return Ok(implicit);
      }
      return Err(UnexpectedTag);
    }
    var lenByte := implicit[1];
    if lenByte >= 0x80 {
      var nLen := lenByte as int - 0x80;
      if nLen == 0 || nLen > 4 {
        return Err(BadLengthOctets);
      }
      if implicit.Length < 2 + nLen {
        return Err(Truncated);
      }
    }
    var out := new Byte[implicit.Length](i requires 0 <= i < implicit.Length reads implicit => implicit[i]);
    out[0] := SET_OF;
    assert out[..] == [SET_OF] + implicit[..][1..];
    return Ok(out);
  }

  // ---------- lengths ----------

  lemma {:induction false} ValueOfBigEndian(v: nat, n: nat)
    requires OctetCount(v) <= n
    ensures Value(BigEndian(v, n)) == v
  {
    if n > 0 {
      ValueOfBigEndian(v / 256, n - 1);
      var s := BigEndian(v, n);
      assert s[..|s| - 1] == BigEndian(v / 256, n - 1);
    }
  }

  function Pow256(n: nat): nat {
    if n == 0 then 1 else 256 * Pow256(n - 1)
  }

  /** n octets are enough exactly for the numbers below 256 to the n. */
  lemma {:induction false} OctetsNeeded(v: nat, n: nat)
    ensures OctetCount(v) <= n <==> v < Pow256(n)
  {
    if n > 0 {
      OctetsNeeded(v / 256, n - 1);
      if v > 0 {
        assert OctetCount(v) <= n <==> OctetCount(v / 256) <= n - 1;
        assert v / 256 < Pow256(n - 1) <==> v < 256 * Pow256(n - 1);
      }
    }
  }

  lemma FourOctets(v: nat)
    ensures OctetCount(v) <= 4 <==> v < 0x1_0000_0000
  {
    OctetsNeeded(v, 4);
    assert Pow256(4) == 256 * (256 * (256 * (256 * 1)));
  }

  /** The length octets of a number below 2^32. */
  lemma LengthShape(v: nat)
    requires v < 0x1_0000_0000
    ensures OctetCount(v) <= 4
    ensures var len := EncodeLength(v);
      if v < 128 then len == [v as Byte]
      else
        && |len| == 1 + OctetCount(v) && 1 <= OctetCount(v)
        && len[0] as int == 0x80 + OctetCount(v) && Value(len[1..]) == v
  {
    FourOctets(v);
    if v >= 128 {
      ValueOfBigEndian(v, OctetCount(v));
      assert EncodeLength(v)[1..] == BigEndian(v, OctetCount(v));
    }
  }

  lemma Parts(tag: Byte, len: seq<Byte>, content: seq<Byte>)
    requires len != []
    ensures var s := [tag] + len + content;
      && |s| >= 1 + |len| && s[0] == tag && s[1] == len[0]
      && s[1..] == len + content && s[2..1 + |len|] == len[1..] && s[1 + |len|..] == content
  {
  }

  // ---------- what it computes ----------

  /** A header reads back the length it was written for. */
  lemma HeaderReadsBack(tag: Byte, content: seq<Byte>)
    requires |content| < 0x1_0000_0000
    ensures OctetCount(|content|) <= 4
    ensures ReadHeader(Encode(tag, content)) == Some((|content|, content))
  {
    LengthShape(|content|);
    Parts(tag, EncodeLength(|content|), content);
  }

  /** For every content below 2^32 octets, the DER encoding under [0] IMPLICIT becomes the DER encoding of the same
      content as a SET OF, and doing it again changes nothing. */
  lemma RetagsEncoding(content: seq<Byte>)
    requires |content| < 0x1_0000_0000
    ensures OctetCount(|content|) <= 4
    ensures Canonical(Encode(0xA0, content)) == Ok(Encode(0x31, content))
    ensures Canonical(Encode(0x31, content)) == Ok(Encode(0x31, content))
  {
    HeaderReadsBack(IMPLICIT_0, content);
    LengthShape(|content|);
    var len := EncodeLength(|content|);
    Parts(IMPLICIT_0, len, content);
    Parts(SET_OF, len, content);
    AcceptedExactly(Encode(IMPLICIT_0, content));
    assert [SET_OF] + (len + content) == [SET_OF] + len + content;
  }

  /** What is accepted, exactly: under [0] IMPLICIT a definite length field of at most four octets that is all
      there; under SET OF any two octets. The content's presence is never checked. */
  lemma AcceptedExactly(s: seq<Byte>)
    ensures Canonical(s).Ok? <==>
      |s| >= 2 && ((s[0] == 0xA0 && ReadHeader(s).Some?) || s[0] == 0x31)
    ensures Canonical(s).Ok? ==> Canonical(s).value == [0x31] + s[1..]
  {
    if |s| >= 2 && s[0] == SET_OF {
      assert s == [SET_OF] + s[1..];
    }
  }

  /** Indefinite, over-long and truncated length fields are rejected under [0] IMPLICIT, each with its own error. */
  lemma BadLengthsRejected(s: seq<Byte>)
    requires |s| >= 2 && s[0] == 0xA0
    ensures s[1] == 0x80 || s[1] > 0x84 <==> Canonical(s) == Err(BadLengthOctets)
    ensures 0x81 <= s[1] <= 0x84 && |s| < 2 + (s[1] as nat - 0x80) <==> Canonical(s) == Err(Truncated)
  {
  }

  /** Content of 2^32 octets or more is rejected, though its encoding is legal DER. */
  lemma HugeContentRejected(content: seq<Byte>)
    requires |content| >= 0x1_0000_0000 && OctetCount(|content|) < 127
    ensures Canonical(Encode(IMPLICIT_0, content)) == Err(BadLengthOctets)
  {
    FourOctets(|content|);
    Parts(IMPLICIT_0, EncodeLength(|content|), content);
  }

  /** Re-tagging changes the first octet and nothing else: equal results under [0] mean equal attributes. */
  lemma RetaggingIsInjective(s: seq<Byte>, t: seq<Byte>)
    requires Canonical(s).Ok? && Canonical(s) == Canonical(t) && s[0] == t[0]
    ensures s == t
    ensures ReadHeader(Canonical(s).value) == ReadHeader(s)
  {
    AcceptedExactly(s);
    AcceptedExactly(t);
    var out := Canonical(s).value;
    assert s == [s[0]] + out[1..] && t == [t[0]] + out[1..];
    assert out[2..] == s[2..];
    if out[1] >= 0x80 {
      var n := out[1] as nat - 0x80;
      if |s| >= 2 + n {
        assert out[2..2 + n] == s[2..2 + n] && out[2 + n..] == s[2 + n..];
      }
    }
  }
}
