/** Base64 with the standard alphabet and `=` padding, as in section 4 of
    RFC 4648; this is what `java.util.Base64.getEncoder()` produces. */
module Base64 {
  import opened Wrappers
  import opened Utf8

  /** The character for a 6-bit value (table 1 of RFC 4648). */
  function Sextet(v: int): (c: char)
    requires 0 <= v < 64
    ensures c != '='
  {
    if v < 26 then ('A' as int + v) as char
    else if v < 52 then ('a' as int + (v - 26)) as char
    else if v < 62 then ('0' as int + (v - 52)) as char
    else if v == 62 then '+'
    else '/'
  }

  /** The 6-bit value of an alphabet character. */
  function SextetValue(c: char): (r: Option<int>)
    ensures r.Some? ==> 0 <= r.value < 64 && Sextet(r.value) == c
  {
    if 'A' <= c <= 'Z' then Some(c as int - 'A' as int)
    else if 'a' <= c <= 'z' then Some(c as int - 'a' as int + 26)
    else if '0' <= c <= '9' then Some(c as int - '0' as int + 52)
    else if c == '+' then Some(62)
    else if c == '/' then Some(63)
    else None
  }

  lemma SextetValueOfSextet(v: int)
    requires 0 <= v < 64
    ensures SextetValue(Sextet(v)) == Some(v)
  {
  }

  predicate IsAlphabet(c: char) {
    SextetValue(c).Some?
  }

  /** Three bytes as four alphabet characters. */
  function EncodeGroup(b0: byte, b1: byte, b2: byte): (r: string)
    ensures |r| == 4 && forall i :: 0 <= i < 4 ==> IsAlphabet(r[i])
  {
    [Sextet(b0 / 4), Sextet((b0 % 4) * 16 + b1 / 16), Sextet((b1 % 16) * 4 + b2 / 64), Sextet(b2 % 64)]
  }

  /** The padded final group for one or two left-over bytes. */
  function EncodePartial(b: seq<byte>): (r: string)
    requires 1 <= |b| <= 2
    ensures |r| == 4 && r[3] == '=' && IsAlphabet(r[0]) && IsAlphabet(r[1])
    ensures r[2] == '=' <==> |b| == 1
    ensures |b| == 2 ==> IsAlphabet(r[2])
  {
    if |b| == 1 then [Sextet(b[0] / 4), Sextet((b[0] % 4) * 16), '=', '=']
    else [Sextet(b[0] / 4), Sextet((b[0] % 4) * 16 + b[1] / 16), Sextet((b[1] % 16) * 4), '=']
  }

  /** Four characters per started group of three bytes; a final group of
      one byte ends in `==`, of two bytes in `=`. */
  function Encode(b: seq<byte>): (r: string)
    ensures |r| == 4 * ((|b| + 2) / 3)
    ensures forall i :: 0 <= i < |r| ==> IsAlphabet(r[i]) || r[i] == '='
    decreases |b|
  {
    if |b| == 0 then ""
    else if |b| < 3 then EncodePartial(b)
    else
      var g, rest := EncodeGroup(b[0], b[1], b[2]), Encode(b[3..]);
      assert (|b| + 2) / 3 == 1 + (|b| - 3 + 2) / 3;
      assert forall i :: 4 <= i < |g + rest| ==> (g + rest)[i] == rest[i - 4];
      g + rest
  }

  /** Decodes one unpadded group of four characters into three bytes. */
  function DecodeGroup(g: string): Option<seq<byte>>
    requires |g| == 4
  {
    match (SextetValue(g[0]), SextetValue(g[1]), SextetValue(g[2]), SextetValue(g[3]))
    case (Some(v0), Some(v1), Some(v2), Some(v3)) =>
      Some([v0 * 4 + v1 / 16, (v1 % 16) * 16 + v2 / 4, (v2 % 4) * 64 + v3])
    case _ => None
  }

  /** Decodes a final group, which may carry one or two padding characters. */
  function DecodeLast(g: string): Option<seq<byte>>
    requires |g| == 4
  {
    if g[2] == '=' && g[3] == '=' then
      match (SextetValue(g[0]), SextetValue(g[1]))
      case (Some(v0), Some(v1)) => Some([v0 * 4 + v1 / 16])
      case _ => None
    else if g[3] == '=' then
      match (SextetValue(g[0]), SextetValue(g[1]), SextetValue(g[2]))
      case (Some(v0), Some(v1), Some(v2)) => Some([v0 * 4 + v1 / 16, (v1 % 16) * 16 + v2 / 4])
      case _ => None
    else DecodeGroup(g)
  }

  /** The inverse of `Encode`: groups of four, padding only at the end. */
  function Decode(s: string): Option<seq<byte>>
    decreases |s|
  {
    if |s| == 0 then Some([])
    else if |s| < 4 then None
    else if |s| == 4 then DecodeLast(s)
    else
      match (DecodeGroup(s[..4]), Decode(s[4..]))
      case (Some(g), Some(rest)) => Some(g + rest)
      case _ => None
  }

  lemma DecodeFullGroup(b0: byte, b1: byte, b2: byte)
    ensures DecodeGroup(EncodeGroup(b0, b1, b2)) == Some([b0, b1, b2])
    ensures DecodeLast(EncodeGroup(b0, b1, b2)) == Some([b0, b1, b2])
  {
    var v0, v1, v2, v3 := b0 / 4, (b0 % 4) * 16 + b1 / 16, (b1 % 16) * 4 + b2 / 64, b2 % 64;
    var g := EncodeGroup(b0, b1, b2);
    assert g == [Sextet(v0), Sextet(v1), Sextet(v2), Sextet(v3)];
    SextetValueOfSextet(v0);
    SextetValueOfSextet(v1);
    SextetValueOfSextet(v2);
    SextetValueOfSextet(v3);
    Regroup(b0, b1, b2);
    assert g[2] != '=' && g[3] != '=';
  }

  /** The four sextets of three bytes give the bytes back. */
  lemma Regroup(b0: byte, b1: byte, b2: byte)
    ensures (b0 / 4) * 4 + ((b0 % 4) * 16 + b1 / 16) / 16 == b0
    ensures (((b0 % 4) * 16 + b1 / 16) % 16) * 16 + ((b1 % 16) * 4 + b2 / 64) / 4 == b1
    ensures (((b1 % 16) * 4 + b2 / 64) % 4) * 64 + b2 % 64 == b2
  {
    var v1, v2 := (b0 % 4) * 16 + b1 / 16, (b1 % 16) * 4 + b2 / 64;
    assert v1 / 16 == b0 % 4 && v1 % 16 == b1 / 16;
    assert v2 / 4 == b1 % 16 && v2 % 4 == b2 / 64;
  }

  lemma DecodePartialGroup(b: seq<byte>)
    requires 1 <= |b| <= 2
    ensures DecodeLast(EncodePartial(b)) == Some(b)
  {
    SextetValueOfSextet(b[0] / 4);
    if |b| == 1 {
      SextetValueOfSextet((b[0] % 4) * 16);
      assert b == [b[0]];
    } else {
      var v1 := (b[0] % 4) * 16 + b[1] / 16;
      SextetValueOfSextet(v1);
      SextetValueOfSextet((b[1] % 16) * 4);
      assert v1 / 16 == b[0] % 4 && v1 % 16 == b[1] / 16;
      assert ((b[1] % 16) * 4) / 4 == b[1] % 16;
      assert b == [b[0], b[1]];
    }
  }

  /** Decoding inverts encoding. */
  lemma {:induction false} DecodeEncode(b: seq<byte>)
    ensures Decode(Encode(b)) == Some(b)
    decreases |b|
  {
    if 1 <= |b| <= 2 {
      DecodePartialGroup(b);
    } else if |b| >= 3 {
      var e := Encode(b);
      DecodeFullGroup(b[0], b[1], b[2]);
      assert b == [b[0], b[1], b[2]] + b[3..];
      if |b| == 3 {
        assert Encode(b[3..]) == "";
        assert e == EncodeGroup(b[0], b[1], b[2]) + "";
        assert e == EncodeGroup(b[0], b[1], b[2]);
        assert b == [b[0], b[1], b[2]];
      } else {
        DecodeEncode(b[3..]);
        assert e[..4] == EncodeGroup(b[0], b[1], b[2]);
        assert e[4..] == Encode(b[3..]);
      }
    }
  }

  /** Different byte strings have different encodings. */
  lemma EncodeInjective(a: seq<byte>, b: seq<byte>)
    requires Encode(a) == Encode(b)
    ensures a == b
  {
    DecodeEncode(a);
    DecodeEncode(b);
  }

  /** With one byte left over after the groups of three, the encoding ends
      in `==`, preceded by one of `A`, `Q`, `g`, `w`. */
  lemma {:induction false} EncodeOneLeftOver(b: seq<byte>)
    requires |b| % 3 == 1
    ensures |Encode(b)| >= 4
    ensures Encode(b)[|Encode(b)| - 2..] == "=="
    ensures Encode(b)[|Encode(b)| - 3] in "AQgw"
    ensures forall i :: 0 <= i < |Encode(b)| - 2 ==> IsAlphabet(Encode(b)[i])
    decreases |b|
  {
    if |b| > 1 {
      EncodeOneLeftOver(b[3..]);
      var e := Encode(b);
      assert e[4..] == Encode(b[3..]);
    } else {
      var v := (b[0] % 4) * 16;
      assert v == 0 || v == 16 || v == 32 || v == 48;
      assert Encode(b)[1] == Sextet(v);
    }
  }
}
