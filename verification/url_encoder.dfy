/** `java.net.URLEncoder.encode(value, "UTF-8")`, the encoder the OAuth
    signer applies to the URL, to every parameter name and value, and to
    the joined parameter string.  This is HTML form encoding, not the
    percent-encoding of section 3.6 of RFC 5849: a space becomes `+`, `*`
    is kept and `~` is escaped.  `Decode` is its inverse, and
    `RfcEncode` is the RFC 5849 encoding the two are compared with. */
module UrlEncoder {
  import opened Wrappers
  import Utf8

  /** The characters `URLEncoder` copies unchanged. */
  predicate IsFormSafe(c: char) {
    ('a' <= c <= 'z') || ('A' <= c <= 'Z') || ('0' <= c <= '9')
    || c == '.' || c == '-' || c == '*' || c == '_'
  }

  /** An upper-case hexadecimal digit. */
  function HexDigit(d: int): (c: char)
    requires 0 <= d < 16
    ensures ('0' <= c <= '9') || ('A' <= c <= 'F')
  {
    if d < 10 then ('0' as int + d) as char else ('A' as int + d - 10) as char
  }

  /** The value of a hexadecimal digit of either case. */
  function HexValue(c: char): (r: Option<int>)
    ensures r.Some? ==> 0 <= r.value < 16
  {
    if '0' <= c <= '9' then Some(c as int - '0' as int)
    else if 'A' <= c <= 'F' then Some(c as int - 'A' as int + 10)
    else if 'a' <= c <= 'f' then Some(c as int - 'a' as int + 10)
    else None
  }

  lemma HexValueOfHexDigit(d: int)
    requires 0 <= d < 16
    ensures HexValue(HexDigit(d)) == Some(d)
  {
  }

  /** `%` and the two hexadecimal digits of one byte. */
  function PercentByte(b: Utf8.byte): string {
    ['%', HexDigit(b / 16), HexDigit(b % 16)]
  }

  /** `%` followed by two upper-case hexadecimal digits per byte. */
  function PercentBytes(bs: seq<Utf8.byte>): string
    decreases |bs|
  {
    if |bs| == 0 then "" else PercentByte(bs[0]) + PercentBytes(bs[1..])
  }

  /** Three characters per byte: `%` and two upper-case hexadecimal digits. */
  lemma {:induction false} PercentBytesAlphabet(bs: seq<Utf8.byte>)
    ensures |PercentBytes(bs)| == 3 * |bs|
    ensures forall i :: 0 <= i < |PercentBytes(bs)| ==>
              PercentBytes(bs)[i] == '%' || ('0' <= PercentBytes(bs)[i] <= '9') || ('A' <= PercentBytes(bs)[i] <= 'F')
    decreases |bs|
  {
    if |bs| > 0 {
      PercentBytesAlphabet(bs[1..]);
    }
  }

  /** One character as `URLEncoder` writes it. */
  function EncodeChar(c: char): (r: string)
    ensures IsFormSafe(c) ==> r == [c]
    ensures c == ' ' ==> r == "+"
    ensures !IsFormSafe(c) && c != ' ' ==> r == PercentBytes(Utf8.EncodeChar(c))
    ensures forall i :: 0 <= i < |r| ==> IsFormSafe(r[i]) || r[i] == '+' || r[i] == '%'
  {
    if IsFormSafe(c) then [c]
    else if c == ' ' then "+"
    else PercentBytesAlphabet(Utf8.EncodeChar(c)); PercentBytes(Utf8.EncodeChar(c))
  }

  /** `URLEncoder.encode(s, "UTF-8")`. */
  function Encode(s: string): string
    decreases |s|
  {
    if |s| == 0 then "" else EncodeChar(s[0]) + Encode(s[1..])
  }

  /** The output is never shorter than the input and holds only form-safe
      characters, `+` and `%`. */
  lemma {:induction false} EncodeAlphabet(s: string)
    ensures |Encode(s)| >= |s|
    ensures forall i :: 0 <= i < |Encode(s)| ==> IsFormSafe(Encode(s)[i]) || Encode(s)[i] == '+' || Encode(s)[i] == '%'
    decreases |s|
  {
    if |s| > 0 {
      EncodeAlphabet(s[1..]);
    }
  }

  lemma {:induction false} EncodeAppend(a: string, b: string)
    ensures Encode(a + b) == Encode(a) + Encode(b)
    decreases |a|
  {
    if |a| == 0 {
      assert a + b == b;
    } else {
      assert (a + b)[1..] == a[1..] + b;
      EncodeAppend(a[1..], b);
    }
  }

  /** A string of form-safe characters encodes to itself. */
  lemma {:induction false} EncodeSafe(s: string)
    requires forall i :: 0 <= i < |s| ==> IsFormSafe(s[i])
    ensures Encode(s) == s
    decreases |s|
  {
    if |s| > 0 {
      EncodeSafe(s[1..]);
      assert s == [s[0]] + s[1..];
    }
  }

  // ---------------------------------------------------------------------
  // Decoding

  /** The bytes an encoded string stands for: `+` is a space, `%XX` one
      byte, and any other character its own UTF-8 bytes. */
  function DecodeBytes(s: string): Option<seq<Utf8.byte>>
    decreases |s|
  {
    if |s| == 0 then Some([])
    else if s[0] == '+' then Prepend([0x20], DecodeBytes(s[1..]))
    else if s[0] == '%' then
      if |s| < 3 || HexValue(s[1]).None? || HexValue(s[2]).None? then None
      else Prepend([HexValue(s[1]).value * 16 + HexValue(s[2]).value], DecodeBytes(s[3..]))
    else Prepend(Utf8.EncodeChar(s[0]), DecodeBytes(s[1..]))
  }

  /** Bytes in front of a decoding that succeeded. */
  function Prepend(bs: seq<Utf8.byte>, rest: Option<seq<Utf8.byte>>): Option<seq<Utf8.byte>> {
    if rest.Some? then Some(bs + rest.value) else None
  }

  /** `URLDecoder.decode(s, "UTF-8")` on well-formed input. */
  function Decode(s: string): Option<string>
  {
    match DecodeBytes(s)
    case Some(bs) => Utf8.Decode(bs)
    case None => None
  }

  lemma DecodeOnePercentByte(b: Utf8.byte, t: string)
    ensures DecodeBytes(PercentByte(b) + t) == Prepend([b], DecodeBytes(t))
  {
    var s := PercentByte(b) + t;
    HexValueOfHexDigit(b / 16);
    HexValueOfHexDigit(b % 16);
    assert s[3..] == t;
  }

  lemma PrependPrepend(a: seq<Utf8.byte>, b: seq<Utf8.byte>, rest: Option<seq<Utf8.byte>>)
    ensures Prepend(a, Prepend(b, rest)) == Prepend(a + b, rest)
  {
    if rest.Some? {
      assert a + (b + rest.value) == (a + b) + rest.value;
    }
  }

  lemma {:induction false} DecodePercentBytes(bs: seq<Utf8.byte>, rest: string)
    ensures DecodeBytes(PercentBytes(bs) + rest) == Prepend(bs, DecodeBytes(rest))
    decreases |bs|
  {
    if |bs| == 0 {
      assert PercentBytes(bs) + rest == rest;
      if DecodeBytes(rest).Some? {
        assert bs + DecodeBytes(rest).value == DecodeBytes(rest).value;
      }
    } else {
      var b, tail := bs[0], bs[1..];
      var t := PercentBytes(tail) + rest;
      DecodePercentBytes(tail, rest);
      DecodeOnePercentByte(b, t);
      assert PercentBytes(bs) + rest == PercentByte(b) + t;
      PrependPrepend([b], tail, DecodeBytes(rest));
      assert [b] + tail == bs;
    }
  }

  lemma DecodeEncodeChar(c: char, rest: string)
    requires DecodeBytes(rest).Some?
    ensures DecodeBytes(EncodeChar(c) + rest) == Some(Utf8.EncodeChar(c) + DecodeBytes(rest).value)
  {
    if IsFormSafe(c) {
      assert (EncodeChar(c) + rest)[1..] == rest;
    } else if c == ' ' {
      assert (EncodeChar(c) + rest)[1..] == rest;
    } else {
      DecodePercentBytes(Utf8.EncodeChar(c), rest);
    }
  }

  lemma {:induction false} DecodeBytesOfEncode(s: string)
    ensures DecodeBytes(Encode(s)) == Some(Utf8.Encode(s))
    decreases |s|
  {
    if |s| > 0 {
      DecodeBytesOfEncode(s[1..]);
      DecodeEncodeChar(s[0], Encode(s[1..]));
    }
  }

  /** Decoding inverts `URLEncoder`: the encoding loses nothing. */
  lemma DecodeEncode(s: string)
    ensures Decode(Encode(s)) == Some(s)
  {
    DecodeBytesOfEncode(s);
    Utf8.DecodeEncode(s);
  }

  /** Different strings have different encodings. */
  lemma EncodeInjective(a: string, b: string)
    requires Encode(a) == Encode(b)
    ensures a == b
  {
    DecodeEncode(a);
    DecodeEncode(b);
  }

  /** Every `+` read as a space, as the decoder reads it. */
  function PlusAsSpace(s: string): (r: string)
    ensures |r| == |s|
    ensures forall i :: 0 <= i < |s| ==> r[i] == (if s[i] == '+' then ' ' else s[i])
    decreases |s|
  {
    if |s| == 0 then "" else [if s[0] == '+' then ' ' else s[0]] + PlusAsSpace(s[1..])
  }

  lemma {:induction false} DecodeBytesWithoutPercent(s: string)
    requires '%' !in s
    ensures DecodeBytes(s) == Some(Utf8.Encode(PlusAsSpace(s)))
    decreases |s|
  {
    if |s| > 0 {
      DecodeBytesWithoutPercent(s[1..]);
      assert PlusAsSpace(s)[1..] == PlusAsSpace(s[1..]);
    }
  }

  /** Without `%` escapes, decoding only turns each `+` into a space; so
      a string holding a `+` does not decode to itself. */
  lemma DecodeWithoutPercent(s: string)
    requires '%' !in s
    ensures Decode(s) == Some(PlusAsSpace(s))
    ensures '+' in s ==> Decode(s) != Some(s)
  {
    DecodeBytesWithoutPercent(s);
    Utf8.DecodeEncode(PlusAsSpace(s));
    if '+' in s {
      var i :| 0 <= i < |s| && s[i] == '+';
      assert PlusAsSpace(s)[i] == ' ';
    }
  }

  // ---------------------------------------------------------------------
  // Comparison with section 3.6 of RFC 5849

  /** The unreserved characters of RFC 3986, which RFC 5849 leaves alone. */
  predicate IsUnreserved(c: char) {
    ('a' <= c <= 'z') || ('A' <= c <= 'Z') || ('0' <= c <= '9')
    || c == '.' || c == '-' || c == '_' || c == '~'
  }

  /** Percent-encoding as section 3.6 of RFC 5849 prescribes it. */
  function RfcEncode(s: string): (r: string)
    decreases |s|
  {
    if |s| == 0 then ""
    else (if IsUnreserved(s[0]) then [s[0]] else PercentBytes(Utf8.EncodeChar(s[0]))) + RfcEncode(s[1..])
  }

  /** The two encodings agree on every string without a space, `*` or `~`,
      which covers every value this signer encodes unless the URL or the
      consumer key carries one of those characters. */
  lemma {:induction false} EncodeAgreesWithRfc(s: string)
    requires forall i :: 0 <= i < |s| ==> s[i] != ' ' && s[i] != '*' && s[i] != '~'
    ensures Encode(s) == RfcEncode(s)
    decreases |s|
  {
    if |s| > 0 {
      EncodeAgreesWithRfc(s[1..]);
    }
  }

  /** The three characters on which the encodings part ways. */
  lemma EncodeDiffersFromRfc()
    ensures Encode(" ") == "+" && RfcEncode(" ") == "%20"
    ensures Encode("*") == "*" && RfcEncode("*") == "%2A"
    ensures Encode("~") == "%7E" && RfcEncode("~") == "~"
  {
    assert Utf8.EncodeChar(' ') == [0x20];
    assert PercentBytes([0x20]) == "%20";
    assert Utf8.EncodeChar('*') == [0x2A];
    assert PercentBytes([0x2A]) == "%2A";
    assert Utf8.EncodeChar('~') == [0x7E];
    assert PercentBytes([0x7E]) == "%7E";
  }
}
