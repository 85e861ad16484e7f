/** `SimpleOAuthClient`: one-legged OAuth 1.0a signing of a GET or POST
    request, with HMAC-SHA1 over the signature base string of section
    3.4.1 of RFC 5849 and the signature carried in the query string.

    The clock, the sixteen `SecureRandom` bytes and the HMAC-SHA1
    primitive are inputs: `millis` is `System.currentTimeMillis()`,
    `random` the nonce bytes, and `hmac(key, data)` the MAC. */
module OAuthClient {
  import opened Wrappers
  import opened JavaString
  import Utf8
  import Base64
  import UrlEncoder
  import TreeMap

  /** The common prefix of every protocol parameter name. */
  const Prefix: string := "oauth_"
  const ConsumerKeyName: string := Prefix + "consumer_key"
  const NonceName: string := Prefix + "nonce"
  const SignatureName: string := Prefix + "signature"
  const SignatureMethodName: string := SignatureName + "_method"
  const TimestampName: string := Prefix + "timestamp"
  const VersionName: string := Prefix + "version"

  /** The six names in `TreeMap` iteration order. */
  const Names: seq<string> :=
    [ConsumerKeyName, NonceName, SignatureName, SignatureMethodName, TimestampName, VersionName]

  const SignatureMethod: string := "HMAC-SHA1"
  const Version: string := "1.0"

  /** HMAC-SHA1 as a function of the key bytes and the data bytes. */
  type Hmac = (seq<Utf8.byte>, seq<Utf8.byte>) -> seq<Utf8.byte>

  type Params = TreeMap.Entries<string>

  /** The constructor arguments of a client. */
  datatype Client = Client(consumerKey: string, consumerSecret: string, baseUrl: string)

  const LongMin: int := -0x8000_0000_0000_0000
  const LongMax: int := 0x7FFF_FFFF_FFFF_FFFF

  // ---------------------------------------------------------------------
  // Timestamp and nonce

  /** `millis / 1000` with Java's rounding toward zero. */
  function SecondsOf(millis: int): (s: int)
    ensures millis >= 0 ==> 0 <= s * 1000 <= millis < s * 1000 + 1000
    ensures millis < 0 ==> s * 1000 - 1000 < millis <= s * 1000 <= 0
  {
    if millis >= 0 then millis / 1000 else -((-millis) / 1000)
  }

  /** `String.valueOf(System.currentTimeMillis() / 1000)`. */
  function Timestamp(millis: int): string
    requires LongMin <= millis <= LongMax
  {
    DecimalString(SecondsOf(millis))
  }

  /** For a clock at or after the epoch the timestamp is the decimal
      numeral, without sign or leading zeros, of the whole seconds. */
  lemma TimestampIsWholeSeconds(millis: int)
    requires 0 <= millis <= LongMax
    ensures forall i :: 0 <= i < |Timestamp(millis)| ==> IsDigit(Timestamp(millis)[i])
    ensures DigitsValue(Timestamp(millis)) == millis / 1000
    ensures |Timestamp(millis)| > 1 ==> Timestamp(millis)[0] != '0'
  {
    DigitsValueOfDigits(millis / 1000);
  }

  predicate IsAlphanumeric(c: char) {
    ('a' <= c <= 'z') || ('A' <= c <= 'Z') || ('0' <= c <= '9')
  }

  /** `s.replaceAll("[^a-zA-Z0-9]", "")`: the ASCII letters and digits of
      `s`, in order. */
  function KeepAlphanumeric(s: string): (r: string)
    ensures |r| <= |s|
    ensures forall i :: 0 <= i < |r| ==> IsAlphanumeric(r[i])
    decreases |s|
  {
    if |s| == 0 then ""
    else (if IsAlphanumeric(s[0]) then [s[0]] else "") + KeepAlphanumeric(s[1..])
  }

  lemma {:induction false} KeepAlphanumericAppend(a: string, b: string)
    ensures KeepAlphanumeric(a + b) == KeepAlphanumeric(a) + KeepAlphanumeric(b)
    decreases |a|
  {
    if |a| == 0 {
      assert a + b == b;
    } else {
      assert (a + b)[1..] == a[1..] + b;
      KeepAlphanumericAppend(a[1..], b);
    }
  }

  /** A 24-character encoding ending in one alphanumeric character and
      two pads keeps between one and 22 characters. */
  lemma KeepPaddedGroup(e: string)
    requires |e| == 24 && e[22..] == "==" && IsAlphanumeric(e[21])
    ensures 1 <= |KeepAlphanumeric(e)| <= 22
  {
    var head, last, pad := e[..21], e[21..22], e[22..];
    assert e == head + last + pad;
    KeepAlphanumericAppend(head + last, pad);
    KeepAlphanumericAppend(head, last);
    assert KeepAlphanumeric(pad) == "";
    assert KeepAlphanumeric(last) == last;
  }

  /** An alphanumeric string is kept whole, so stripping is idempotent. */
  lemma {:induction false} KeepAlphanumericOfAlphanumeric(s: string)
    requires forall i :: 0 <= i < |s| ==> IsAlphanumeric(s[i])
    ensures KeepAlphanumeric(s) == s
    decreases |s|
  {
    if |s| > 0 {
      KeepAlphanumericOfAlphanumeric(s[1..]);
      assert s == [s[0]] + s[1..];
    }
  }

  /** The nonce: Base64 of sixteen random bytes with every character
      other than an ASCII letter or digit removed. */
  function GenerateNonce(random: seq<Utf8.byte>): (nonce: string)
    requires |random| == 16
    ensures 1 <= |nonce| <= 22
    ensures forall i :: 0 <= i < |nonce| ==> IsAlphanumeric(nonce[i])
  {
    var e := Base64.Encode(random);
    Base64.EncodeOneLeftOver(random);
    assert IsAlphanumeric(e[21]);
    KeepPaddedGroup(e);
    KeepAlphanumeric(e)
  }

  // ---------------------------------------------------------------------
  // Parameters and the signature base string

  /** Lines 140-147: the five unsigned parameters in the order the source
      puts them. */
  function SourceOrder(consumerKey: string, timestamp: string, nonce: string): Params
  {
    [(ConsumerKeyName, consumerKey), (SignatureMethodName, SignatureMethod), (TimestampName, timestamp),
     (NonceName, nonce), (VersionName, Version)]
  }

  /** The same five parameters in ascending key order. */
  function SortedOrder(consumerKey: string, timestamp: string, nonce: string): Params
  {
    [(ConsumerKeyName, consumerKey), (NonceName, nonce), (SignatureMethodName, SignatureMethod),
     (TimestampName, timestamp), (VersionName, Version)]
  }

  /** The `TreeMap` the five parameters are put into. */
  function UnsignedParams(consumerKey: string, timestamp: string, nonce: string): Params
  {
    TreeMap.PutAll([], SourceOrder(consumerKey, timestamp, nonce))
  }

  lemma ConsumerKeyBeforeNonce()
    ensures LexLess(ConsumerKeyName, NonceName)
  {
    assert LexLess("consumer_key", "nonce");
    LexLessAfterCommonPrefix(Prefix, "consumer_key", "nonce");
  }

  lemma NonceBeforeSignature()
    ensures LexLess(NonceName, SignatureName)
  {
    assert LexLess("nonce", "signature");
    LexLessAfterCommonPrefix(Prefix, "nonce", "signature");
  }

  lemma SignatureBeforeSignatureMethod()
    ensures LexLess(SignatureName, SignatureMethodName)
  {
    assert LexLess("", "_method");
    LexLessAfterCommonPrefix(SignatureName, "", "_method");
    assert SignatureName + "" == SignatureName;
  }

  lemma SignatureMethodBeforeTimestamp()
    ensures LexLess(SignatureMethodName, TimestampName)
  {
    assert LexLess("signature_method", "timestamp");
    assert SignatureMethodName == Prefix + "signature_method";
    LexLessAfterCommonPrefix(Prefix, "signature_method", "timestamp");
  }

  lemma TimestampBeforeVersion()
    ensures LexLess(TimestampName, VersionName)
  {
    assert LexLess("timestamp", "version");
    LexLessAfterCommonPrefix(Prefix, "timestamp", "version");
  }

  /** The six parameter names are strictly ascending, so `Names` is the
      order a `TreeMap` holding all of them iterates in. */
  lemma {:induction false} NamesAscending()
    ensures forall i, j :: 0 <= i < j < |Names| ==> LexLess(Names[i], Names[j])
  {
    ConsumerKeyBeforeNonce();
    NonceBeforeSignature();
    SignatureBeforeSignatureMethod();
    SignatureMethodBeforeTimestamp();
    TimestampBeforeVersion();
    forall i, j | 0 <= i < j < |Names|
      ensures LexLess(Names[i], Names[j])
    {
      var k := i;
      while k + 1 < j
        invariant i <= k < j
        invariant k == i || LexLess(Names[i], Names[k])
      {
        if k > i {
          LexLessTransitive(Names[i], Names[k], Names[k + 1]);
        }
        k := k + 1;
      }
      if k > i {
        LexLessTransitive(Names[i], Names[k], Names[j]);
      }
    }
  }

  lemma NamesDistinct()
    ensures forall i, j :: 0 <= i < |Names| && 0 <= j < |Names| && i != j ==> Names[i] != Names[j]
  {
    NamesAscending();
    forall i, j | 0 <= i < |Names| && 0 <= j < |Names| && i != j
      ensures Names[i] != Names[j]
    {
      if i < j {
        LexLessDistinct(Names[i], Names[j]);
      } else {
        LexLessDistinct(Names[j], Names[i]);
      }
    }
  }

  lemma SortedOrderIsSorted(consumerKey: string, timestamp: string, nonce: string)
    ensures TreeMap.Sorted(SortedOrder(consumerKey, timestamp, nonce))
    ensures TreeMap.DistinctKeys(SortedOrder(consumerKey, timestamp, nonce))
  {
    NamesAscending();
    var p := SortedOrder(consumerKey, timestamp, nonce);
    assert forall i :: 0 <= i < |p| ==> p[i].0 == Names[if i < 2 then i else i + 1];
    forall i, j | 0 <= i < j < |p|
      ensures LexLess(p[i].0, p[j].0) && p[i].0 != p[j].0
    {
      LexLessDistinct(p[i].0, p[j].0);
    }
  }

  /** Whatever order the five parameters are put in, the map iterates as
      consumer key, nonce, signature method, timestamp, version. */
  lemma PutOrderIrrelevant(consumerKey: string, timestamp: string, nonce: string, order: Params)
    requires TreeMap.DistinctKeys(order)
    requires forall x :: x in order <==> x in SourceOrder(consumerKey, timestamp, nonce)
    ensures TreeMap.PutAll([], order) == SortedOrder(consumerKey, timestamp, nonce)
  {
    var sorted := SortedOrder(consumerKey, timestamp, nonce);
    SortedOrderIsSorted(consumerKey, timestamp, nonce);
    assert forall x :: x in order <==> x in sorted;
    TreeMap.PutAllOrderIndependent([], order, sorted);
    TreeMap.PutAllAscending([], sorted);
  }

  /** In particular the source's own order gives the sorted map. */
  lemma UnsignedParamsInOrder(consumerKey: string, timestamp: string, nonce: string)
    ensures UnsignedParams(consumerKey, timestamp, nonce) == SortedOrder(consumerKey, timestamp, nonce)
  {
    NamesDistinct();
    var src := SourceOrder(consumerKey, timestamp, nonce);
    var idx := [0, 3, 4, 1, 5];
    assert forall i :: 0 <= i < |src| ==> src[i].0 == Names[idx[i]];
    PutOrderIrrelevant(consumerKey, timestamp, nonce, src);
  }

  /** `urlEncode(k) + "=" + urlEncode(v)` for one entry. */
  function EncodedPair(entry: (string, string)): string
  {
    UrlEncoder.Encode(entry.0) + "=" + UrlEncoder.Encode(entry.1)
  }

  /** The encoded pairs joined by `&`, in iteration order. */
  function ParamString(p: Params): string
    decreases |p|
  {
    if |p| == 0 then ""
    else if |p| == 1 then EncodedPair(p[0])
    else ParamString(p[..|p| - 1]) + "&" + EncodedPair(p[|p| - 1])
  }

  /** Lines 155-159: the `StringBuilder` loop, which writes `&` before a
      pair only when something has already been written.  Because every
      encoded pair contains `=`, that is exactly "before every pair but
      the first". */
  method BuildParamString(p: Params) returns (s: string)
    ensures s == ParamString(p)
  {
    s := "";
    var i := 0;
    while i < |p|
      invariant 0 <= i <= |p|
      invariant s == ParamString(p[..i])
      invariant |s| > 0 <==> i > 0
    {
      assert p[..i + 1][..i] == p[..i];
      assert |EncodedPair(p[i])| > 0;
      if |s| > 0 {
        s := s + "&";
      }
      s := s + EncodedPair(p[i]);
      i := i + 1;
    }
    assert p[..|p|] == p;
  }

  /** Lines 150-160: `method & enc(url) & enc(paramString)`. */
  function BaseString(httpMethod: string, url: string, p: Params): string
  {
    httpMethod + "&" + UrlEncoder.Encode(url) + "&" + UrlEncoder.Encode(ParamString(p))
  }

  /** Appending one entry appends its encoded pair, after `&` unless it
      is the first. */
  lemma ParamStringSnoc(p: Params, entry: (string, string))
    ensures ParamString(p + [entry])
         == if |p| == 0 then EncodedPair(entry) else ParamString(p) + "&" + EncodedPair(entry)
  {
    assert (p + [entry])[..|p|] == p;
  }

  lemma ParamStringOfFive(e0: (string, string), e1: (string, string), e2: (string, string),
                          e3: (string, string), e4: (string, string))
    ensures ParamString([e0, e1, e2, e3, e4])
         == EncodedPair(e0) + "&" + EncodedPair(e1) + "&" + EncodedPair(e2)
            + "&" + EncodedPair(e3) + "&" + EncodedPair(e4)
  {
    var p1: Params := [e0];
    ParamStringSnoc([], e0);
    assert [] + [e0] == p1;
    var p2 := p1 + [e1];
    ParamStringSnoc(p1, e1);
    var p3 := p2 + [e2];
    ParamStringSnoc(p2, e2);
    var p4 := p3 + [e3];
    ParamStringSnoc(p3, e3);
    assert ParamString(p2) == EncodedPair(e0) + "&" + EncodedPair(e1);
    assert ParamString(p3) == EncodedPair(e0) + "&" + EncodedPair(e1) + "&" + EncodedPair(e2);
    assert ParamString(p4) == EncodedPair(e0) + "&" + EncodedPair(e1) + "&" + EncodedPair(e2)
                              + "&" + EncodedPair(e3);
    var p5 := p4 + [e4];
    ParamStringSnoc(p4, e4);
    assert p5 == [e0, e1, e2, e3, e4];
  }

  /** The parameter string signed for the five unsigned parameters: the
      names in ascending order, each with its encoded value, and no
      `oauth_signature` among them. */
  lemma ParamStringOfUnsigned(consumerKey: string, timestamp: string, nonce: string)
    ensures ParamString(UnsignedParams(consumerKey, timestamp, nonce))
         == EncodedPair((ConsumerKeyName, consumerKey))
            + "&" + EncodedPair((NonceName, nonce))
            + "&" + EncodedPair((SignatureMethodName, SignatureMethod))
            + "&" + EncodedPair((TimestampName, timestamp))
            + "&" + EncodedPair((VersionName, Version))
  {
    UnsignedParamsInOrder(consumerKey, timestamp, nonce);
    ParamStringOfFive((ConsumerKeyName, consumerKey), (NonceName, nonce), (SignatureMethodName, SignatureMethod),
                      (TimestampName, timestamp), (VersionName, Version));
  }

  /** The signing key: the consumer secret and an empty token secret. */
  function SigningKey(consumerSecret: string): string
  {
    consumerSecret + "&"
  }

  /** Lines 172-178: Base64 of the MAC over the UTF-8 bytes. */
  function Signature(hmac: Hmac, key: string, data: string): string
  {
    Base64.Encode(hmac(Utf8.Encode(key), Utf8.Encode(data)))
  }

  /** Lines 139-166: the five parameters, then the signature over them. */
  function GenerateOAuthParams(c: Client, httpMethod: string, url: string, millis: int,
                               random: seq<Utf8.byte>, hmac: Hmac): (p: Params)
    requires LongMin <= millis <= LongMax && |random| == 16
  {
    var unsigned := UnsignedParams(c.consumerKey, Timestamp(millis), GenerateNonce(random));
    var base := BaseString(httpMethod, url, unsigned);
    TreeMap.Put(unsigned, SignatureName, Signature(hmac, SigningKey(c.consumerSecret), base))
  }

  /** The signed parameters: the six names in ascending order, the fixed
      method and version, the consumer key verbatim, and a signature
      computed over the five other parameters with the secret followed by
      `&` as key. */
  lemma GeneratedParamsShape(c: Client, httpMethod: string, url: string, millis: int,
                             random: seq<Utf8.byte>, hmac: Hmac)
    requires LongMin <= millis <= LongMax && |random| == 16
    ensures var p := GenerateOAuthParams(c, httpMethod, url, millis, random, hmac);
            var nonce := GenerateNonce(random);
            var unsigned := UnsignedParams(c.consumerKey, Timestamp(millis), nonce);
            p == [(ConsumerKeyName, c.consumerKey), (NonceName, nonce),
                  (SignatureName, Signature(hmac, c.consumerSecret + "&", BaseString(httpMethod, url, unsigned))),
                  (SignatureMethodName, "HMAC-SHA1"), (TimestampName, Timestamp(millis)), (VersionName, "1.0")]
  {
    var nonce := GenerateNonce(random);
    var ts := Timestamp(millis);
    UnsignedParamsInOrder(c.consumerKey, ts, nonce);
    var u := UnsignedParams(c.consumerKey, ts, nonce);
    var sig := Signature(hmac, SigningKey(c.consumerSecret), BaseString(httpMethod, url, u));
    PutSignatureBetween(c.consumerKey, ts, nonce, sig);
  }

  /** The signed parameters iterate in the order of `Names`, which is the
      `TreeMap` order. */
  lemma GeneratedParamsSorted(c: Client, httpMethod: string, url: string, millis: int,
                              random: seq<Utf8.byte>, hmac: Hmac)
    requires LongMin <= millis <= LongMax && |random| == 16
    ensures TreeMap.Keys(GenerateOAuthParams(c, httpMethod, url, millis, random, hmac)) == Names
    ensures TreeMap.Sorted(GenerateOAuthParams(c, httpMethod, url, millis, random, hmac))
  {
    GeneratedParamsShape(c, httpMethod, url, millis, random, hmac);
    var sig := Signature(hmac, c.consumerSecret + "&",
                         BaseString(httpMethod, url, UnsignedParams(c.consumerKey, Timestamp(millis), GenerateNonce(random))));
    SignedOrderSorted(SortedOrder(c.consumerKey, Timestamp(millis), GenerateNonce(random)), sig);
  }

  lemma SignedOrderSorted(u: Params, sig: string)
    requires |u| == 5 && u[0].0 == Names[0] && u[1].0 == Names[1]
    requires forall i :: 2 <= i < 5 ==> u[i].0 == Names[i + 1]
    ensures var p := [u[0], u[1], (SignatureName, sig), u[2], u[3], u[4]];
            TreeMap.Keys(p) == Names && TreeMap.Sorted(p)
  {
    var p := [u[0], u[1], (SignatureName, sig), u[2], u[3], u[4]];
    assert forall i :: 0 <= i < |p| ==> p[i].0 == Names[i];
    NamesAscending();
  }

  /** `oauth_signature` goes in third, after the key and the nonce. */
  lemma PutSignatureBetween(consumerKey: string, timestamp: string, nonce: string, sig: string)
    ensures var u := SortedOrder(consumerKey, timestamp, nonce);
            TreeMap.Put(u, SignatureName, sig) == [u[0], u[1], (SignatureName, sig), u[2], u[3], u[4]]
  {
    var u := SortedOrder(consumerKey, timestamp, nonce);
    NamesAscending();
    assert LexLess(Names[0], Names[2]) && LexLess(Names[1], Names[2]) && LexLess(Names[2], Names[3]);
    LexLessAsymmetric(ConsumerKeyName, SignatureName);
    LexLessAsymmetric(NonceName, SignatureName);
    LexLessIrreflexive(SignatureName);
    assert TreeMap.Put(u[2..], SignatureName, sig) == [(SignatureName, sig)] + u[2..];
    assert TreeMap.Put(u[1..], SignatureName, sig) == [u[1]] + TreeMap.Put(u[2..], SignatureName, sig);
  }

  /** A signing key naming different secrets gives different signatures
      whenever the MAC tells those keys apart: Base64 and UTF-8 lose
      nothing. */
  lemma SignatureDistinguishesSecrets(hmac: Hmac, secret1: string, secret2: string, data: string)
    requires hmac(Utf8.Encode(SigningKey(secret1)), Utf8.Encode(data))
          != hmac(Utf8.Encode(SigningKey(secret2)), Utf8.Encode(data))
    ensures Signature(hmac, SigningKey(secret1), data) != Signature(hmac, SigningKey(secret2), data)
    ensures secret1 != secret2
  {
    if Signature(hmac, SigningKey(secret1), data) == Signature(hmac, SigningKey(secret2), data) {
      Base64.EncodeInjective(hmac(Utf8.Encode(SigningKey(secret1)), Utf8.Encode(data)),
                             hmac(Utf8.Encode(SigningKey(secret2)), Utf8.Encode(data)));
    }
  }

  /** The signature is the Base64 text of the MAC: decoding it gives the
      MAC bytes back. */
  lemma SignatureCarriesMac(hmac: Hmac, key: string, data: string)
    ensures Base64.Decode(Signature(hmac, key, data)) == Some(hmac(Utf8.Encode(key), Utf8.Encode(data)))
  {
    Base64.DecodeEncode(hmac(Utf8.Encode(key), Utf8.Encode(data)));
  }

  // ---------------------------------------------------------------------
  // The request URL

  /** `key=value&` with the value written raw. */
  function QueryPair(entry: (string, string)): string
  {
    entry.0 + "=" + entry.1 + "&"
  }

  /** Every pair in iteration order, each followed by `&`. */
  function Query(p: Params): string
    decreases |p|
  {
    if |p| == 0 then "" else Query(p[..|p| - 1]) + QueryPair(p[|p| - 1])
  }

  /** Lines 57-61 and 101-105: the base URL, `?`, then the raw pairs. */
  function FinalUrl(url: string, p: Params): string
  {
    url + "?" + Query(p)
  }

  /** The source's `StringBuilder` loop computes `FinalUrl`. */
  method BuildFinalUrl(url: string, p: Params) returns (r: string)
    ensures r == FinalUrl(url, p)
  {
    r := url + "?";
    var i := 0;
    while i < |p|
      invariant 0 <= i <= |p|
      invariant r == url + "?" + Query(p[..i])
    {
      assert p[..i + 1][..i] == p[..i];
      r := r + p[i].0 + "=" + p[i].1 + "&";
      i := i + 1;
    }
    assert p[..|p|] == p;
  }

  lemma {:induction false} QueryAppend(a: Params, b: Params)
    ensures Query(a + b) == Query(a) + Query(b)
    decreases |b|
  {
    if |b| == 0 {
      assert a + b == a;
    } else {
      var b', last := b[..|b| - 1], b[|b| - 1];
      assert (a + b)[..|a + b| - 1] == a + b';
      assert (a + b)[|a + b| - 1] == last;
      QueryAppend(a, b');
      assert Query(a + b) == Query(a + b') + QueryPair(last);
      assert Query(b) == Query(b') + QueryPair(last);
    }
  }

  /** The query splits around any one of its pairs. */
  lemma QueryAround(p: Params, i: int)
    requires 0 <= i < |p|
    ensures Query(p) == Query(p[..i]) + QueryPair(p[i]) + Query(p[i + 1..])
  {
    var head := p[..i + 1];
    assert p == head + p[i + 1..];
    QueryAppend(head, p[i + 1..]);
    assert head[..i] == p[..i];
    assert Query(head) == Query(p[..i]) + QueryPair(p[i]);
  }

  /** The URL starts with the base URL and `?`, carries `key=value&` for
      every parameter verbatim, and ends in `&` once there is any. */
  lemma FinalUrlCarriesEveryPair(url: string, p: Params)
    ensures StartsWith(FinalUrl(url, p), url + "?")
    ensures forall i :: 0 <= i < |p| ==> Contains(FinalUrl(url, p), p[i].0 + "=" + p[i].1 + "&")
    ensures |p| > 0 ==> FinalUrl(url, p)[|FinalUrl(url, p)| - 1] == '&'
  {
    forall i | 0 <= i < |p|
      ensures Contains(FinalUrl(url, p), p[i].0 + "=" + p[i].1 + "&")
    {
      QueryAround(p, i);
      ContainsMiddle(url + "?" + Query(p[..i]), QueryPair(p[i]), Query(p[i + 1..]));
      assert FinalUrl(url, p) == (url + "?" + Query(p[..i])) + QueryPair(p[i]) + Query(p[i + 1..]);
    }
  }

  /** The signature goes into the URL raw.  Base64 text has no `%`, so a
      server that form-decodes the query reads every `+` of it as a
      space: whenever the signature holds a `+`, the value it reads back
      is not the signature. */
  lemma RawSignatureMisreadWithPlus(hmac: Hmac, key: string, data: string)
    requires '+' in Signature(hmac, key, data)
    ensures UrlEncoder.Decode(Signature(hmac, key, data)) != Some(Signature(hmac, key, data))
  {
    var sig := Signature(hmac, key, data);
    assert forall i :: 0 <= i < |sig| ==> sig[i] != '%';
    UrlEncoder.DecodeWithoutPercent(sig);
  }

  // ---------------------------------------------------------------------
  // What `URI.create` and the request builder accept

  /** Characters `java.net.URI` accepts in no component: the ASCII and C1
      controls, DEL, the space separators of `Character.isSpaceChar`, and
      `"` `<` `>` `\` `^` `` ` `` `{` `|` `}`. */
  predicate IsIllegalUriChar(c: char) {
    || c <= ' ' || ('\U{007F}' <= c <= '\U{009F}')
    || c == '"' || c == '<' || c == '>' || c == '\\' || c == '^' || c == '`' || c == '{' || c == '|' || c == '}'
    || c == '\U{00A0}' || c == '\U{1680}' || ('\U{2000}' <= c <= '\U{200A}')
    || c == '\U{2028}' || c == '\U{2029}' || c == '\U{202F}' || c == '\U{205F}' || c == '\U{3000}'
  }

  /** No illegal character, and every `%` opens an escape of two
      hexadecimal digits. */
  predicate UriCharsLegal(s: string) {
    && (forall i :: 0 <= i < |s| ==> !IsIllegalUriChar(s[i]))
    && (forall i :: 0 <= i < |s| && s[i] == '%' ==>
          i + 2 < |s| && UrlEncoder.HexValue(s[i + 1]).Some? && UrlEncoder.HexValue(s[i + 2]).Some?)
  }

  /** A character that is legal and is not `%`. */
  predicate IsPlainUriChar(c: char) {
    !IsIllegalUriChar(c) && c != '%'
  }

  /** `HttpRequest.Builder.uri` takes the schemes `http` and `https` in
      any case, with an authority. */
  predicate IsHttpUrl(s: string) {
    || (|s| >= 7 && EqualsIgnoreCase(s[..7], "http://"))
    || (|s| >= 8 && EqualsIgnoreCase(s[..8], "https://"))
  }

  /** What lines 67 and 111 build a request from without throwing. */
  predicate Accepted(uri: string) {
    IsHttpUrl(uri) && UriCharsLegal(uri)
  }

  lemma PlainIsLegal(s: string)
    requires forall i :: 0 <= i < |s| ==> IsPlainUriChar(s[i])
    ensures UriCharsLegal(s)
  {
  }

  /** Escapes never straddle the seam: two legal strings make a legal one. */
  lemma LegalConcat(a: string, b: string)
    requires UriCharsLegal(a) && UriCharsLegal(b)
    ensures UriCharsLegal(a + b)
  {
    var s := a + b;
    forall i | 0 <= i < |s| && s[i] == '%'
      ensures i + 2 < |s| && UrlEncoder.HexValue(s[i + 1]).Some? && UrlEncoder.HexValue(s[i + 2]).Some?
    {
      if i < |a| {
        assert a[i] == '%';
      } else {
        assert b[i - |a|] == '%';
      }
    }
  }

  /** Any one illegal character makes the whole string illegal. */
  lemma IllegalInside(a: string, b: string, i: int)
    requires 0 <= i < |b| && IsIllegalUriChar(b[i])
    ensures !UriCharsLegal(a + b) && !UriCharsLegal(b + a)
  {
    assert (a + b)[|a| + i] == b[i];
    assert (b + a)[i] == b[i];
  }

  /** A query whose every name and value is legal is legal. */
  lemma {:induction false} QueryLegal(p: Params)
    requires forall i :: 0 <= i < |p| ==> UriCharsLegal(p[i].0) && UriCharsLegal(p[i].1)
    ensures UriCharsLegal(Query(p))
    decreases |p|
  {
    if |p| > 0 {
      var last := p[|p| - 1];
      QueryLegal(p[..|p| - 1]);
      PlainIsLegal("=");
      PlainIsLegal("&");
      LegalConcat(last.0, "=");
      LegalConcat(last.0 + "=", last.1);
      LegalConcat(last.0 + "=" + last.1, "&");
      LegalConcat(Query(p[..|p| - 1]), QueryPair(last));
    }
  }

  /** Appending `?` and a query keeps the scheme test of the base URL:
      the `?` cannot complete `http://` or `https://`. */
  lemma HttpUrlOfQueryUrl(url: string, q: string)
    ensures IsHttpUrl(url + "?" + q) <==> IsHttpUrl(url)
  {
    var s := url + "?" + q;
    var k := |url|;
    assert s[k] == '?';
    if k >= 8 {
      assert s[..7] == url[..7] && s[..8] == url[..8];
    } else if k == 7 {
      assert s[..7] == url;
      assert ToLower(s[..8])[7] == '?';
    } else {
      if |s| >= 7 {
        assert ToLower(s[..7])[k] == '?';
        assert forall j :: 0 <= j < 7 ==> "http://"[j] != '?';
      }
      if |s| >= 8 {
        assert ToLower(s[..8])[k] == '?';
        assert forall j :: 0 <= j < 8 ==> "https://"[j] != '?';
      }
    }
  }

  // ---------------------------------------------------------------------
  // Requests

  /** The request entity. */
  datatype Entity = NoBody | Json(text: string)

  /** What `get` and `post` hand to the HTTP client. */
  datatype Request = Request(verb: string, uri: string, headers: seq<(string, string)>, entity: Entity)

  const AcceptJson: (string, string) := ("Accept", "application/json")
  const ContentTypeJson: (string, string) := ("Content-Type", "application/json")

  /** Lines 79-81 and 130-133: what the catch blocks rethrow. */
  const GetFailed: Exception := RuntimeException("OAuth GET request failed")
  const PostFailed: Exception := RuntimeException("OAuth POST request failed")

  /** Lines 49-70 and 78-81: the signed GET request for
      `baseUrl + endpoint`, or the wrapped failure when the URL is not one
      the builder takes. */
  function PrepareGet(c: Client, endpoint: string, millis: int, random: seq<Utf8.byte>, hmac: Hmac): Result<Request>
    requires LongMin <= millis <= LongMax && |random| == 16
  {
    var url := c.baseUrl + endpoint;
    var uri := FinalUrl(url, GenerateOAuthParams(c, "GET", url, millis, random, hmac));
    if Accepted(uri) then Ok(Request("GET", uri, [AcceptJson], NoBody)) else Err(GetFailed)
  }

  /** Lines 92-119 and 130-133: the signed POST request, or the wrapped
      failure.  `json` is the serialised request body, `None` for a null
      body. */
  function PreparePost(c: Client, endpoint: string, json: Option<string>, millis: int,
                       random: seq<Utf8.byte>, hmac: Hmac): Result<Request>
    requires LongMin <= millis <= LongMax && |random| == 16
  {
    var url := c.baseUrl + endpoint;
    var body := json.GetOr("");
    var uri := FinalUrl(url, GenerateOAuthParams(c, "POST", url, millis, random, hmac));
    if Accepted(uri) then
      Ok(Request("POST", uri, [ContentTypeJson, AcceptJson], if |body| > 0 then Json(body) else NoBody))
    else Err(PostFailed)
  }

  /** Lower-case ASCII letters and `_`, the alphabet of the names. */
  predicate IsNameWord(s: string) {
    forall i :: 0 <= i < |s| ==> 'a' <= s[i] <= 'z' || s[i] == '_'
  }

  lemma NameWordLegal(s: string)
    requires IsNameWord(s)
    ensures UriCharsLegal(s)
  {
    assert forall i :: 0 <= i < |s| ==> IsPlainUriChar(s[i]);
  }

  lemma PrefixedLegal(suffix: string)
    requires IsNameWord(suffix)
    ensures UriCharsLegal(Prefix + suffix)
  {
    assert IsNameWord(Prefix);
    NameWordLegal(Prefix);
    NameWordLegal(suffix);
    LegalConcat(Prefix, suffix);
  }

  lemma NamesLegal()
    ensures forall i :: 0 <= i < |Names| ==> UriCharsLegal(Names[i])
  {
    var key, nonce, sig, sigMethod, ts, version := "consumer_key", "nonce", "signature", "signature_method", "timestamp", "version";
    assert IsNameWord(key) && IsNameWord(nonce) && IsNameWord(sig);
    assert IsNameWord(sigMethod) && IsNameWord(ts) && IsNameWord(version);
    PrefixedLegal(key);
    PrefixedLegal(nonce);
    PrefixedLegal(sig);
    PrefixedLegal(sigMethod);
    PrefixedLegal(ts);
    PrefixedLegal(version);
    assert SignatureMethodName == Prefix + sigMethod;
  }

  lemma TimestampLegal(millis: int)
    requires LongMin <= millis <= LongMax
    ensures UriCharsLegal(Timestamp(millis))
  {
    var ts := Timestamp(millis);
    assert forall i :: 0 <= i < |ts| ==> IsPlainUriChar(ts[i]);
  }

  lemma NonceLegal(random: seq<Utf8.byte>)
    requires |random| == 16
    ensures UriCharsLegal(GenerateNonce(random))
  {
    var nonce := GenerateNonce(random);
    assert forall i :: 0 <= i < |nonce| ==> IsPlainUriChar(nonce[i]);
  }

  lemma SignatureLegal(hmac: Hmac, key: string, data: string)
    ensures UriCharsLegal(Signature(hmac, key, data))
  {
    var sig := Signature(hmac, key, data);
    assert forall i :: 0 <= i < |sig| ==> IsPlainUriChar(sig[i]);
  }

  /** One more legal pair keeps a legal query legal. */
  lemma QuerySnocLegal(p: Params, e: (string, string))
    requires UriCharsLegal(Query(p)) && UriCharsLegal(e.0) && UriCharsLegal(e.1)
    ensures UriCharsLegal(Query(p + [e]))
  {
    assert (p + [e])[..|p|] == p;
    PlainIsLegal("=");
    PlainIsLegal("&");
    LegalConcat(e.0, "=");
    LegalConcat(e.0 + "=", e.1);
    LegalConcat(e.0 + "=" + e.1, "&");
    LegalConcat(Query(p), QueryPair(e));
  }

  /** Three more legal pairs keep a legal query legal. */
  lemma ThreePairsLegal(p: Params, e0: (string, string), e1: (string, string), e2: (string, string))
    requires UriCharsLegal(Query(p))
    requires UriCharsLegal(e0.0) && UriCharsLegal(e1.0) && UriCharsLegal(e2.0)
    requires UriCharsLegal(e0.1) && UriCharsLegal(e1.1) && UriCharsLegal(e2.1)
    ensures UriCharsLegal(Query(p + [e0, e1, e2]))
  {
    QuerySnocLegal(p, e0);
    QuerySnocLegal(p + [e0], e1);
    assert p + [e0] + [e1] == p + [e0, e1];
    QuerySnocLegal(p + [e0, e1], e2);
    assert p + [e0, e1] + [e2] == p + [e0, e1, e2];
  }

  /** Six legal pairs make a legal query. */
  lemma SixPairsLegal(e0: (string, string), e1: (string, string), e2: (string, string),
                      e3: (string, string), e4: (string, string), e5: (string, string))
    requires UriCharsLegal(e0.0) && UriCharsLegal(e1.0) && UriCharsLegal(e2.0)
    requires UriCharsLegal(e3.0) && UriCharsLegal(e4.0) && UriCharsLegal(e5.0)
    requires UriCharsLegal(e0.1) && UriCharsLegal(e1.1) && UriCharsLegal(e2.1)
    requires UriCharsLegal(e3.1) && UriCharsLegal(e4.1) && UriCharsLegal(e5.1)
    ensures UriCharsLegal(Query([e0, e1, e2, e3, e4, e5]))
  {
    assert UriCharsLegal(Query([]));
    ThreePairsLegal([], e0, e1, e2);
    assert [] + [e0, e1, e2] == [e0, e1, e2];
    ThreePairsLegal([e0, e1, e2], e3, e4, e5);
    assert [e0, e1, e2] + [e3, e4, e5] == [e0, e1, e2, e3, e4, e5];
  }

  lemma FixedValuesLegal()
    ensures UriCharsLegal(SignatureMethod) && UriCharsLegal(Version)
  {
    assert forall i :: 0 <= i < |SignatureMethod| ==> IsPlainUriChar(SignatureMethod[i]);
    assert forall i :: 0 <= i < |Version| ==> IsPlainUriChar(Version[i]);
  }

  /** The query of the six signed parameters is legal when their four
      variable values are. */
  lemma SignedQueryLegal(key: string, nonce: string, sig: string, ts: string)
    requires UriCharsLegal(key) && UriCharsLegal(nonce) && UriCharsLegal(sig) && UriCharsLegal(ts)
    ensures UriCharsLegal(Query([(ConsumerKeyName, key), (NonceName, nonce), (SignatureName, sig),
                                 (SignatureMethodName, "HMAC-SHA1"), (TimestampName, ts), (VersionName, "1.0")]))
  {
    NamesLegal();
    FixedValuesLegal();
    assert UriCharsLegal(Names[0]) && UriCharsLegal(Names[1]) && UriCharsLegal(Names[2]);
    assert UriCharsLegal(Names[3]) && UriCharsLegal(Names[4]) && UriCharsLegal(Names[5]);
    SixPairsLegal((ConsumerKeyName, key), (NonceName, nonce), (SignatureName, sig),
                  (SignatureMethodName, SignatureMethod), (TimestampName, ts), (VersionName, Version));
  }

  /** Every generated name and value is legal in a URI once the consumer
      key is: the names are fixed words, the timestamp is a signed
      numeral, the nonce is alphanumeric and the signature is Base64. */
  lemma GeneratedParamsLegal(c: Client, httpMethod: string, url: string, millis: int,
                             random: seq<Utf8.byte>, hmac: Hmac)
    requires LongMin <= millis <= LongMax && |random| == 16
    requires UriCharsLegal(c.consumerKey)
    ensures UriCharsLegal(Query(GenerateOAuthParams(c, httpMethod, url, millis, random, hmac)))
  {
    GeneratedParamsShape(c, httpMethod, url, millis, random, hmac);
    var nonce, ts := GenerateNonce(random), Timestamp(millis);
    var base := BaseString(httpMethod, url, UnsignedParams(c.consumerKey, ts, nonce));
    NonceLegal(random);
    TimestampLegal(millis);
    SignatureLegal(hmac, c.consumerSecret + "&", base);
    SignedQueryLegal(c.consumerKey, nonce, Signature(hmac, c.consumerSecret + "&", base), ts);
  }

  /** The URL the builder sees is accepted for a legal `http` or `https`
      base URL and a legal consumer key. */
  lemma LegalUrlAccepted(c: Client, httpMethod: string, url: string, millis: int,
                         random: seq<Utf8.byte>, hmac: Hmac)
    requires LongMin <= millis <= LongMax && |random| == 16
    requires IsHttpUrl(url) && UriCharsLegal(url) && UriCharsLegal(c.consumerKey)
    ensures Accepted(FinalUrl(url, GenerateOAuthParams(c, httpMethod, url, millis, random, hmac)))
  {
    var q := Query(GenerateOAuthParams(c, httpMethod, url, millis, random, hmac));
    GeneratedParamsLegal(c, httpMethod, url, millis, random, hmac);
    PlainIsLegal("?");
    LegalConcat(url, "?");
    LegalConcat(url + "?", q);
    HttpUrlOfQueryUrl(url, q);
  }

  /** An `http` or `https` base URL whose characters and escapes are legal,
      with a legal consumer key, gives a request for the signed URL; the
      GET has no entity and the POST carries a non-empty body. */
  lemma LegalUrlIsRequested(c: Client, endpoint: string, json: Option<string>, millis: int,
                            random: seq<Utf8.byte>, hmac: Hmac)
    requires LongMin <= millis <= LongMax && |random| == 16
    requires IsHttpUrl(c.baseUrl + endpoint) && UriCharsLegal(c.baseUrl + endpoint)
    requires UriCharsLegal(c.consumerKey)
    ensures var url := c.baseUrl + endpoint;
            PrepareGet(c, endpoint, millis, random, hmac)
            == Ok(Request("GET", FinalUrl(url, GenerateOAuthParams(c, "GET", url, millis, random, hmac)),
                          [AcceptJson], NoBody))
    ensures var url := c.baseUrl + endpoint;
            PreparePost(c, endpoint, json, millis, random, hmac)
            == Ok(Request("POST", FinalUrl(url, GenerateOAuthParams(c, "POST", url, millis, random, hmac)),
                          [ContentTypeJson, AcceptJson],
                          if json.Some? && |json.value| > 0 then Json(json.value) else NoBody))
  {
    LegalUrlAccepted(c, "GET", c.baseUrl + endpoint, millis, random, hmac);
    LegalUrlAccepted(c, "POST", c.baseUrl + endpoint, millis, random, hmac);
  }

  /** The consumer key is the first value of the query, right after its
      name and `=`. */
  lemma KeyInQuery(p: Params, i: int)
    requires |p| > 0 && 0 <= i < |p[0].1|
    ensures |p[0].0| + 1 + i < |Query(p)| && Query(p)[|p[0].0| + 1 + i] == p[0].1[i]
  {
    QueryAround(p, 0);
    assert Query(p[..0]) == "";
    var head, tail := p[0].0 + "=", "&" + Query(p[1..]);
    assert Query(p) == head + (p[0].1 + tail);
    assert (p[0].1 + tail)[i] == p[0].1[i];
  }

  /** A URL is rejected when its base is not `http` or `https`, or when
      the base or the first value of the query holds an illegal
      character. */
  lemma RejectedFinalUrl(url: string, p: Params)
    requires |p| > 0
    requires || !IsHttpUrl(url)
             || (exists i :: 0 <= i < |url| && IsIllegalUriChar(url[i]))
             || (exists i :: 0 <= i < |p[0].1| && IsIllegalUriChar(p[0].1[i]))
    ensures !Accepted(FinalUrl(url, p))
  {
    var q := Query(p);
    var s := FinalUrl(url, p);
    HttpUrlOfQueryUrl(url, q);
    if i :| 0 <= i < |url| && IsIllegalUriChar(url[i]) {
      assert s[i] == url[i];
    } else if i :| 0 <= i < |p[0].1| && IsIllegalUriChar(p[0].1[i]) {
      KeyInQuery(p, i);
      var j := |p[0].0| + 1 + i;
      assert s[|url| + 1 + j] == q[j];
    }
  }

  /** The URL the builder sees is rejected when the base URL is not `http`
      or `https`, or when it or the consumer key holds an illegal
      character. */
  lemma RejectedUrlNotAccepted(c: Client, httpMethod: string, url: string, millis: int,
                               random: seq<Utf8.byte>, hmac: Hmac)
    requires LongMin <= millis <= LongMax && |random| == 16
    requires || !IsHttpUrl(url)
             || (exists i :: 0 <= i < |url| && IsIllegalUriChar(url[i]))
             || (exists i :: 0 <= i < |c.consumerKey| && IsIllegalUriChar(c.consumerKey[i]))
    ensures !Accepted(FinalUrl(url, GenerateOAuthParams(c, httpMethod, url, millis, random, hmac)))
  {
    var p := GenerateOAuthParams(c, httpMethod, url, millis, random, hmac);
    GeneratedParamsShape(c, httpMethod, url, millis, random, hmac);
    assert p[0].1 == c.consumerKey;
    RejectedFinalUrl(url, p);
  }

  /** An illegal character in the base URL, the endpoint or the consumer
      key, or a scheme other than `http` and `https`, makes both methods
      fail with their wrapped exception. */
  lemma RejectedUrlFails(c: Client, endpoint: string, json: Option<string>, millis: int,
                         random: seq<Utf8.byte>, hmac: Hmac)
    requires LongMin <= millis <= LongMax && |random| == 16
    requires || !IsHttpUrl(c.baseUrl + endpoint)
             || (exists i :: 0 <= i < |c.baseUrl + endpoint| && IsIllegalUriChar((c.baseUrl + endpoint)[i]))
             || (exists i :: 0 <= i < |c.consumerKey| && IsIllegalUriChar(c.consumerKey[i]))
    ensures PrepareGet(c, endpoint, millis, random, hmac) == Err(GetFailed)
    ensures PreparePost(c, endpoint, json, millis, random, hmac) == Err(PostFailed)
  {
    RejectedUrlNotAccepted(c, "GET", c.baseUrl + endpoint, millis, random, hmac);
    RejectedUrlNotAccepted(c, "POST", c.baseUrl + endpoint, millis, random, hmac);
  }

  /** The POST signature covers `POST` and the URL only: two bodies give
      the same outcome and the same URI, and the entity is the body when
      there is a non-empty one. */
  lemma PostSignatureIgnoresBody(c: Client, endpoint: string, json1: Option<string>, json2: Option<string>,
                                 millis: int, random: seq<Utf8.byte>, hmac: Hmac)
    requires LongMin <= millis <= LongMax && |random| == 16
    ensures PreparePost(c, endpoint, json1, millis, random, hmac).Ok?
         == PreparePost(c, endpoint, json2, millis, random, hmac).Ok?
    ensures PreparePost(c, endpoint, json1, millis, random, hmac).Ok? ==>
              && PreparePost(c, endpoint, json1, millis, random, hmac).value.uri
                 == PreparePost(c, endpoint, json2, millis, random, hmac).value.uri
              && PreparePost(c, endpoint, json1, millis, random, hmac).value.entity
                 == if json1.Some? && |json1.value| > 0 then Json(json1.value) else NoBody
  {
  }

  /** With the same clock, nonce bytes and URL, a GET and a POST are
      signed over different base strings, so the MAC is given different
      bytes, and whenever it answers differently for them the two
      signatures differ. */
  lemma GetAndPostSignDifferently(c: Client, endpoint: string, millis: int, random: seq<Utf8.byte>, hmac: Hmac)
    requires LongMin <= millis <= LongMax && |random| == 16
    ensures var url := c.baseUrl + endpoint;
            var u := UnsignedParams(c.consumerKey, Timestamp(millis), GenerateNonce(random));
            BaseString("GET", url, u) != BaseString("POST", url, u)
    ensures var url := c.baseUrl + endpoint;
            var u := UnsignedParams(c.consumerKey, Timestamp(millis), GenerateNonce(random));
            Utf8.Encode(BaseString("GET", url, u)) != Utf8.Encode(BaseString("POST", url, u))
    ensures var url := c.baseUrl + endpoint;
            var u := UnsignedParams(c.consumerKey, Timestamp(millis), GenerateNonce(random));
            var key := SigningKey(c.consumerSecret);
            hmac(Utf8.Encode(key), Utf8.Encode(BaseString("GET", url, u)))
              != hmac(Utf8.Encode(key), Utf8.Encode(BaseString("POST", url, u)))
            ==> Signature(hmac, key, BaseString("GET", url, u)) != Signature(hmac, key, BaseString("POST", url, u))
  {
    var url := c.baseUrl + endpoint;
    var u := UnsignedParams(c.consumerKey, Timestamp(millis), GenerateNonce(random));
    var get, post := BaseString("GET", url, u), BaseString("POST", url, u);
    assert get[0] == 'G';
    assert post[0] == 'P';
    if Utf8.Encode(get) == Utf8.Encode(post) {
      Utf8.EncodeInjective(get, post);
    }
    var key := SigningKey(c.consumerSecret);
    if Signature(hmac, key, get) == Signature(hmac, key, post) {
      Base64.EncodeInjective(hmac(Utf8.Encode(key), Utf8.Encode(get)), hmac(Utf8.Encode(key), Utf8.Encode(post)));
    }
  }
}
