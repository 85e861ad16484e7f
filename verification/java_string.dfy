/** The handful of `java.lang.String` operations the modelled code relies
    on, with Java's semantics written out: `trim` strips every character
    at or below U+0020, `split` with a one-character pattern drops
    trailing empty strings, `compareTo` is lexicographic, and
    `Long.toString` / `Integer.parseInt` work in base ten. */
module JavaString {
  import opened Wrappers

  // ---------------------------------------------------------------------
  // Searching

  /** `s.startsWith(p)` */
  predicate StartsWith(s: string, p: string) {
    |p| <= |s| && s[..|p|] == p
  }

  /** `s.contains(t)`: `t` occurs in `s` at some position. */
  predicate Contains(s: string, t: string)
    decreases |s|
  {
    StartsWith(s, t) || (|s| > 0 && Contains(s[1..], t))
  }

  /** An occurrence of `t` in the middle of a concatenation is found. */
  lemma {:induction false} ContainsMiddle(a: string, t: string, b: string)
    ensures Contains(a + t + b, t)
    decreases |a|
  {
    if |a| == 0 {
      assert a + t + b == t + b;
      assert (t + b)[..|t|] == t;
    } else {
      assert (a + t + b)[1..] == a[1..] + t + b;
      ContainsMiddle(a[1..], t, b);
    }
  }

  /** `t` occurs in `s` starting at position `i`. */
  predicate OccursAt(s: string, t: string, i: int) {
    0 <= i && i + |t| <= |s| && s[i..i + |t|] == t
  }

  /** `Contains` holds exactly when `t` occurs in `s` at some position. */
  lemma {:induction false} ContainsIffOccurs(s: string, t: string)
    ensures Contains(s, t) <==> exists i :: OccursAt(s, t, i)
    decreases |s|
  {
    if StartsWith(s, t) {
      assert OccursAt(s, t, 0);
    }
    if |s| > 0 {
      ContainsIffOccurs(s[1..], t);
      if Contains(s[1..], t) {
        var i :| OccursAt(s[1..], t, i);
        assert s[1..][i..i + |t|] == s[i + 1..i + 1 + |t|];
        assert OccursAt(s, t, i + 1);
      }
      if !StartsWith(s, t) && exists i :: OccursAt(s, t, i) {
        var i :| OccursAt(s, t, i);
        assert i != 0;
        assert s[1..][i - 1..i - 1 + |t|] == s[i..i + |t|];
        assert OccursAt(s[1..], t, i - 1);
      }
    } else if exists i :: OccursAt(s, t, i) {
      var i :| OccursAt(s, t, i);
      assert i == 0 && |t| == 0;
      assert StartsWith(s, t);
    }
  }

  /** An occurrence survives putting text on either side. */
  lemma ContainsWithin(a: string, s: string, b: string, t: string)
    requires Contains(s, t)
    ensures Contains(a + s + b, t)
  {
    ContainsIffOccurs(s, t);
    var i :| OccursAt(s, t, i);
    assert (a + s + b)[|a| + i..|a| + i + |t|] == s[i..i + |t|];
    assert OccursAt(a + s + b, t, |a| + i);
    ContainsIffOccurs(a + s + b, t);
  }

  /** An occurrence survives appending text. */
  lemma ContainsAppend(s: string, b: string, t: string)
    requires Contains(s, t)
    ensures Contains(s + b, t)
  {
    ContainsWithin([], s, b, t);
    assert [] + s + b == s + b;
  }

  /** Whatever contains `p + q` contains `p`. */
  lemma ContainsPrefixOf(s: string, p: string, q: string)
    requires Contains(s, p + q)
    ensures Contains(s, p)
  {
    ContainsIffOccurs(s, p + q);
    var i :| OccursAt(s, p + q, i);
    assert s[i..i + |p|] == s[i..i + |p + q|][..|p|];
    assert OccursAt(s, p, i);
    ContainsIffOccurs(s, p);
  }

  /** A single-character `contains` is plain membership. */
  lemma {:induction false} ContainsChar(s: string, c: char)
    ensures Contains(s, [c]) <==> c in s
    decreases |s|
  {
    if |s| > 0 {
      ContainsChar(s[1..], c);
      assert s == [s[0]] + s[1..];
    }
  }

  /** `s.indexOf(c)`: the first position of `c`, or -1 when absent. */
  function IndexOf(s: string, c: char): (r: int)
    ensures r == -1 <==> c !in s
    ensures 0 <= r ==> r < |s| && s[r] == c && c !in s[..r]
    ensures -1 <= r
    decreases |s|
  {
    if |s| == 0 then -1
    else if s[0] == c then 0
    else
      var k := IndexOf(s[1..], c);
      assert s[1..] == s[1..|s|];
      if k < 0 then -1
      else
        assert s[..k + 1] == [s[0]] + s[1..][..k];
        k + 1
  }

  // ---------------------------------------------------------------------
  // Trimming

  /** Java's whitespace for `trim`: every character at or below U+0020. */
  predicate IsTrimmed(c: char) {
    c <= ' '
  }

  function TrimStart(s: string): (r: string)
    ensures |r| <= |s| && r == s[|s| - |r|..]
    ensures |r| > 0 ==> !IsTrimmed(r[0])
    ensures forall i :: 0 <= i < |s| - |r| ==> IsTrimmed(s[i])
    decreases |s|
  {
    if |s| > 0 && IsTrimmed(s[0]) then TrimStart(s[1..]) else s
  }

  function TrimEnd(s: string): (r: string)
    ensures |r| <= |s| && r == s[..|r|]
    ensures |r| > 0 ==> !IsTrimmed(r[|r| - 1])
    ensures forall i :: |r| <= i < |s| ==> IsTrimmed(s[i])
    decreases |s|
  {
    if |s| > 0 && IsTrimmed(s[|s| - 1]) then TrimEnd(s[..|s| - 1]) else s
  }

  /** `s.trim()`: the longest infix that neither starts nor ends with a
      character at or below U+0020. */
  function Trim(s: string): (r: string)
  {
    TrimEnd(TrimStart(s))
  }

  /** `s.trim().isEmpty()` holds exactly when every character of `s` is
      at or below U+0020. */
  lemma TrimEmptyIffAllSpace(s: string)
    ensures |Trim(s)| == 0 <==> forall i :: 0 <= i < |s| ==> IsTrimmed(s[i])
  {
  }

  /** A trimmed string is an infix of the original. */
  lemma TrimIsInfix(s: string)
    ensures exists i, j :: 0 <= i <= j <= |s| && Trim(s) == s[i..j]
  {
    var t := TrimStart(s);
    var i := |s| - |t|;
    assert Trim(s) == s[i..i + |Trim(s)|];
  }

  // ---------------------------------------------------------------------
  // Splitting

  /** Every field of `s` between occurrences of `c`, empty ones included;
      there is always one more field than there are separators. */
  function Fields(s: string, c: char): (r: seq<string>)
    ensures |r| >= 1
    ensures forall i :: 0 <= i < |r| ==> c !in r[i]
    decreases |s|
  {
    var k := IndexOf(s, c);
    if k < 0 then [s]
    else [s[..k]] + Fields(s[k + 1..], c)
  }

  /** The separator-joined fields give back the string. */
  function Join(fields: seq<string>, c: char): string
  {
    if |fields| == 0 then ""
    else if |fields| == 1 then fields[0]
    else fields[0] + [c] + Join(fields[1..], c)
  }

  lemma {:induction false} JoinFields(s: string, c: char)
    ensures Join(Fields(s, c), c) == s
    decreases |s|
  {
    var k := IndexOf(s, c);
    if k >= 0 {
      var f, rest := Fields(s, c), Fields(s[k + 1..], c);
      assert f == [s[..k]] + rest && f[1..] == rest;
      JoinFields(s[k + 1..], c);
      assert Join(f, c) == s[..k] + [c] + Join(rest, c);
      assert s == s[..k] + [c] + s[k + 1..];
    }
  }

  /** Removes empty strings from the end of a list. */
  function DropTrailingEmpty(fields: seq<string>): (r: seq<string>)
    ensures |r| <= |fields| && r == fields[..|r|]
    ensures |r| > 0 ==> r[|r| - 1] != ""
    ensures forall i :: |r| <= i < |fields| ==> fields[i] == ""
  {
    if |fields| > 0 && fields[|fields| - 1] == "" then DropTrailingEmpty(fields[..|fields| - 1])
    else fields
  }

  /** `s.split(p)` for a pattern matching the single character `c`
      (`";"`, `"\\."`): no occurrence gives `[s]` itself, otherwise the
      fields with trailing empty strings removed. */
  function Split(s: string, c: char): seq<string>
  {
    if c !in s then [s] else DropTrailingEmpty(Fields(s, c))
  }

  /** A position holding `c` with no `c` before it is what `IndexOf` finds. */
  lemma {:induction false} IndexOfFirst(s: string, c: char, k: nat)
    requires k < |s| && s[k] == c && c !in s[..k]
    ensures IndexOf(s, c) == k
    decreases k
  {
    if k > 0 {
      assert s[..k][0] == s[0];
      assert s[1..][..k - 1] == s[1..k];
      IndexOfFirst(s[1..], c, k - 1);
    }
  }

  /** The text after the last separator is the last field. */
  lemma {:induction false} LastField(s: string, t: string, c: char)
    requires c !in t
    ensures var f := Fields(s + [c] + t, c); f[|f| - 1] == t
    decreases |s|
  {
    if c !in s {
      FieldsAtSeparator(s, t, c);
    } else {
      var k := IndexOf(s, c);
      FieldsAtFirst(s, t, c, k);
      LastField(s[k + 1..], t, c);
    }
  }

  /** A separator-free `s` is the first field of `s + [c] + t`. */
  lemma FieldsAtSeparator(s: string, t: string, c: char)
    requires c !in s
    ensures Fields(s + [c] + t, c) == [s] + Fields(t, c)
  {
    var x := s + [c] + t;
    assert x[..|s|] == s;
    IndexOfFirst(x, c, |s|);
    assert x[|s| + 1..] == t;
  }

  /** Splitting `s + [c] + t` at the first separator of `s`, at `k`. */
  lemma FieldsAtFirst(s: string, t: string, c: char, k: nat)
    requires k < |s| && s[k] == c && c !in s[..k]
    ensures Fields(s + [c] + t, c) == [s[..k]] + Fields(s[k + 1..] + [c] + t, c)
  {
    var x := s + [c] + t;
    assert x[..k] == s[..k];
    IndexOfFirst(x, c, k);
    assert x[k + 1..] == s[k + 1..] + [c] + t;
  }

  /** A string of separators only splits into empty fields. */
  lemma {:induction false} FieldsOfSeparators(s: string, c: char)
    requires forall i :: 0 <= i < |s| ==> s[i] == c
    ensures forall i :: 0 <= i < |Fields(s, c)| ==> Fields(s, c)[i] == ""
    decreases |s|
  {
    if |s| > 0 {
      IndexOfFirst(s, c, 0);
      FieldsOfSeparators(s[1..], c);
    }
  }

  /** The first field is the text before the first separator. */
  lemma FirstField(s: string, c: char)
    requires c in s
    ensures Fields(s, c)[0] == s[..IndexOf(s, c)]
  {
  }

  // ---------------------------------------------------------------------
  // Ordering (`String.compareTo(...) < 0`)

  /** Lexicographic order on characters.  It coincides with Java's
      `compareTo` (which compares UTF-16 code units) on strings without
      supplementary characters. */
  predicate LexLess(a: string, b: string)
    decreases |a|
  {
    if |a| == 0 then |b| > 0
    else if |b| == 0 then false
    else if a[0] != b[0] then a[0] < b[0]
    else LexLess(a[1..], b[1..])
  }

  lemma {:induction false} LexLessIrreflexive(a: string)
    ensures !LexLess(a, a)
    decreases |a|
  {
    if |a| > 0 {
      LexLessIrreflexive(a[1..]);
    }
  }

  lemma LexLessDistinct(a: string, b: string)
    requires LexLess(a, b)
    ensures a != b
  {
    LexLessIrreflexive(a);
  }

  lemma {:induction false} LexLessTransitive(a: string, b: string, c: string)
    requires LexLess(a, b) && LexLess(b, c)
    ensures LexLess(a, c)
    decreases |a|
  {
    if |a| > 0 && a[0] == b[0] && b[0] == c[0] {
      LexLessTransitive(a[1..], b[1..], c[1..]);
    }
  }

  lemma {:induction false} LexLessTotal(a: string, b: string)
    requires a != b
    ensures LexLess(a, b) || LexLess(b, a)
    decreases |a|
  {
    if |a| > 0 && |b| > 0 && a[0] == b[0] {
      assert a == [a[0]] + a[1..] && b == [b[0]] + b[1..];
      LexLessTotal(a[1..], b[1..]);
    }
  }

  lemma {:induction false} LexLessAsymmetric(a: string, b: string)
    requires LexLess(a, b)
    ensures !LexLess(b, a)
    decreases |a|
  {
    if |a| > 0 && a[0] == b[0] {
      LexLessAsymmetric(a[1..], b[1..]);
    }
  }

  /** A proper prefix sorts first; two strings sort by their first
      differing character after a common prefix. */
  lemma {:induction false} LexLessAfterCommonPrefix(p: string, a: string, b: string)
    requires LexLess(a, b)
    ensures LexLess(p + a, p + b)
    decreases |p|
  {
    if |p| == 0 {
      assert p + a == a && p + b == b;
    } else {
      assert (p + a)[1..] == p[1..] + a;
      assert (p + b)[1..] == p[1..] + b;
      LexLessAfterCommonPrefix(p[1..], a, b);
    }
  }

  // ---------------------------------------------------------------------
  // Case

  /** `Character.toLowerCase` on the characters whose lower case is an
      ASCII letter: `A`-`Z` and the Kelvin sign U+212A.  Every other
      character is kept, which is exact for comparing the result with an
      all-ASCII lower-case word. */
  function LowerChar(c: char): char {
    if 'A' <= c <= 'Z' then (c as int + 32) as char
    else if c == 'K' then 'k'
    else c
  }

  /** `s.toLowerCase()` as far as a comparison with an ASCII lower-case
      word can tell. */
  function ToLower(s: string): (r: string)
    ensures |r| == |s|
    ensures forall i :: 0 <= i < |s| ==> r[i] == LowerChar(s[i])
  {
    seq(|s|, i requires 0 <= i < |s| => LowerChar(s[i]))
  }

  /** `a.equalsIgnoreCase(b)` for an all-ASCII, lower-case `b`. */
  predicate EqualsIgnoreCase(a: string, b: string) {
    ToLower(a) == b
  }

  // ---------------------------------------------------------------------
  // Decimal numbers

  function DigitChar(d: int): char
    requires 0 <= d < 10
  {
    ('0' as int + d) as char
  }

  predicate IsDigit(c: char) {
    '0' <= c <= '9'
  }

  /** The base-ten digits of a natural number, most significant first. */
  function Digits(n: nat): (r: string)
    ensures |r| > 0
    ensures forall i :: 0 <= i < |r| ==> IsDigit(r[i])
    ensures n > 0 ==> r[0] != '0'
    ensures |r| > 1 ==> r[0] != '0'
    decreases n
  {
    if n < 10 then [DigitChar(n)] else Digits(n / 10) + [DigitChar(n % 10)]
  }

  /** The value of a string of decimal digits. */
  function DigitsValue(s: string): nat
    requires forall i :: 0 <= i < |s| ==> IsDigit(s[i])
  {
    if |s| == 0 then 0
    else
      assert IsDigit(s[|s| - 1]);
      10 * DigitsValue(s[..|s| - 1]) + (s[|s| - 1] as int - '0' as int)
  }

  lemma {:induction false} DigitsValueOfDigits(n: nat)
    ensures DigitsValue(Digits(n)) == n
    decreases n
  {
    if n >= 10 {
      var d := Digits(n);
      assert d[..|d| - 1] == Digits(n / 10);
      DigitsValueOfDigits(n / 10);
    }
  }

  /** `Long.toString(n)` / `String.valueOf(n)`: a minus sign for negative
      numbers, then the digits of the magnitude. */
  function DecimalString(n: int): string
  {
    if n < 0 then "-" + Digits(-n) else Digits(n)
  }

  const IntMin: int := -0x8000_0000
  const IntMax: int := 0x7FFF_FFFF

  /** `Integer.parseInt(s)` over ASCII digits: an optional sign, at least
      one digit, nothing else, and a value that fits in 32 bits;
      otherwise `NumberFormatException`. */
  function ParseInt(s: string): (r: Result<int>)
    ensures r.Ok? ==> IntMin <= r.value <= IntMax
  {
    var sign := if |s| > 0 && (s[0] == '-' || s[0] == '+') then 1 else 0;
    var body := s[sign..];
    if |body| == 0 || !(forall i :: 0 <= i < |body| ==> IsDigit(body[i])) then Err(NumberFormat)
    else
      var v: int := if sign == 1 && s[0] == '-' then -(DigitsValue(body) as int) else DigitsValue(body) as int;
      if IntMin <= v <= IntMax then Ok(v) else Err(NumberFormat)
  }

  /** Parsing inverts printing for every 32-bit value. */
  lemma ParseIntOfDecimalString(n: int)
    requires IntMin <= n <= IntMax
    ensures ParseInt(DecimalString(n)) == Ok(n)
  {
    if n < 0 {
      ParseIntNegative(-n);
    } else {
      ParseIntNonNegative(n);
    }
  }

  lemma ParseIntNegative(m: nat)
    requires 0 < m <= -IntMin
    ensures ParseInt("-" + Digits(m)) == Ok(-(m as int))
  {
    var s := "-" + Digits(m);
    assert s[0] == '-';
    assert s[1..] == Digits(m);
    DigitsValueOfDigits(m);
  }

  lemma ParseIntNonNegative(m: nat)
    requires m <= IntMax
    ensures ParseInt(Digits(m)) == Ok(m)
  {
    var s := Digits(m);
    assert IsDigit(s[0]);
    assert s[0..] == s;
    DigitsValueOfDigits(m);
  }
}
