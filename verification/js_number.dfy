/** The two pieces of JavaScript number semantics the site's logic depends on:
    the truncating remainder operator and `parseInt(s, 10)`, together with
    `Number.prototype.toString` on integers, which `openLightbox` uses to write
    an index into the query string. */
module JsNumber {
  import opened Wrappers

  function Abs(n: int): (r: nat)
    ensures r == n || r == -n
  {
    if n < 0 then -n else n
  }

  function RealAbs(x: real): (r: real)
    ensures r >= 0.0
    ensures r == x || r == -x
  {
    if x < 0.0 then -x else x
  }

  /** Number::remainder (section 6.1.6.1.6 of ECMA-262) on integer operands and a
      positive divisor: the remainder of truncating division, which carries the
      sign of the dividend. Dafny's own `%` is Euclidean and never negative. */
  function Rem(n: int, d: int): (r: int)
    requires d > 0
    ensures -d < r < d
    ensures n >= 0 ==> r >= 0
    ensures n <= 0 ==> r <= 0
    ensures n >= 0 ==> r == n % d
    ensures -d < n < d ==> r == n
    ensures (n - r) % d == 0
  {
    var m := if n >= 0 then n else -n;
    RemCongruent(m, d);
    if n >= 0 then m % d else -(m % d)
  }

  /** Removing the remainder from either side leaves a multiple of the divisor. */
  lemma RemCongruent(m: nat, d: int)
    requires d > 0
    ensures (m - m % d) % d == 0 && (m % d - m) % d == 0
    ensures m < d ==> m % d == m
  {
    if m < d {
      ModUnique(m, d, 0, m);
    }
    var q := m / d;
    assert m - m % d == q * d;
    ModUnique(m - m % d, d, q, 0);
    ModUnique(m % d - m, d, -q, 0);
  }

  /** Euclidean division is unique: a quotient and an in-range remainder that
      rebuild `a` are the ones `/` and `%` return. */
  lemma ModUnique(a: int, d: int, q: int, r: int)
    requires d > 0 && 0 <= r < d && a == q * d + r
    ensures a / d == q && a % d == r
  {
    var q', r' := a / d, a % d;
    assert (q - q') * d == r' - r;
    if q > q' {
      MulAtLeast(q - q', d);
    } else if q < q' {
      MulAtLeast(q' - q, d);
    }
  }

  lemma MulAtLeast(k: int, d: int)
    requires k >= 1 && d > 0
    ensures k * d >= d
  {
  }

  /** Where the two remainders part ways: a negative dividend. */
  lemma RemDiffersFromEuclidean()
    ensures Rem(-2, 4) == -2 && -2 % 4 == 2
    ensures Rem(-5, 4) == -1 && -5 % 4 == 3
  {
  }

  // ---------------------------------------------------------------------------
  // parseInt(string, 10), section 19.2.5 of ECMA-262
  // ---------------------------------------------------------------------------

  /** StrWhiteSpaceChar: WhiteSpace (tab, vertical tab, form feed, space, no-break
      space, byte order mark and the space separators of category Zs) and
      LineTerminator (line feed, carriage return, line and paragraph separators). */
  predicate IsStrWhiteSpace(c: char) {
    || c == '\t' || c == '\U{000B}' || c == '\U{000C}' || c == ' ' || c == '\U{00A0}'
    || c == '\U{FEFF}' || c == '\U{1680}' || ('\U{2000}' <= c <= '\U{200A}')
    || c == '\U{202F}' || c == '\U{205F}' || c == '\U{3000}'
    || c == '\n' || c == '\r' || c == '\U{2028}' || c == '\U{2029}'
  }

  predicate IsDigit(c: char) {
    '0' <= c <= '9'
  }

  function DigitValue(c: char): (v: nat)
    requires IsDigit(c)
    ensures v < 10
  {
    c as int - '0' as int
  }

  function DigitChar(v: nat): (c: char)
    requires v < 10
    ensures IsDigit(c) && DigitValue(c) == v
  {
    ('0' as int + v) as char
  }

  /** Drops leading white space. */
  function TrimStart(s: string): (r: string)
    ensures |r| <= |s| && r == s[|s| - |r|..]
    ensures forall i :: 0 <= i < |s| - |r| ==> IsStrWhiteSpace(s[i])
    ensures |r| > 0 ==> !IsStrWhiteSpace(r[0])
  {
    if |s| > 0 && IsStrWhiteSpace(s[0]) then TrimStart(s[1..]) else s
  }

  /** The longest prefix made of decimal digits: everything before the first
      code unit that is not a radix-10 digit. */
  function DigitPrefix(s: string): (r: string)
    ensures r <= s
    ensures forall i :: 0 <= i < |r| ==> IsDigit(r[i])
    ensures |r| < |s| ==> !IsDigit(s[|r|])
  {
    if |s| > 0 && IsDigit(s[0]) then [s[0]] + DigitPrefix(s[1..]) else []
  }

  /** The mathematical value of a digit string, most significant digit first. */
  function DigitsValue(ds: string): (v: nat)
    requires forall i :: 0 <= i < |ds| ==> IsDigit(ds[i])
  {
    if |ds| == 0 then 0 else DigitsValue(ds[..|ds| - 1]) * 10 + DigitValue(ds[|ds| - 1])
  }

  /** parseInt(s, 10), with `None` for NaN. After the white space comes an optional
      sign, then the longest run of digits; no digit at all gives NaN. `-0` is
      the integer 0 here: every caller compares it with `< 0`, which -0 fails. */
  function ParseInt(s: string): (r: Option<int>)
    ensures r.None? <==> |DigitPrefix(Unsigned(TrimStart(s)))| == 0
  {
    ParseTrimmed(TrimStart(s))
  }

  /** parseInt after white space has been dropped. */
  function ParseTrimmed(t: string): (r: Option<int>)
    ensures r.None? <==> |DigitPrefix(Unsigned(t))| == 0
    ensures r.Some? && |t| > 0 && t[0] == '-' ==> r.value <= 0
    ensures r.Some? && (|t| == 0 || t[0] != '-') ==> r.value >= 0
  {
    var sign := if |t| > 0 && t[0] == '-' then -1 else 1;
    var z := DigitPrefix(Unsigned(t));
    if |z| == 0 then None else Some(sign * DigitsValue(z))
  }

  /** The string after its optional leading sign. */
  function Unsigned(t: string): (r: string)
    ensures r == t || (|t| > 0 && (t[0] == '+' || t[0] == '-') && r == t[1..])
  {
    if |t| > 0 && (t[0] == '+' || t[0] == '-') then t[1..] else t
  }

  // ---------------------------------------------------------------------------
  // Number::toString on integers (section 6.1.6.1.20 of ECMA-262)
  // ---------------------------------------------------------------------------

  /** Decimal digits of a natural number, without leading zeros. */
  function NatToString(n: nat): (s: string)
    ensures |s| > 0
    ensures forall i :: 0 <= i < |s| ==> IsDigit(s[i])
    ensures |s| > 1 ==> s[0] != '0'
  {
    if n < 10 then [DigitChar(n)] else NatToString(n / 10) + [DigitChar(n % 10)]
  }

  function IntToString(n: int): (s: string)
    ensures |s| > 0
    ensures s[0] == '-' <==> n < 0
  {
    if n < 0 then "-" + NatToString(-n) else NatToString(n)
  }

  lemma {:induction false} DigitsValueOfNatToString(n: nat)
    ensures DigitsValue(NatToString(n)) == n
  {
    var s := NatToString(n);
    if n >= 10 {
      DigitsValueOfNatToString(n / 10);
      assert s[..|s| - 1] == NatToString(n / 10);
    }
  }

  lemma {:induction false} DigitPrefixOfDigitsThen(ds: string, rest: string)
    requires forall i :: 0 <= i < |ds| ==> IsDigit(ds[i])
    requires |rest| == 0 || !IsDigit(rest[0])
    ensures DigitPrefix(ds + rest) == ds
  {
    if |ds| > 0 {
      assert (ds + rest)[1..] == ds[1..] + rest;
      DigitPrefixOfDigitsThen(ds[1..], rest);
    }
  }

  /** parseInt reads back what toString wrote, even when the text is surrounded
      by leading white space and followed by anything that does not start with a
      digit (so "2abc" reads as 2 and "1.5" as 1). */
  lemma {:induction false} ParseIntOfIntToString(ws: string, n: int, rest: string)
    requires forall i :: 0 <= i < |ws| ==> IsStrWhiteSpace(ws[i])
    requires |rest| == 0 || !IsDigit(rest[0])
    ensures ParseInt(ws + IntToString(n) + rest) == Some(n)
  {
    var body := IntToString(n) + rest;
    var s := ws + IntToString(n) + rest;
    IntToStringStart(n);
    assert body[0] == IntToString(n)[0];
    assert s == ws + body;
    TrimStartOver(ws, body);
    assert ParseInt(s) == ParseTrimmed(body);
    ParseTrimmedOfIntToString(n, rest);
  }

  /** The plain round trip `parseInt(String(n), 10) == n`. */
  lemma ParseIntRoundTrip(n: int)
    ensures ParseInt(IntToString(n)) == Some(n)
  {
    var s := IntToString(n);
    TrimStartOver("", s);
    assert "" + s == s;
    assert s + "" == s;
    ParseTrimmedOfIntToString(n, "");
  }

  lemma {:induction false} ParseTrimmedOfIntToString(n: int, rest: string)
    requires |rest| == 0 || !IsDigit(rest[0])
    ensures ParseTrimmed(IntToString(n) + rest) == Some(n)
  {
    var digits := NatToString(Abs(n));
    var body := IntToString(n) + rest;
    UnsignedOfIntToString(n, rest);
    DigitPrefixOfDigitsThen(digits, rest);
    DigitsValueOfNatToString(Abs(n));
    assert (body[0] == '-') == (n < 0);
  }

  /** Dropping the sign of what toString wrote leaves the digits of |n|. */
  lemma UnsignedOfIntToString(n: int, rest: string)
    ensures Unsigned(IntToString(n) + rest) == NatToString(Abs(n)) + rest
  {
    var digits := NatToString(Abs(n));
    if n < 0 {
      assert IntToString(n) + rest == ['-'] + (digits + rest);
    } else {
      assert IsDigit(digits[0]);
      assert (IntToString(n) + rest)[0] == digits[0];
    }
  }

  /** What toString writes starts with a minus sign or a digit. */
  lemma IntToStringStart(n: int)
    ensures IsDigit(IntToString(n)[0]) || IntToString(n)[0] == '-'
  {
    if n >= 0 {
      assert IsDigit(NatToString(n)[0]);
    }
  }

  lemma {:induction false} TrimStartOver(ws: string, body: string)
    requires forall i :: 0 <= i < |ws| ==> IsStrWhiteSpace(ws[i])
    requires |body| > 0 && (IsDigit(body[0]) || body[0] == '-')
    ensures TrimStart(ws + body) == body
  {
    if |ws| > 0 {
      assert (ws + body)[1..] == ws[1..] + body;
      TrimStartOver(ws[1..], body);
    }
  }

  /** Text after the digits is ignored: "2abc" reads as 2 and "1.5" as 1. */
  lemma ParseIntStopsAtNonDigit()
    ensures ParseInt("2abc") == Some(2)
    ensures ParseInt("1.5") == Some(1)
  {
    ParseIntOfDigitThen("2abc");
    ParseIntOfDigitThen("1.5");
  }

  /** A single digit followed by text that does not start with a digit. */
  lemma ParseIntOfDigitThen(s: string)
    requires |s| > 0 && IsDigit(s[0])
    requires |s| == 1 || !IsDigit(s[1])
    ensures ParseInt(s) == Some(DigitValue(s[0]))
  {
    var d := DigitValue(s[0]);
    assert DigitChar(d) == s[0];
    assert IntToString(d) == [s[0]];
    assert s == "" + IntToString(d) + s[1..];
    ParseIntOfIntToString("", d, s[1..]);
  }

  /** "-0" is accepted and reads as zero. */
  lemma ParseIntNegativeZero()
    ensures ParseInt("-0") == Some(0)
  {
    assert TrimStart("-0") == "-0";
    assert Unsigned("-0") == "0";
    assert DigitPrefix("0") == "0";
  }

  /** No digit after the optional sign means NaN. */
  lemma ParseIntNoDigits()
    ensures ParseInt("abc") == None
    ensures ParseInt("") == None
    ensures ParseInt("-") == None
  {
    assert !IsStrWhiteSpace('a') && !IsDigit('a');
    assert TrimStart("abc") == "abc";
    assert Unsigned("abc") == "abc";
    assert DigitPrefix("abc") == "";
    assert !IsStrWhiteSpace('-');
    assert TrimStart("-") == "-";
    assert Unsigned("-") == "";
  }
}
