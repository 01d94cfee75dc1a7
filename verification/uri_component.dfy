/** `encodeURIComponent` and its inverse `decodeURIComponent` (sections 19.2.6.5
    and 19.2.6.6 of ECMA-262) over JavaScript strings, which are sequences of
    UTF-16 code units. A lone surrogate cannot be encoded and raises URIError,
    modelled as None. */
module UriComponent {
  import opened Wrappers
  import opened JsNumber

  /** A UTF-16 code unit. */
  type Unit = x: int | 0 <= x < 0x1_0000

  /** A JavaScript string. */
  type JsString = seq<Unit>

  const PercentSign: Unit := 0x25

  /** A Dafny string whose characters all fit in one code unit, as a JavaScript string. */
  function Units(s: string): (r: JsString)
    requires forall i :: 0 <= i < |s| ==> s[i] as int < 0x1_0000
    ensures |r| == |s| && forall i :: 0 <= i < |s| ==> r[i] == s[i] as int
  {
    seq(|s|, i requires 0 <= i < |s| => s[i] as int)
  }

  /** The characters `encodeURIComponent` leaves alone: ASCII letters and
      digits and `- _ . ! ~ * ' ( )`. */
  predicate IsUnreserved(u: Unit) {
    || (0x41 <= u <= 0x5A) || (0x61 <= u <= 0x7A) || (0x30 <= u <= 0x39)
    || u == 0x2D || u == 0x5F || u == 0x2E || u == 0x21 || u == 0x7E
    || u == 0x2A || u == 0x27 || u == 0x28 || u == 0x29
  }

  predicate IsLead(u: Unit) { 0xD800 <= u <= 0xDBFF }
  predicate IsTrail(u: Unit) { 0xDC00 <= u <= 0xDFFF }
  predicate IsSurrogate(u: Unit) { 0xD800 <= u <= 0xDFFF }

  /** A code point that UTF-8 and UTF-16 can both carry. */
  predicate IsScalar(cp: int) {
    0 <= cp <= 0x10_FFFF && !(0xD800 <= cp <= 0xDFFF)
  }

  /** Position `k` is not half of a broken surrogate pair. */
  predicate PairedAt(s: JsString, k: int)
    requires 0 <= k < |s|
  {
    && (IsLead(s[k]) ==> k + 1 < |s| && IsTrail(s[k + 1]))
    && (IsTrail(s[k]) ==> k > 0 && IsLead(s[k - 1]))
  }

  /** A string without lone surrogates: the strings `encodeURIComponent` accepts. */
  predicate WellFormed(s: JsString) {
    forall k :: 0 <= k < |s| ==> PairedAt(s, k)
  }

  // ---------------------------------------------------------------------------
  // Code points, UTF-16 and UTF-8
  // ---------------------------------------------------------------------------

  /** UTF16SurrogatePairToCodePoint. */
  function Pair(hi: Unit, lo: Unit): (cp: int)
    requires IsLead(hi) && IsTrail(lo)
    ensures IsScalar(cp) && cp >= 0x1_0000
  {
    (hi - 0xD800) * 0x400 + (lo - 0xDC00) + 0x1_0000
  }

  /** UTF16EncodeCodePoint. */
  function Utf16(cp: int): (r: JsString)
    requires IsScalar(cp)
    ensures cp < 0x1_0000 ==> r == [cp]
    ensures cp >= 0x1_0000 ==> |r| == 2 && IsLead(r[0]) && IsTrail(r[1])
  {
    if cp < 0x1_0000 then [cp]
    else [0xD800 + (cp - 0x1_0000) / 0x400, 0xDC00 + (cp - 0x1_0000) % 0x400]
  }

  /** A surrogate pair is the UTF-16 encoding of the code point it stands for. */
  lemma Utf16OfPair(hi: Unit, lo: Unit)
    requires IsLead(hi) && IsTrail(lo)
    ensures Utf16(Pair(hi, lo)) == [hi, lo]
  {
    var v := (hi - 0xD800) * 0x400 + (lo - 0xDC00);
    assert Pair(hi, lo) - 0x1_0000 == v;
    ModUnique(v, 0x400, hi - 0xD800, lo - 0xDC00);
  }

  predicate IsByte(b: int) { 0 <= b < 0x100 }

  predicate IsContinuation(b: int) { 0x80 <= b <= 0xBF }

  /** The UTF-8 octets of a code point (the UTF-8 transformation that Encode applies in section 19.2.6.5 of ECMA-262), shortest form. */
  function Utf8(cp: int): (bs: seq<int>)
    requires IsScalar(cp)
    ensures 1 <= |bs| <= 4
    ensures forall i :: 0 <= i < |bs| ==> IsByte(bs[i])
    ensures |bs| == 1 <==> cp < 0x80
    ensures |bs| == 1 ==> bs[0] == cp
    ensures forall i :: 1 <= i < |bs| ==> IsContinuation(bs[i])
  {
    if cp < 0x80 then [cp]
    else if cp < 0x800 then [0xC0 + cp / 64, 0x80 + cp % 64]
    else if cp < 0x1_0000 then [0xE0 + cp / 4096, 0x80 + (cp / 64) % 64, 0x80 + cp % 64]
    else [0xF0 + cp / 262144, 0x80 + (cp / 4096) % 64, 0x80 + (cp / 64) % 64, 0x80 + cp % 64]
  }

  /** The number of leading one bits of a byte: 0 for ASCII, 1 for a
      continuation byte, 2 to 4 for the first byte of a longer sequence. */
  function LeadingOnes(b: int): (n: nat)
    requires IsByte(b)
    ensures n <= 8
    ensures n == 0 <==> b < 0x80
    ensures n == 1 <==> IsContinuation(b)
  {
    if b < 0x80 then 0
    else if b < 0xC0 then 1
    else if b < 0xE0 then 2
    else if b < 0xF0 then 3
    else if b < 0xF8 then 4
    else if b < 0xFC then 5
    else if b < 0xFE then 6
    else if b < 0xFF then 7
    else 8
  }

  /** The code point a multi-octet sequence encodes, or None when the octets
      are not the shortest encoding of a scalar value. */
  function DecodeUtf8(bs: seq<int>): (r: Option<int>)
    requires 2 <= |bs| <= 4 && forall i :: 0 <= i < |bs| ==> IsByte(bs[i])
    requires LeadingOnes(bs[0]) == |bs|
    ensures r.Some? ==> IsScalar(r.value)
  {
    if exists i :: 1 <= i < |bs| && !IsContinuation(bs[i]) then None
    else if |bs| == 2 then
      var cp := (bs[0] - 0xC0) * 64 + (bs[1] - 0x80);
      if cp >= 0x80 then Some(cp) else None
    else if |bs| == 3 then
      var cp := (bs[0] - 0xE0) * 4096 + (bs[1] - 0x80) * 64 + (bs[2] - 0x80);
      if cp >= 0x800 && !(0xD800 <= cp <= 0xDFFF) then Some(cp) else None
    else
      var cp := (bs[0] - 0xF0) * 262144 + (bs[1] - 0x80) * 4096 + (bs[2] - 0x80) * 64 + (bs[3] - 0x80);
      if 0x1_0000 <= cp <= 0x10_FFFF then Some(cp) else None
  }

  /** A multi-octet encoding starts with a byte announcing its length and decodes back. */
  lemma DecodeUtf8OfUtf8(cp: int)
    requires IsScalar(cp) && cp >= 0x80
    ensures LeadingOnes(Utf8(cp)[0]) == |Utf8(cp)|
    ensures DecodeUtf8(Utf8(cp)) == Some(cp)
  {
    if cp < 0x800 {
      ModUnique(cp, 64, cp / 64, cp % 64);
    } else if cp < 0x1_0000 {
      Split3(cp);
    } else {
      Split4(cp);
    }
  }

  lemma Split3(cp: int)
    requires 0x800 <= cp < 0x1_0000
    ensures 0xE0 <= 0xE0 + cp / 4096 < 0xF0
    ensures (cp / 4096) * 4096 + ((cp / 64) % 64) * 64 + cp % 64 == cp
  {
    var a := cp / 64;
    assert cp == a * 64 + cp % 64;
    assert a == (a / 64) * 64 + a % 64;
    assert a / 64 == cp / 4096;
  }

  lemma Split4(cp: int)
    requires 0x1_0000 <= cp <= 0x10_FFFF
    ensures 0xF0 <= 0xF0 + cp / 262144 < 0xF8
    ensures (cp / 262144) * 262144 + ((cp / 4096) % 64) * 4096 + ((cp / 64) % 64) * 64 + cp % 64 == cp
  {
    var a := cp / 64;
    var b := a / 64;
    assert cp == a * 64 + cp % 64;
    assert a == b * 64 + a % 64;
    assert b == (b / 64) * 64 + b % 64;
    assert b == cp / 4096;
    assert b / 64 == cp / 262144;
  }

  // ---------------------------------------------------------------------------
  // Percent escapes
  // ---------------------------------------------------------------------------

  /** An upper-case hexadecimal digit. */
  function HexDigit(v: int): (u: Unit)
    requires 0 <= v < 16
    ensures (0x30 <= u <= 0x39) || (0x41 <= u <= 0x46)
  {
    if v < 10 then 0x30 + v else 0x41 + v - 10
  }

  /** The value of a hexadecimal digit of either case. */
  function HexValue(u: Unit): (r: Option<int>)
    ensures r.Some? ==> 0 <= r.value < 16
    ensures r.Some? <==> (0x30 <= u <= 0x39) || (0x41 <= u <= 0x46) || (0x61 <= u <= 0x66)
  {
    if 0x30 <= u <= 0x39 then Some(u - 0x30)
    else if 0x41 <= u <= 0x46 then Some(u - 0x37)
    else if 0x61 <= u <= 0x66 then Some(u - 0x57)
    else None
  }

  lemma HexValueOfDigit(v: int)
    requires 0 <= v < 16
    ensures HexValue(HexDigit(v)) == Some(v)
  {
  }

  /** `%XX` for one octet. */
  function Escape(b: int): (r: JsString)
    requires IsByte(b)
    ensures |r| == 3 && r[0] == PercentSign
  {
    [PercentSign, HexDigit(b / 16), HexDigit(b % 16)]
  }

  function Escapes(bs: seq<int>): (r: JsString)
    requires forall i :: 0 <= i < |bs| ==> IsByte(bs[i])
    ensures |r| == 3 * |bs|
    decreases |bs|
  {
    if |bs| == 0 then [] else Escape(bs[0]) + Escapes(bs[1..])
  }

  /** The octet the three units at the front of `t` spell as `%XX`. */
  function ReadByte(t: JsString): (r: Option<int>)
    ensures r.Some? ==> IsByte(r.value) && |t| >= 3 && t[0] == PercentSign
  {
    if |t| < 3 || t[0] != PercentSign then None
    else match (HexValue(t[1]), HexValue(t[2]))
      case (Some(h), Some(l)) => Some(h * 16 + l)
      case _ => None
  }

  /** `n` escapes in a row. */
  function ReadBytes(t: JsString, n: nat): (r: Option<seq<int>>)
    requires |t| >= 3 * n
    ensures r.Some? ==> |r.value| == n && forall i :: 0 <= i < n ==> IsByte(r.value[i])
    decreases n
  {
    if n == 0 then Some([])
    else match ReadByte(t)
      case None => None
      case Some(b) =>
        match ReadBytes(t[3..], n - 1)
        case None => None
        case Some(bs) => Some([b] + bs)
  }

  lemma ReadByteOfEscape(b: int, rest: JsString)
    requires IsByte(b)
    ensures ReadByte(Escape(b) + rest) == Some(b)
  {
    HexValueOfDigit(b / 16);
    HexValueOfDigit(b % 16);
  }

  lemma {:induction false} ReadBytesOfEscapes(bs: seq<int>, rest: JsString)
    requires forall i :: 0 <= i < |bs| ==> IsByte(bs[i])
    ensures ReadBytes(Escapes(bs) + rest, |bs|) == Some(bs)
    decreases |bs|
  {
    if |bs| > 0 {
      var t := Escapes(bs) + rest;
      assert t == Escape(bs[0]) + (Escapes(bs[1..]) + rest);
      ReadByteOfEscape(bs[0], Escapes(bs[1..]) + rest);
      assert t[3..] == Escapes(bs[1..]) + rest;
      ReadBytesOfEscapes(bs[1..], rest);
      assert [bs[0]] + bs[1..] == bs;
    }
  }

  // ---------------------------------------------------------------------------
  // encodeURIComponent and decodeURIComponent
  // ---------------------------------------------------------------------------

  function Prepend(x: JsString, o: Option<JsString>): (r: Option<JsString>)
    ensures r.Some? <==> o.Some?
    ensures r.Some? ==> r.value == x + o.value
  {
    match o
    case None => None
    case Some(v) => Some(x + v)
  }

  /** A unit `encodeURIComponent` may produce: an unreserved character, the
      percent sign, or an upper-case hexadecimal digit. */
  predicate IsEncodedUnit(u: Unit) {
    IsUnreserved(u) || u == PercentSign
  }

  /** `encodeURIComponent`: unreserved characters are copied, every other code
      point, a surrogate pair counting as one, becomes the escapes of its UTF-8
      octets; a lone surrogate raises URIError. */
  function Encode(s: JsString): (r: Option<JsString>)
    ensures r.Some? ==> forall i :: 0 <= i < |r.value| ==> IsEncodedUnit(r.value[i])
    decreases |s|
  {
    if |s| == 0 then Some([])
    else if IsUnreserved(s[0]) then Prepend([s[0]], Encode(s[1..]))
    else if IsLead(s[0]) && |s| > 1 && IsTrail(s[1]) then
      EscapesEncoded(Utf8(Pair(s[0], s[1])));
      Prepend(Escapes(Utf8(Pair(s[0], s[1]))), Encode(s[2..]))
    else if IsSurrogate(s[0]) then None
    else
      EscapesEncoded(Utf8(s[0]));
      Prepend(Escapes(Utf8(s[0])), Encode(s[1..]))
  }

  lemma {:induction false} EscapesEncoded(bs: seq<int>)
    requires forall i :: 0 <= i < |bs| ==> IsByte(bs[i])
    ensures forall i :: 0 <= i < |Escapes(bs)| ==> IsEncodedUnit(Escapes(bs)[i])
    decreases |bs|
  {
    if |bs| > 0 {
      EscapesEncoded(bs[1..]);
    }
  }

  /** `decodeURIComponent`: units other than `%` are copied; an escape below
      0x80 is that character; a longer escape sequence must be the shortest
      UTF-8 encoding of a scalar value, whose UTF-16 form is produced. Anything
      else raises URIError. */
  function Decode(t: JsString): (r: Option<JsString>)
    decreases |t|
  {
    if |t| == 0 then Some([])
    else if t[0] != PercentSign then Prepend([t[0]], Decode(t[1..]))
    else
      match ReadByte(t)
      case None => None
      case Some(b) =>
        if b < 0x80 then Prepend([b], Decode(t[3..]))
        else
          var n := LeadingOnes(b);
          if n < 2 || n > 4 || |t| < 3 * n then None
          else
            match ReadBytes(t, n)
            case None => None
            case Some(bs) =>
              match DecodeUtf8(bs)
              case None => None
              case Some(cp) => Prepend(Utf16(cp), Decode(t[3 * n..]))
  }

  /** The escapes of one code point decode to its UTF-16 form. */
  lemma DecodeEscapedPoint(cp: int, rest: JsString)
    requires IsScalar(cp)
    ensures Decode(Escapes(Utf8(cp)) + rest) == Prepend(Utf16(cp), Decode(rest))
  {
    EscapesRead(Utf8(cp), rest);
    if cp >= 0x80 {
      DecodeEscapedMultiByte(cp, rest);
    }
  }

  /** Escaped octets read back as those octets, followed by the rest. */
  lemma EscapesRead(bs: seq<int>, rest: JsString)
    requires |bs| > 0 && forall i :: 0 <= i < |bs| ==> IsByte(bs[i])
    ensures ReadByte(Escapes(bs) + rest) == Some(bs[0])
    ensures ReadBytes(Escapes(bs) + rest, |bs|) == Some(bs)
    ensures (Escapes(bs) + rest)[3 * |bs|..] == rest
  {
    var t := Escapes(bs) + rest;
    ReadBytesOfEscapes(bs, rest);
    assert t == Escape(bs[0]) + (Escapes(bs[1..]) + rest);
    ReadByteOfEscape(bs[0], Escapes(bs[1..]) + rest);
  }

  lemma DecodeEscapedMultiByte(cp: int, rest: JsString)
    requires IsScalar(cp) && cp >= 0x80
    requires ReadByte(Escapes(Utf8(cp)) + rest) == Some(Utf8(cp)[0])
    requires ReadBytes(Escapes(Utf8(cp)) + rest, |Utf8(cp)|) == Some(Utf8(cp))
    requires (Escapes(Utf8(cp)) + rest)[3 * |Utf8(cp)|..] == rest
    ensures Decode(Escapes(Utf8(cp)) + rest) == Prepend(Utf16(cp), Decode(rest))
  {
    DecodeUtf8OfUtf8(cp);
  }

  /** `decodeURIComponent(encodeURIComponent(s)) == s` for every string the
      encoder accepts. */
  lemma {:induction false} DecodeEncode(s: JsString)
    requires Encode(s).Some?
    ensures Decode(Encode(s).value) == Some(s)
    decreases |s|
  {
    if |s| > 0 {
      if IsUnreserved(s[0]) {
        DecodeEncode(s[1..]);
        DecodeEncodeCopied(s);
      } else if IsLead(s[0]) && |s| > 1 && IsTrail(s[1]) {
        DecodeEncode(s[2..]);
        DecodeEncodePair(s);
      } else {
        DecodeEncode(s[1..]);
        DecodeEncodeSingle(s);
      }
    }
  }

  /** The step of the round trip for an unreserved first unit. */
  lemma DecodeEncodeCopied(s: JsString)
    requires |s| > 0 && IsUnreserved(s[0])
    requires Encode(s[1..]).Some? && Decode(Encode(s[1..]).value) == Some(s[1..])
    ensures Encode(s).Some? && Decode(Encode(s).value) == Some(s)
  {
    var t := [s[0]] + Encode(s[1..]).value;
    assert Encode(s) == Some(t);
    assert t[1..] == Encode(s[1..]).value;
    assert [s[0]] + s[1..] == s;
  }

  /** The step of the round trip for a surrogate pair at the front. */
  lemma DecodeEncodePair(s: JsString)
    requires |s| > 1 && IsLead(s[0]) && IsTrail(s[1])
    requires Encode(s[2..]).Some? && Decode(Encode(s[2..]).value) == Some(s[2..])
    ensures Encode(s).Some? && Decode(Encode(s).value) == Some(s)
  {
    var cp := Pair(s[0], s[1]);
    assert !IsUnreserved(s[0]);
    assert Encode(s) == Some(Escapes(Utf8(cp)) + Encode(s[2..]).value);
    DecodeEscapedPoint(cp, Encode(s[2..]).value);
    Utf16OfPair(s[0], s[1]);
    assert [s[0], s[1]] + s[2..] == s;
  }

  /** The step of the round trip for a reserved unit outside the surrogate range. */
  lemma DecodeEncodeSingle(s: JsString)
    requires |s| > 0 && !IsUnreserved(s[0]) && !IsSurrogate(s[0])
    requires Encode(s[1..]).Some? && Decode(Encode(s[1..]).value) == Some(s[1..])
    ensures Encode(s).Some? && Decode(Encode(s).value) == Some(s)
  {
    assert Encode(s) == Some(Escapes(Utf8(s[0])) + Encode(s[1..]).value);
    DecodeEscapedPoint(s[0], Encode(s[1..]).value);
    assert [s[0]] + s[1..] == s;
  }

  /** The encoder fails exactly on strings with a lone surrogate. */
  lemma {:induction false} EncodeDefinedIff(s: JsString)
    ensures Encode(s).Some? <==> WellFormed(s)
    decreases |s|
  {
    if |s| > 0 {
      if IsLead(s[0]) && |s| > 1 && IsTrail(s[1]) {
        EncodeDefinedIff(s[2..]);
        WellFormedAfterPair(s);
      } else if IsSurrogate(s[0]) {
        assert !PairedAt(s, 0);
      } else {
        EncodeDefinedIff(s[1..]);
        WellFormedAfterPlain(s);
      }
    }
  }

  lemma WellFormedAfterPlain(s: JsString)
    requires |s| > 0 && !IsSurrogate(s[0])
    ensures WellFormed(s) <==> WellFormed(s[1..])
  {
    var t := s[1..];
    if WellFormed(s) {
      forall k | 0 <= k < |t|
        ensures PairedAt(t, k)
      {
        assert PairedAt(s, k + 1);
      }
    }
    if WellFormed(t) {
      forall k | 0 <= k < |s|
        ensures PairedAt(s, k)
      {
        if k > 0 {
          assert PairedAt(t, k - 1);
        }
      }
    }
  }

  lemma WellFormedAfterPair(s: JsString)
    requires |s| > 1 && IsLead(s[0]) && IsTrail(s[1])
    ensures WellFormed(s) <==> WellFormed(s[2..])
  {
    var t := s[2..];
    if WellFormed(s) {
      forall k | 0 <= k < |t|
        ensures PairedAt(t, k)
      {
        assert PairedAt(s, k + 2);
      }
    }
    if WellFormed(t) {
      forall k | 0 <= k < |s|
        ensures PairedAt(s, k)
      {
        if k > 1 {
          assert PairedAt(t, k - 2);
        }
      }
    }
  }

  /** Examples: a space ("%20") and a line feed ("%0A") are escaped, "a-b" is
      copied, and a lone lead surrogate is refused. */
  lemma EncodeExamples()
    ensures var sp: JsString := [0x20]; var esc: JsString := [0x25, 0x32, 0x30]; Encode(sp) == Some(esc)
    ensures var lf: JsString := [0x0A]; var esc: JsString := [0x25, 0x30, 0x41]; Encode(lf) == Some(esc)
    ensures var ab: JsString := [0x61, 0x2D, 0x62]; Encode(ab) == Some(ab)
    ensures var lone: JsString := [0xD800]; Encode(lone).None?
  {
    var sp: JsString := [0x20];
    var esc: JsString := [0x25, 0x32, 0x30];
    assert sp[1..] == [];
    assert Utf8(0x20) == [0x20];
    assert Escapes([0x20]) == Escape(0x20) + Escapes([]) == esc;
    assert Encode(sp) == Prepend(Escapes(Utf8(0x20)), Encode([]));
    assert Encode(sp) == Some(esc + []);
    assert esc + [] == esc;
    var lf: JsString := [0x0A];
    var esc2: JsString := [0x25, 0x30, 0x41];
    assert lf[1..] == [];
    assert Utf8(0x0A) == [0x0A];
    assert Escapes([0x0A]) == Escape(0x0A) + Escapes([]) == esc2;
    assert Encode(lf) == Prepend(Escapes(Utf8(0x0A)), Encode([]));
    assert Encode(lf) == Some(esc2 + []);
    assert esc2 + [] == esc2;
    var ab: JsString := [0x61, 0x2D, 0x62];
    var b: JsString := [0x62];
    var mb: JsString := [0x2D, 0x62];
    assert ab[1..] == mb && mb[1..] == b && b[1..] == [];
    assert Encode(b) == Prepend([0x62], Some([]));
    assert [0x62] + [] == b;
    assert Encode(mb) == Prepend([0x2D], Encode(b));
    assert [0x2D] + b == mb;
    assert Encode(ab) == Prepend([0x61], Encode(mb));
    assert [0x61] + mb == ab;
  }
}
