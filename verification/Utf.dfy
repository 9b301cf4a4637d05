/**
 * UTF-8 (section 3 of RFC 3629) and UTF-16, as the runtime's `TextEncoder`,
 * `TextDecoder` and `Buffer` use them (sections 8.1, 8.3 and 4.4 of the WHATWG
 * Encoding Standard). A Dafny `string` is a sequence of Unicode scalar values, that
 * is, a well-formed text; a JavaScript string, which may hold lone surrogates, is a
 * sequence of UTF-16 code units.
 */
module Utf {
  type Byte = b: int | 0 <= b < 0x100
  type CodeUnit = u: int | 0 <= u < 0x1_0000

  const REPLACEMENT: char := 0xFFFD as char

  // ---------------------------------------------------------------------
  // UTF-8
  // ---------------------------------------------------------------------

  function EncodeChar(c: char): (r: seq<Byte>)
    ensures 1 <= |r| <= 4
    ensures c as int < 0x80 ==> r == [c as int]
  {
    var v := c as int;
    if v < 0x80 then [v]
    else if v < 0x800 then [0xC0 + v / 0x40, 0x80 + v % 0x40]
    else if v < 0x1_0000 then [0xE0 + v / 0x1000, 0x80 + v / 0x40 % 0x40, 0x80 + v % 0x40]
    else [0xF0 + v / 0x4_0000, 0x80 + v / 0x1000 % 0x40, 0x80 + v / 0x40 % 0x40, 0x80 + v % 0x40]
  }

  function Encode(s: string): seq<Byte> {
    if s == [] then [] else EncodeChar(s[0]) + Encode(s[1..])
  }

  /** How many continuation bytes a lead byte announces; none for a byte that cannot lead. */
  function Needed(lead: Byte): nat {
    if 0xC2 <= lead <= 0xDF then 1
    else if 0xE0 <= lead <= 0xEF then 2
    else if 0xF0 <= lead <= 0xF4 then 3
    else 0
  }

  /** The second byte's range is narrowed after four lead bytes: no overlong form, no surrogate, nothing above U+10FFFF. */
  predicate FitsSecond(lead: Byte, second: Byte) {
    && (if lead == 0xE0 then 0xA0 else if lead == 0xF0 then 0x90 else 0x80) <= second
    && second <= (if lead == 0xED then 0x9F else if lead == 0xF4 then 0x8F else 0xBF)
  }

  predicate IsContinuation(b: Byte) {
    0x80 <= b <= 0xBF
  }

  /** Shifts in six more bits of a code point. */
  function More(bits: int, marker: int, continuation: int): int {
    (bits - marker) * 0x40 + (continuation - 0x80)
  }

  /** The next scalar value, and how many bytes it took. */
  datatype Decoded = Decoded(c: char, used: nat)

  /**
   * Decodes the front of a byte sequence. A malformed sequence becomes one U+FFFD
   * that covers the bytes accepted so far; the byte that did not fit is read again.
   */
  function DecodeOne(b: seq<Byte>): (r: Decoded)
    requires b != []
    ensures 1 <= r.used <= |b|
    ensures b[0] < 0x80 ==> r == Decoded(b[0] as char, 1)
    ensures b[0] >= 0x80 ==> r.c as int >= 0x80 && forall i :: 0 <= i < r.used ==> b[i] >= 0x80
  {
    if b[0] < 0x80 then Decoded(b[0] as char, 1)
    else if Needed(b[0]) == 0 || |b| < 2 || !FitsSecond(b[0], b[1]) then Decoded(REPLACEMENT, 1)
    else if Needed(b[0]) == 1 then
      Decoded(More(b[0], 0xC0, b[1]) as char, 2)
    else if |b| < 3 || !IsContinuation(b[2]) then Decoded(REPLACEMENT, 2)
    else if Needed(b[0]) == 2 then
      Decoded(More(More(b[0], 0xE0, b[1]), 0, b[2]) as char, 3)
    else if |b| < 4 || !IsContinuation(b[3]) then Decoded(REPLACEMENT, 3)
    else Decoded(More(More(More(b[0], 0xF0, b[1]), 0, b[2]), 0, b[3]) as char, 4)
  }

  /** `Buffer.toString('utf8')`: total, with U+FFFD for what is malformed. */
  function Decode(b: seq<Byte>): string {
    if b == [] then [] else var d := DecodeOne(b); [d.c] + Decode(b[d.used..])
  }

  lemma DecodeOneInvertsEncodeChar(c: char, rest: seq<Byte>)
    ensures DecodeOne(EncodeChar(c) + rest) == Decoded(c, |EncodeChar(c)|)
  {
    var v, e := c as int, EncodeChar(c);
    var b := e + rest;
    assert b[..|e|] == e;
    assert forall i :: 0 <= i < |e| ==> b[i] == e[i];
    if 0x80 <= v < 0x800 {
      assert More(e[0], 0xC0, e[1]) == v;
    } else if 0x800 <= v < 0x1_0000 {
      assert v / 0x40 == v / 0x1000 * 0x40 + v / 0x40 % 0x40;
      assert More(e[0], 0xE0, e[1]) == v / 0x40;
      assert More(v / 0x40, 0, e[2]) == v;
    } else if 0x1_0000 <= v {
      assert v / 0x1000 == v / 0x4_0000 * 0x40 + v / 0x1000 % 0x40;
      assert v / 0x40 == v / 0x1000 * 0x40 + v / 0x40 % 0x40;
      assert More(e[0], 0xF0, e[1]) == v / 0x1000;
      assert More(v / 0x1000, 0, e[2]) == v / 0x40;
      assert More(v / 0x40, 0, e[3]) == v;
    }
  }

  /** Decoding undoes encoding, so UTF-8 encoding is injective on well-formed texts. */
  lemma {:induction false} DecodeEncode(s: string)
    ensures Decode(Encode(s)) == s
  {
    if s != [] {
      DecodeOneInvertsEncodeChar(s[0], Encode(s[1..]));
      assert Encode(s)[|EncodeChar(s[0])|..] == Encode(s[1..]);
      DecodeEncode(s[1..]);
    }
  }

  lemma {:induction false} EncodeConcat(s: string, t: string)
    ensures Encode(s + t) == Encode(s) + Encode(t)
  {
    if s == [] {
      assert s + t == t;
    } else {
      var x, y, z := EncodeChar(s[0]), Encode(s[1..]), Encode(t);
      assert (s + t)[1..] == s[1..] + t;
      assert Encode(s + t) == x + (y + z) by {
        EncodeConcat(s[1..], t);
      }
      assert x + (y + z) == (x + y) + z;
    }
  }

  // ---------------------------------------------------------------------
  // UTF-16
  // ---------------------------------------------------------------------

  predicate IsHigh(u: CodeUnit) {
    0xD800 <= u <= 0xDBFF
  }

  predicate IsLow(u: CodeUnit) {
    0xDC00 <= u <= 0xDFFF
  }

  function UnitsOf(c: char): (r: seq<CodeUnit>)
    ensures 1 <= |r| <= 2
  {
    var v := c as int;
    if v < 0x1_0000 then [v]
    else [0xD800 + (v - 0x1_0000) / 0x400, 0xDC00 + (v - 0x1_0000) % 0x400]
  }

  /** A well-formed text as the JavaScript string that holds it. */
  function Units(s: string): seq<CodeUnit> {
    if s == [] then [] else UnitsOf(s[0]) + Units(s[1..])
  }

  function FromPair(high: int, low: int): char
    requires 0xD800 <= high <= 0xDBFF && 0xDC00 <= low <= 0xDFFF
  {
    (0x1_0000 + (high - 0xD800) * 0x400 + (low - 0xDC00)) as char
  }

  /** The next scalar value of a JavaScript string; a lone surrogate reads as U+FFFD. */
  function ScalarAt(u: seq<CodeUnit>): (r: Decoded)
    requires u != []
    ensures 1 <= r.used <= |u| && r.used <= 2
    ensures |UnitsOf(r.c)| == r.used
  {
    if IsHigh(u[0]) && |u| >= 2 && IsLow(u[1]) then
      Decoded(FromPair(u[0], u[1]), 2)
    else if IsHigh(u[0]) || IsLow(u[0]) then Decoded(REPLACEMENT, 1)
    else Decoded(u[0] as char, 1)
  }

  /** The conversion every encoder applies first: lone surrogates become U+FFFD. */
  function Scalars(u: seq<CodeUnit>): string {
    if u == [] then [] else var d := ScalarAt(u); [d.c] + Scalars(u[d.used..])
  }

  /** The UTF-8 form of a JavaScript string: `TextEncoder.encode`, `Buffer.from`. */
  function Utf8Bytes(u: seq<CodeUnit>): seq<Byte> {
    Encode(Scalars(u))
  }

  /** A high surrogate without its low one, or the other way round. */
  predicate LoneAt(u: seq<CodeUnit>, i: nat)
    requires i < |u|
  {
    || (IsHigh(u[i]) && (i + 1 == |u| || !IsLow(u[i + 1])))
    || (IsLow(u[i]) && (i == 0 || !IsHigh(u[i - 1])))
  }

  ghost predicate WellFormedUtf16(u: seq<CodeUnit>) {
    forall i :: 0 <= i < |u| ==> !LoneAt(u, i)
  }

  /** Well-formedness, one scalar value at a time. */
  lemma WellFormedFront(u: seq<CodeUnit>)
    requires u != []
    ensures var d := ScalarAt(u);
            WellFormedUtf16(u) <==> UnitsOf(d.c) == u[..d.used] && WellFormedUtf16(u[d.used..])
  {
    var d := ScalarAt(u);
    var t := u[d.used..];
    if WellFormedUtf16(u) {
      assert !LoneAt(u, 0);
      forall i | 0 <= i < |t|
        ensures !LoneAt(t, i)
      {
        assert !LoneAt(u, i + d.used);
      }
    }
    if UnitsOf(d.c) == u[..d.used] && WellFormedUtf16(t) {
      assert u[0] == u[..d.used][0];
      forall i | 0 <= i < |u|
        ensures !LoneAt(u, i)
      {
        if i >= d.used {
          assert !LoneAt(t, i - d.used);
        }
      }
    }
  }

  lemma {:induction false} ScalarsUnits(s: string)
    ensures Scalars(Units(s)) == s
  {
    if s != [] {
      var u := Units(s);
      assert u == UnitsOf(s[0]) + Units(s[1..]);
      assert ScalarAt(u) == Decoded(s[0], |UnitsOf(s[0])|);
      assert u[|UnitsOf(s[0])|..] == Units(s[1..]);
      ScalarsUnits(s[1..]);
    }
  }

  lemma {:induction false} UnitsAreWellFormed(s: string)
    ensures WellFormedUtf16(Units(s))
  {
    if s != [] {
      var u, k := Units(s), |UnitsOf(s[0])|;
      assert ScalarAt(u) == Decoded(s[0], k);
      assert u[..k] == UnitsOf(s[0]);
      assert u[k..] == Units(s[1..]);
      UnitsAreWellFormed(s[1..]);
      WellFormedFront(u);
    }
  }

  /** Reading and writing back changes nothing exactly on well-formed strings, and never changes the length. */
  lemma {:induction false} UnitsScalars(u: seq<CodeUnit>)
    ensures |Units(Scalars(u))| == |u|
    ensures Units(Scalars(u)) == u <==> WellFormedUtf16(u)
  {
    if u != [] {
      var d := ScalarAt(u);
      var t := u[d.used..];
      UnitsScalars(t);
      WellFormedFront(u);
      var r := Units(Scalars(u));
      assert r == UnitsOf(d.c) + Units(Scalars(t));
      assert r[..d.used] == UnitsOf(d.c) && r[d.used..] == Units(Scalars(t));
      assert u == u[..d.used] + t;
    }
  }

  /** A character cut short reads as one U+FFFD, whatever ASCII character follows, or none. */
  lemma CutCharacter(c: char, n: nat, rest: seq<Byte>)
    requires 0 < n < |EncodeChar(c)| && (rest == [] || rest[0] < 0x80)
    ensures DecodeOne(EncodeChar(c)[..n] + rest) == Decoded(0xFFFD as char, n)
  {
    var b := EncodeChar(c)[..n] + rest;
    assert forall i :: 0 <= i < n ==> b[i] == EncodeChar(c)[i];
    assert rest != [] ==> b[n] == rest[0];
  }

  /** A byte that cannot begin a character reads as one U+FFFD by itself. */
  lemma StrayByte(x: Byte, rest: seq<Byte>)
    requires 0x80 <= x < 0xC2 || 0xF4 < x
    ensures DecodeOne([x] + rest) == Decoded(0xFFFD as char, 1)
  {
  }

  /** Characters of one to four bytes, as section 7 of RFC 3629 and the tables of Unicode give them. */
  lemma EncodingExamples()
    ensures EncodeChar('A') == [0x41] && EncodeChar(0x391 as char) == [0xCE, 0x91]
    ensures EncodeChar(0x2262 as char) == [0xE2, 0x89, 0xA2] && EncodeChar(0x233B4 as char) == [0xF0, 0xA3, 0x8E, 0xB4]
    ensures UnitsOf(0x233B4 as char) == [0xD84C, 0xDFB4]
    ensures Decode([0x80]) == [0xFFFD as char]
  {
    assert [0x80][1..] == [];
  }
}
