/**
 * Base64 across the wire: the server encodes with the standard alphabet and padding
 * (section 4 of RFC 4648); the browser decodes with `atob`, the forgiving decoder of
 * the WHATWG Infra Standard, and copies the binary string into a byte array.
 */
module Base64 {
  import opened Wrappers
  import opened Utf

  type Sextet = n: int | 0 <= n < 64

  /** `A`-`Z`, `a`-`z`, `0`-`9`, `+`, `/`. */
  function Symbol(n: Sextet): char {
    if n < 26 then (n + 65) as char
    else if n < 52 then (n + 71) as char
    else if n < 62 then (n - 4) as char
    else if n == 62 then '+'
    else '/'
  }

  function Value(c: char): Option<Sextet> {
    if 'A' <= c <= 'Z' then Some(c as int - 65)
    else if 'a' <= c <= 'z' then Some(c as int - 71)
    else if '0' <= c <= '9' then Some(c as int + 4)
    else if c == '+' then Some(62)
    else if c == '/' then Some(63)
    else None
  }

  /** Three bytes as four sextets; a last group of one or two bytes as two or three, zero bits filling up. */
  function Sextets(b: seq<Byte>): seq<Sextet> {
    if b == [] then []
    else if |b| == 1 then [b[0] / 4, b[0] % 4 * 16]
    else if |b| == 2 then [b[0] / 4, b[0] % 4 * 16 + b[1] / 16, b[1] % 16 * 4]
    else [b[0] / 4, b[0] % 4 * 16 + b[1] / 16, b[1] % 16 * 4 + b[2] / 64, b[2] % 64] + Sextets(b[3..])
  }

  function Symbols(sextets: seq<Sextet>): string {
    seq(|sextets|, i requires 0 <= i < |sextets| => Symbol(sextets[i]))
  }

  function Padding(n: nat): string {
    if n % 3 == 0 then "" else if n % 3 == 1 then "==" else "="
  }

  function Encode(b: seq<Byte>): string {
    Symbols(Sextets(b)) + Padding(|b|)
  }

  lemma {:induction false} SextetsLength(b: seq<Byte>)
    ensures |Sextets(b)| == |b| / 3 * 4 + (if |b| % 3 == 0 then 0 else |b| % 3 + 1)
  {
    if |b| > 2 {
      SextetsLength(b[3..]);
    }
  }

  /** `ceil(n / 3) * 4` is the exact length of the encoding. */
  lemma EncodedLength(b: seq<Byte>)
    ensures |Encode(b)| == (|b| + 2) / 3 * 4
  {
    SextetsLength(b);
  }

  // ---------------------------------------------------------------------
  // `atob`
  // ---------------------------------------------------------------------

  predicate IsAsciiSpace(c: char) {
    c == ' ' || c == '\t' || c == '\n' || c == '\r' || c as int == 12
  }

  function WithoutSpaces(s: string): string {
    if s == [] then []
    else (if IsAsciiSpace(s[0]) then [] else [s[0]]) + WithoutSpaces(s[1..])
  }

  /** One or two closing `=` are dropped, but only from a length divisible by four. */
  function WithoutPadding(s: string): string {
    if |s| % 4 == 0 && |s| >= 1 && s[|s| - 1] == '=' then
      if s[|s| - 2] == '=' then s[..|s| - 2] else s[..|s| - 1]
    else s
  }

  function First(v0: int, v1: int): Byte
    requires 0 <= v0 < 64 && 0 <= v1 < 64
  {
    v0 * 4 + v1 / 16
  }

  function Second(v1: int, v2: int): Byte
    requires 0 <= v1 < 64 && 0 <= v2 < 64
  {
    v1 % 16 * 16 + v2 / 4
  }

  function Third(v2: int, v3: int): Byte
    requires 0 <= v2 < 64 && 0 <= v3 < 64
  {
    v2 % 4 * 64 + v3
  }

  /** Four sextets give three bytes; a last group of two or three gives one or two, its spare bits dropped. */
  function Octets(v: seq<Sextet>): seq<Byte>
    requires |v| % 4 != 1
  {
    if v == [] then []
    else if |v| == 2 then [First(v[0], v[1])]
    else if |v| == 3 then [First(v[0], v[1]), Second(v[1], v[2])]
    else [First(v[0], v[1]), Second(v[1], v[2]), Third(v[2], v[3])] + Octets(v[4..])
  }

  predicate IsSymbol(c: char) {
    Value(c).Some?
  }

  function DecodeSymbols(s: string): Option<seq<Byte>> {
    if |s| % 4 == 1 || exists i :: 0 <= i < |s| && !IsSymbol(s[i]) then None
    else Some(Octets(seq(|s|, i requires 0 <= i < |s| => Value(s[i]).value)))
  }

  function Decoded(base64: string): Option<seq<Byte>> {
    DecodeSymbols(WithoutPadding(WithoutSpaces(base64)))
  }

  /** The binary string: one character below U+0100 per byte. */
  function Atob(base64: string): Option<string> {
    match Decoded(base64)
    case None => None
    case Some(b) => Some(seq(|b|, i requires 0 <= i < |b| => b[i] as char))
  }

  /** Copies the binary string into a fresh array; fails when `atob` throws. */
  method DecodeBase64(base64: string) returns (bytes: Option<array<Byte>>)
    ensures bytes.Some? <==> Decoded(base64).Some?
    ensures bytes.Some? ==> fresh(bytes.value) && Some(bytes.value[..]) == Decoded(base64)
  {
    var binary := Atob(base64);
    if binary.None? {
      return None;
    }
    ghost var decoded := Decoded(base64).value;
    var a := new Byte[|binary.value|](_ => 0);
    var i := 0;
    while i < |binary.value|
      invariant 0 <= i <= |binary.value| == |decoded| == a.Length
      invariant a[..i] == decoded[..i]
    {
      a[i] := binary.value[i] as int;
      i := i + 1;
    }
    assert a[..] == decoded;
    bytes := Some(a);
  }

  // ---------------------------------------------------------------------
  // The round trip
  // ---------------------------------------------------------------------

  lemma ValueOfSymbol(n: Sextet)
    ensures Value(Symbol(n)) == Some(n)
  {
  }

  lemma {:induction false} NoSpacesToRemove(s: string)
    requires forall c :: c in s ==> !IsAsciiSpace(c)
    ensures WithoutSpaces(s) == s
  {
    if s != [] {
      NoSpacesToRemove(s[1..]);
      assert s == [s[0]] + s[1..];
    }
  }

  lemma RemovesEquals(body: string, padding: string)
    requires body != [] ==> body[|body| - 1] != '='
    requires (|body| + |padding|) % 4 == 0
    requires padding == "" || (body != [] && (padding == "=" || padding == "=="))
    ensures WithoutPadding(body + padding) == body
  {
    var s := body + padding;
    if padding == "" {
      assert s == body;
    } else if padding == "=" {
      assert s[|s| - 2] == body[|body| - 1];
      assert s[..|s| - 1] == body;
    } else {
      assert s[..|s| - 2] == body;
    }
  }

  lemma GroupReadsBack(b0: Byte, b1: Byte, b2: Byte)
    ensures First(b0 / 4, b0 % 4 * 16 + b1 / 16) == b0
    ensures Second(b0 % 4 * 16 + b1 / 16, b1 % 16 * 4 + b2 / 64) == b1
    ensures Third(b1 % 16 * 4 + b2 / 64, b2 % 64) == b2
  {
  }

  lemma {:induction false} OctetsOfSextets(b: seq<Byte>)
    ensures |Sextets(b)| % 4 != 1 && Octets(Sextets(b)) == b
  {
    if |b| > 2 {
      var v, rest := Sextets(b), Sextets(b[3..]);
      OctetsOfSextets(b[3..]);
      assert v[4..] == rest;
      assert Octets(v) == [b[0], b[1], b[2]] + Octets(rest) by {
        GroupReadsBack(b[0], b[1], b[2]);
      }
      assert b == [b[0], b[1], b[2]] + b[3..];
    }
  }

  lemma ValuesOfSymbols(v: seq<Sextet>)
    requires |v| % 4 != 1
    ensures DecodeSymbols(Symbols(v)) == Some(Octets(v))
  {
    var s := Symbols(v);
    forall i | 0 <= i < |s|
      ensures Value(s[i]) == Some(v[i])
    {
      ValueOfSymbol(v[i]);
    }
    assert seq(|s|, i requires 0 <= i < |s| => Value(s[i]).value) == v;
  }

  lemma NothingToSkip(b: seq<Byte>)
    ensures WithoutSpaces(Encode(b)) == Encode(b)
  {
    NoSpacesToRemove(Encode(b));
  }

  lemma PaddingIsRemoved(b: seq<Byte>)
    ensures WithoutPadding(Encode(b)) == Symbols(Sextets(b))
  {
    SextetsLength(b);
    RemovesEquals(Symbols(Sextets(b)), Padding(|b|));
  }

  /** The browser decodes exactly the bytes the server encoded. */
  lemma DecodeEncode(b: seq<Byte>)
    ensures Decoded(Encode(b)) == Some(b)
  {
    NothingToSkip(b);
    PaddingIsRemoved(b);
    OctetsOfSextets(b);
    ValuesOfSymbols(Sextets(b));
  }

  /** Three of the test vectors of section 10 of RFC 4648, which tie the symbols to the alphabet. */
  lemma TestVectors()
    ensures Encode([0x66]) == "Zg==" && Encode([0x66, 0x6F]) == "Zm8=" && Encode([0x66, 0x6F, 0x6F]) == "Zm9v"
  {
    assert [0x66, 0x6F, 0x6F][3..] == [];
    assert Sextets([0x66]) == [25, 32];
    assert Sextets([0x66, 0x6F]) == [25, 38, 60];
    assert Sextets([0x66, 0x6F, 0x6F]) == [25, 38, 61, 47];
    assert Symbols([25, 32]) == "Zg" && Symbols([25, 38, 60]) == "Zm8" && Symbols([25, 38, 61, 47]) == "Zm9v";
  }

  /** Which characters are symbols, and for what: all others make a text undecodable. */
  lemma AlphabetIs(c: char)
    ensures 'A' <= c <= 'Z' ==> Value(c) == Some(c as int - 'A' as int)
    ensures 'a' <= c <= 'z' ==> Value(c) == Some(26 + c as int - 'a' as int)
    ensures '0' <= c <= '9' ==> Value(c) == Some(52 + c as int - '0' as int)
    ensures Value('+') == Some(62) && Value('/') == Some(63)
    ensures Value(c).Some? <==> 'A' <= c <= 'Z' || 'a' <= c <= 'z' || '0' <= c <= '9' || c == '+' || c == '/'
    ensures Value(c).Some? ==> Symbol(Value(c).value) == c
  {
  }

  lemma {:induction false} SpaceIsIgnored(front: string, c: char, back: string)
    requires c == ' ' || c == '\t' || c == '\n' || c == '\r' || c as int == 12
    ensures WithoutSpaces(front + [c] + back) == WithoutSpaces(front + back)
  {
    if front == [] {
      assert front + [c] + back == [c] + back && front + back == back;
      assert ([c] + back)[1..] == back;
      assert WithoutSpaces([c] + back) == [] + WithoutSpaces(back);
    } else {
      SpaceIsIgnored(front[1..], c, back);
      assert front + [c] + back == [front[0]] + (front[1..] + [c] + back);
      assert front + back == [front[0]] + (front[1..] + back);
    }
  }

  /** ASCII white space may stand anywhere in a text, and does not change what it decodes to. */
  lemma SpacesDoNotMatter(front: string, c: char, back: string)
    requires c == ' ' || c == '\t' || c == '\n' || c == '\r' || c as int == 12
    ensures Decoded(front + [c] + back) == Decoded(front + back)
  {
    SpaceIsIgnored(front, c, back);
  }
}
