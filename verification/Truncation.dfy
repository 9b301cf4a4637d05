/**
 * Truncation of a JavaScript string to a UTF-8 byte budget: encode as much as fits
 * into a fixed buffer, then decode the part that was written. The decoder drops a
 * leading byte order mark.
 */
module Truncation {
  import opened Utf
  import opened Sequences

  const BOM: char := 0xFEFF as char
  const MAX_TEXT_UPLOAD_BYTES: nat := 65_536
  /** The server's cap on a text body, in code units. */
  const MAX_CONTENT_LENGTH: nat := 65_536

  /** What `encodeInto` consumes of its source in `space` bytes: code units read, and the scalar values written. */
  datatype Fit = Fit(read: nat, text: string)

  function EncodeInto(u: seq<CodeUnit>, space: nat): (f: Fit)
    ensures f.read <= |u|
    decreases |u|
  {
    if u == [] then Fit(0, [])
    else
      var d := ScalarAt(u);
      if |EncodeChar(d.c)| > space then Fit(0, [])
      else
        var f := EncodeInto(u[d.used..], space - |EncodeChar(d.c)|);
        Fit(d.used + f.read, [d.c] + f.text)
  }

  /** `TextDecoder.decode`: lossy, and without a leading byte order mark. */
  function DecodeText(b: seq<Byte>): string {
    var s := Decode(b);
    if s != [] && s[0] == BOM then s[1..] else s
  }

  function Truncated(input: seq<CodeUnit>, maxBytes: nat): seq<CodeUnit> {
    var f := EncodeInto(input, maxBytes);
    if f.read == |input| then input else Units(DecodeText(Encode(f.text)))
  }

  /** The buffer after writing `bytes` into it at `at`. */
  function Overwrite(s: seq<Byte>, at: nat, bytes: seq<Byte>): seq<Byte>
    requires at + |bytes| <= |s|
  {
    s[..at] + bytes + s[at + |bytes|..]
  }

  /** Fills the buffer with whole UTF-8 sequences until the next one does not fit. */
  method EncodeIntoBuffer(input: seq<CodeUnit>, buffer: array<Byte>) returns (read: nat, written: nat)
    modifies buffer
    ensures read == EncodeInto(input, buffer.Length).read
    ensures written == |Encode(EncodeInto(input, buffer.Length).text)| <= buffer.Length
    ensures buffer[..] == Overwrite(old(buffer[..]), 0, Encode(EncodeInto(input, buffer.Length).text))
  {
    read, written := 0, 0;
    ghost var was := buffer[..];
    ghost var filling := FillingStarts(input, was);
    while read < |input| && Fits(input, read, buffer.Length - written)
      invariant IsFilling(input, was, filling)
      invariant filling.read == read && filling.written == written && filling.buffer == buffer[..]
      decreases |input| - read
    {
      var d := ScalarAt(input[read..]);
      filling := FillingGrows(input, was, filling);
      Write(buffer, written, EncodeChar(d.c));
      read, written := read + d.used, written + |EncodeChar(d.c)|;
    }
    FillingEnds(input, was, filling);
  }

  /** Whether the next scalar value fits the space that is left. */
  predicate Fits(input: seq<CodeUnit>, read: nat, space: int)
    requires read < |input|
  {
    |EncodeChar(ScalarAt(input[read..]).c)| <= space
  }

  /** How far the encoder has come: units read, bytes written, the scalar values they stand for, and the buffer. */
  datatype Filling = Filling(read: nat, written: nat, text: string, buffer: seq<Byte>)

  /** The buffer holds the encoding of the text behind which its old content remains, and the text is what was read. */
  ghost predicate IsFilling(input: seq<CodeUnit>, was: seq<Byte>, f: Filling) {
    && f.read <= |input| && f.written <= |was|
    && f.written == |Encode(f.text)| && f.buffer == Overwrite(was, 0, Encode(f.text))
    && SplitsAt(input, |was|, f.read, f.written, f.text)
  }

  lemma FillingStarts(input: seq<CodeUnit>, was: seq<Byte>) returns (f: Filling)
    ensures IsFilling(input, was, f) && f.read == 0 && f.written == 0 && f.buffer == was
  {
    f := Filling(0, 0, [], was);
    SplitsStart(input, |was|);
  }

  lemma BufferGrows(was: seq<Byte>, text: string, c: char)
    requires |Encode(text)| + |EncodeChar(c)| <= |was|
    ensures |Encode(text + [c])| == |Encode(text)| + |EncodeChar(c)|
    ensures Overwrite(was, 0, Encode(text + [c])) == Overwrite(Overwrite(was, 0, Encode(text)), |Encode(text)|, EncodeChar(c))
  {
    EncodeSnoc(text, c);
    OverwriteTwice(was, Encode(text), EncodeChar(c));
  }

  /** The next scalar value, which fits, is written behind what has been written. */
  lemma FillingGrows(input: seq<CodeUnit>, was: seq<Byte>, f: Filling) returns (f': Filling)
    requires IsFilling(input, was, f) && f.read < |input| && Fits(input, f.read, |was| - f.written)
    ensures IsFilling(input, was, f')
    ensures var d := ScalarAt(input[f.read..]);
            && f'.read == f.read + d.used <= |input| && f'.written == f.written + |EncodeChar(d.c)| <= |f.buffer| == |was|
            && f'.buffer == Overwrite(f.buffer, f.written, EncodeChar(d.c))
  {
    var d := ScalarAt(input[f.read..]);
    var bytes := EncodeChar(d.c);
    var read, written, text := f.read + d.used, f.written + |bytes|, f.text + [d.c];
    SplitsStep(input, |was|, f.read, f.written, f.text, read, written, text);
    BufferGrows(was, f.text, d.c);
    f' := Filling(read, written, text, Overwrite(f.buffer, f.written, bytes));
  }

  /** What the loop leaves when the input is used up or the next scalar value does not fit. */
  lemma FillingEnds(input: seq<CodeUnit>, was: seq<Byte>, f: Filling)
    requires IsFilling(input, was, f)
    requires f.read < |input| ==> !Fits(input, f.read, |was| - f.written)
    ensures var e := EncodeInto(input, |was|);
            e.read == f.read && f.written == |Encode(e.text)| <= |was| && f.buffer == Overwrite(was, 0, Encode(e.text))
  {
    SplitsEnd(input, |was|, f.read, f.written, f.text);
  }

  method Write(buffer: array<Byte>, at: nat, bytes: seq<Byte>)
    requires at + |bytes| <= buffer.Length
    modifies buffer
    ensures buffer[..] == Overwrite(old(buffer[..]), at, bytes)
  {
    forall i | 0 <= i < |bytes| {
      buffer[at + i] := bytes[i];
    }
  }

  lemma OverwriteTwice(s: seq<Byte>, a: seq<Byte>, b: seq<Byte>)
    requires |a| + |b| <= |s|
    ensures Overwrite(Overwrite(s, 0, a), |a|, b) == Overwrite(s, 0, a + b)
  {
  }

  /** The encoding of the whole input is what has been written so far, then the encoding of the rest. */
  ghost predicate SplitsAt(input: seq<CodeUnit>, size: nat, read: nat, written: nat, text: string)
    requires read <= |input| && written <= size
  {
    var all, rest := EncodeInto(input, size), EncodeInto(input[read..], size - written);
    all.read == read + rest.read && all.text == text + rest.text
  }

  lemma SplitsStart(input: seq<CodeUnit>, size: nat)
    ensures SplitsAt(input, size, 0, 0, [])
  {
    assert input[0..] == input;
    var text := EncodeInto(input, size).text;
    assert [] + text == text;
  }

  lemma SplitsStep(input: seq<CodeUnit>, size: nat, read: nat, written: nat, text: string,
                   read': nat, written': nat, text': string)
    requires read < |input| && written <= written' <= size && SplitsAt(input, size, read, written, text)
    requires var d := ScalarAt(input[read..]);
             read' == read + d.used && written' == written + |EncodeChar(d.c)| && text' == text + [d.c]
    ensures read' <= |input| && SplitsAt(input, size, read', written', text')
  {
    var d := ScalarAt(input[read..]);
    var next := EncodeInto(input[read'..], size - written');
    assert EncodeInto(input[read..], size - written) == Fit(d.used + next.read, [d.c] + next.text) by {
      assert input[read..][d.used..] == input[read'..];
    }
    Associate(text, [d.c], next.text);
  }

  lemma SplitsEnd(input: seq<CodeUnit>, size: nat, read: nat, written: nat, text: string)
    requires read <= |input| && written <= size && SplitsAt(input, size, read, written, text)
    requires read < |input| ==> |EncodeChar(ScalarAt(input[read..]).c)| > size - written
    ensures EncodeInto(input, size) == Fit(read, text)
  {
    assert EncodeInto(input[read..], size - written) == Fit(0, []);
    assert text + [] == text;
  }

  /** What is written fits the space. */
  lemma {:induction false} FitsSpace(u: seq<CodeUnit>, space: nat)
    ensures |Encode(EncodeInto(u, space).text)| <= space
    decreases |u|
  {
    if u != [] && |EncodeChar(ScalarAt(u).c)| <= space {
      var d := ScalarAt(u);
      var f := EncodeInto(u[d.used..], space - |EncodeChar(d.c)|);
      FitsSpace(u[d.used..], space - |EncodeChar(d.c)|);
      assert ([d.c] + f.text)[1..] == f.text;
    }
  }

  lemma EncodeSnoc(text: string, c: char)
    ensures Encode(text + [c]) == Encode(text) + EncodeChar(c)
  {
    EncodeConcat(text, [c]);
    assert Encode([c]) == EncodeChar(c) + Encode([]);
  }

  method TruncateToByteLength(input: seq<CodeUnit>, maxBytes: nat) returns (r: seq<CodeUnit>)
    ensures r == Truncated(input, maxBytes)
    ensures |Utf8Bytes(r)| <= maxBytes && |r| <= maxBytes
    ensures r == input <==> |Utf8Bytes(input)| <= maxBytes
  {
    ResultFits(input, maxBytes);
    var buffer := new Byte[maxBytes](_ => 0);
    var read, written := EncodeIntoBuffer(input, buffer);
    if read == |input| {
      return input;
    }
    assert buffer[..written] == Encode(EncodeInto(input, maxBytes).text);
    r := Units(DecodeText(buffer[..written]));
  }

  // ---------------------------------------------------------------------
  // Which prefix it is
  // ---------------------------------------------------------------------

  /** Cutting before unit `p` does not separate the two halves of a surrogate pair. */
  predicate SplitsNoPair(u: seq<CodeUnit>, p: nat)
    requires p <= |u|
  {
    p == 0 || p == |u| || !IsHigh(u[p - 1]) || !IsLow(u[p])
  }

  /** `r` is the longest prefix of `u` that splits no character and fits the budget. */
  ghost predicate IsLongestFittingPrefix(u: seq<CodeUnit>, maxBytes: nat, r: seq<CodeUnit>) {
    && r <= u && SplitsNoPair(u, |r|) && |Utf8Bytes(r)| <= maxBytes
    && forall p :: |r| < p <= |u| && SplitsNoPair(u, p) ==> |Utf8Bytes(u[..p])| > maxBytes
  }

  lemma FrontOfPrefix(u: seq<CodeUnit>, p: nat)
    requires 0 < p <= |u| && SplitsNoPair(u, p)
    ensures var d := ScalarAt(u);
            && d.used <= p && ScalarAt(u[..p]) == d
            && u[..p][d.used..] == u[d.used..][..p - d.used]
            && SplitsNoPair(u[d.used..], p - d.used)
            && Scalars(u[..p]) == [d.c] + Scalars(u[d.used..][..p - d.used])
            && Utf8Bytes(u[..p]) == EncodeChar(d.c) + Utf8Bytes(u[d.used..][..p - d.used])
  {
    var d := ScalarAt(u);
    assert u[..p][d.used..] == u[d.used..][..p - d.used];
    var s := Scalars(u[d.used..][..p - d.used]);
    assert Scalars(u[..p]) == [d.c] + s;
    assert ([d.c] + s)[1..] == s;
  }

  /** A longest prefix of the rest, put behind a first character that fits, is a longest prefix. */
  lemma LongestBehindFirst(u: seq<CodeUnit>, space: nat, n: nat)
    requires u != [] && ScalarAt(u).used <= n <= |u|
    requires var d := ScalarAt(u);
             && |EncodeChar(d.c)| <= space
             && IsLongestFittingPrefix(u[d.used..], space - |EncodeChar(d.c)|, u[d.used..][..n - d.used])
    ensures IsLongestFittingPrefix(u, space, u[..n])
  {
    var d := ScalarAt(u);
    assert SplitsNoPair(u, n);
    FrontOfPrefix(u, n);
    forall p | n < p <= |u| && SplitsNoPair(u, p)
      ensures |Utf8Bytes(u[..p])| > space
    {
      FrontOfPrefix(u, p);
    }
  }

  lemma NothingFits(u: seq<CodeUnit>, space: nat)
    requires u != [] ==> |EncodeChar(ScalarAt(u).c)| > space
    ensures IsLongestFittingPrefix(u, space, u[..0])
  {
    forall p | 0 < p <= |u| && SplitsNoPair(u, p)
      ensures |Utf8Bytes(u[..p])| > space
    {
      FrontOfPrefix(u, p);
    }
  }

  lemma ReadsOneMore(u: seq<CodeUnit>, space: nat, g: Fit)
    requires u != [] && |EncodeChar(ScalarAt(u).c)| <= space
    requires var d := ScalarAt(u);
             var t := u[d.used..];
             && g.read <= |t| && g.text == Scalars(t[..g.read])
             && IsLongestFittingPrefix(t, space - |EncodeChar(d.c)|, t[..g.read])
    ensures var d := ScalarAt(u);
            var n := d.used + g.read;
            IsLongestFittingPrefix(u, space, u[..n]) && [d.c] + g.text == Scalars(u[..n])
  {
    var n := ScalarAt(u).used + g.read;
    assert IsLongestFittingPrefix(u, space, u[..n]) by {
      LongestBehindFirst(u, space, n);
    }
    assert Scalars(u[..n]) == [ScalarAt(u).c] + g.text by {
      FrontOfPrefix(u, n);
    }
  }

  /** The units read are the longest fitting prefix, and the text written is its scalar values. */
  lemma {:induction false} ReadsLongestPrefix(u: seq<CodeUnit>, space: nat)
    ensures var f := EncodeInto(u, space);
            IsLongestFittingPrefix(u, space, u[..f.read]) && f.text == Scalars(u[..f.read])
    decreases |u|
  {
    if u == [] || |EncodeChar(ScalarAt(u).c)| > space {
      NothingFits(u, space);
    } else {
      var d := ScalarAt(u);
      var g := EncodeInto(u[d.used..], space - |EncodeChar(d.c)|);
      ReadsLongestPrefix(u[d.used..], space - |EncodeChar(d.c)|);
      ReadsOneMore(u, space, g);
    }
  }

  lemma OnlyOneLongest(u: seq<CodeUnit>, maxBytes: nat, r: seq<CodeUnit>, r': seq<CodeUnit>)
    requires IsLongestFittingPrefix(u, maxBytes, r) && IsLongestFittingPrefix(u, maxBytes, r')
    ensures r == r'
  {
    assert u[..|r|] == r && u[..|r'|] == r';
  }

  lemma {:induction false} UnitsFit(s: string)
    ensures |Units(s)| <= |Encode(s)|
  {
    if s != [] {
      UnitsFit(s[1..]);
    }
  }

  /** For every string, lone surrogates or not: the result fits, and it is the input exactly when the input fits. */
  lemma ResultFits(u: seq<CodeUnit>, maxBytes: nat)
    ensures var r := Truncated(u, maxBytes);
            && |Utf8Bytes(r)| <= maxBytes && |r| <= maxBytes
            && (r == u <==> |Utf8Bytes(u)| <= maxBytes)
            && (EncodeInto(u, maxBytes).read == |u| <==> |Utf8Bytes(u)| <= maxBytes)
  {
    var f := EncodeInto(u, maxBytes);
    var r := Truncated(u, maxBytes);
    FitsSpace(u, maxBytes);
    ReadsLongestPrefix(u, maxBytes);
    assert u[..|u|] == u;
    if f.read == |u| {
      UnitsScalars(u);
    } else {
      assert SplitsNoPair(u, |u|);
      DecodeEncode(f.text);
      var t := DecodeText(Encode(f.text));
      ScalarsUnits(t);
      assert f.text != [] ==> Encode(f.text) == EncodeChar(f.text[0]) + Encode(f.text[1..]);
    }
    UnitsFit(Scalars(r));
    UnitsScalars(r);
  }

  /**
   * When something has to be cut, the result is the longest prefix that splits no
   * character exactly if the part that was read holds no lone surrogate and does not
   * begin with a byte order mark.
   */
  lemma LongestExactlyWithoutMarkOrLoneSurrogate(u: seq<CodeUnit>, maxBytes: nat)
    ensures var read := u[..EncodeInto(u, maxBytes).read];
            IsLongestFittingPrefix(u, maxBytes, Truncated(u, maxBytes))
            <==> |Utf8Bytes(u)| <= maxBytes
                 || (WellFormedUtf16(read) && (read != [] ==> read[0] != 0xFEFF))
  {
    var f := EncodeInto(u, maxBytes);
    var read := u[..f.read];
    var r := Truncated(u, maxBytes);
    ReadsLongestPrefix(u, maxBytes);
    ResultFits(u, maxBytes);
    if f.read == |u| {
      assert read == u;
    } else {
      CutText(u, maxBytes);
      UnitsScalars(read);
      if IsLongestFittingPrefix(u, maxBytes, r) {
        OnlyOneLongest(u, maxBytes, r, read);
      }
    }
  }

  /** The documented case: a well-formed text that does not begin with a byte order mark. */
  lemma WellFormedTextsAreCutCleanly(u: seq<CodeUnit>, maxBytes: nat)
    requires WellFormedUtf16(u) && (u != [] ==> u[0] != 0xFEFF)
    ensures IsLongestFittingPrefix(u, maxBytes, Truncated(u, maxBytes))
  {
    ReadsLongestPrefix(u, maxBytes);
    WellFormedCut(u, EncodeInto(u, maxBytes).read);
    LongestExactlyWithoutMarkOrLoneSurrogate(u, maxBytes);
  }

  lemma WellFormedCut(u: seq<CodeUnit>, n: nat)
    requires WellFormedUtf16(u) && n <= |u| && SplitsNoPair(u, n)
    ensures WellFormedUtf16(u[..n])
  {
    forall i | 0 <= i < n
      ensures !LoneAt(u[..n], i)
    {
      assert !LoneAt(u, i);
    }
  }

  /** Unit by unit, reading and writing back changes nothing but lone surrogates. */
  lemma {:induction false} UnitsScalarsAt(u: seq<CodeUnit>, i: nat)
    requires i < |u|
    ensures |Units(Scalars(u))| == |u|
    ensures Units(Scalars(u))[i] == u[i] || Units(Scalars(u))[i] == 0xFFFD
  {
    UnitsScalars(u);
    var d := ScalarAt(u);
    var t := u[d.used..];
    assert Units(Scalars(u)) == UnitsOf(d.c) + Units(Scalars(t));
    if i >= d.used {
      UnitsScalarsAt(t, i - d.used);
    }
  }

  predicate AllMarks(u: seq<CodeUnit>) {
    forall i :: 0 <= i < |u| ==> u[i] == 0xFEFF
  }

  /** Every unit equal to the one before it in the written text: only marks repeat that way. */
  lemma {:induction false} ShiftedIsAllMarks(read: seq<CodeUnit>, n: nat)
    requires n <= |read| && read != [] && read[0] == 0xFEFF
    requires |Units(Scalars(read))| == |read|
    requires forall i :: 0 <= i < |read| - 1 ==> Units(Scalars(read))[i + 1] == read[i]
    ensures AllMarks(read[..n])
  {
    if n > 1 {
      ShiftedIsAllMarks(read, n - 1);
      assert read[..n - 1][n - 2] == read[n - 2];
      assert Units(Scalars(read))[n - 2 + 1] == read[n - 2];
      UnitsScalarsAt(read, n - 1);
      assert read[..n] == read[..n - 1] + [read[n - 1]];
    }
  }

  lemma MarksAreWellFormed(u: seq<CodeUnit>)
    requires AllMarks(u)
    ensures Units(Scalars(u)) == u
  {
    UnitsScalars(u);
  }

  lemma MarksStayPrefix(u: seq<CodeUnit>, n: nat)
    requires 0 < n <= |u| && AllMarks(u[..n])
    ensures Units(Scalars(u[..n]))[1..] <= u
  {
    MarksAreWellFormed(u[..n]);
    assert u[..n][1..] == u[..n - 1];
  }

  lemma PrefixIsMarks(u: seq<CodeUnit>, n: nat)
    requires 0 < n <= |u| && u[0] == 0xFEFF && |Units(Scalars(u[..n]))| == n
    requires Units(Scalars(u[..n]))[1..] <= u
    ensures AllMarks(u[..n])
  {
    var read := u[..n];
    var w := Units(Scalars(read));
    forall i | 0 <= i < n - 1
      ensures w[i + 1] == read[i]
    {
      assert w[1..][i] == u[i];
    }
    ShiftedIsAllMarks(read, n);
    assert read[..n] == read;
  }

  /** A text cut behind a leading mark stays a prefix of the whole only if all that was read is marks. */
  lemma PrefixBehindMark(u: seq<CodeUnit>, n: nat)
    requires 0 < n <= |u| && u[0] == 0xFEFF && |Units(Scalars(u[..n]))| == n
    ensures Units(Scalars(u[..n]))[1..] <= u <==> AllMarks(u[..n])
  {
    if AllMarks(u[..n]) {
      MarksStayPrefix(u, n);
    }
    if Units(Scalars(u[..n]))[1..] <= u {
      PrefixIsMarks(u, n);
    }
  }

  /** What is written for a text that is cut: the scalar values read, without a leading mark. */
  lemma CutText(u: seq<CodeUnit>, maxBytes: nat)
    requires EncodeInto(u, maxBytes).read < |u|
    ensures var read := u[..EncodeInto(u, maxBytes).read];
            var w := Units(Scalars(read));
            && |w| == |read|
            && Truncated(u, maxBytes) == if read != [] && read[0] == 0xFEFF then w[1..] else w
  {
    var f := EncodeInto(u, maxBytes);
    var read := u[..f.read];
    ReadsLongestPrefix(u, maxBytes);
    DecodeEncode(f.text);
    UnitsScalars(read);
    if read != [] {
      assert f.text[0] == ScalarAt(read).c;
      assert Units(f.text) == UnitsOf(f.text[0]) + Units(f.text[1..]);
      assert (f.text[0] == BOM) == (read[0] == 0xFEFF);
    }
  }

  /**
   * The documented promise, the input or a prefix of it, is kept exactly if the input
   * fits, or the part that was read is nothing but byte order marks, or it holds no lone
   * surrogate and does not begin with a mark.
   */
  lemma PrefixExactly(u: seq<CodeUnit>, maxBytes: nat)
    ensures var read := u[..EncodeInto(u, maxBytes).read];
            Truncated(u, maxBytes) <= u
            <==> || |Utf8Bytes(u)| <= maxBytes
                 || AllMarks(read)
                 || (WellFormedUtf16(read) && (read != [] ==> read[0] != 0xFEFF))
  {
    var read := u[..EncodeInto(u, maxBytes).read];
    ResultFits(u, maxBytes);
    if |read| < |u| {
      CutText(u, maxBytes);
      UnitsScalars(read);
      if read != [] && read[0] == 0xFEFF {
        PrefixBehindMark(u, |read|);
      } else {
        var w := Units(Scalars(read));
        assert w <= u <==> w == read;
      }
    }
  }

  /** A text that begins with the mark and is cut behind a letter: what is left is not a prefix of it. */
  lemma MarkBreaksThePrefix()
    ensures Truncated([0xFEFF, 0x61, 0x62], 4) == [0x61]
    ensures !(Truncated([0xFEFF, 0x61, 0x62], 4) <= [0xFEFF, 0x61, 0x62])
  {
    var u: seq<CodeUnit> := [0xFEFF, 0x61, 0x62];
    var t: seq<CodeUnit> := [0x61, 0x62];
    assert ScalarAt(u) == Decoded(BOM, 1) && |EncodeChar(BOM)| == 3 && u[1..] == t;
    assert ScalarAt(t) == Decoded('a', 1) && |EncodeChar('a')| == 1 && t[1..] == [0x62];
    assert EncodeInto([0x62], 0) == Fit(0, []) by {
      assert ScalarAt([0x62]) == Decoded('b', 1);
    }
    assert EncodeInto(t, 1) == Fit(1, ['a']);
    assert EncodeInto(u, 4) == Fit(2, [BOM, 'a']);
    DecodeEncode([BOM, 'a']);
    assert Units(['a']) == [0x61] by {
      assert ['a'][1..] == [];
    }
  }

  /** A lone surrogate that is read comes back as U+FFFD. */
  lemma LoneSurrogateBreaksThePrefix()
    ensures Truncated([0xD800, 0x61], 3) == [0xFFFD]
    ensures !(Truncated([0xD800, 0x61], 3) <= [0xD800, 0x61])
  {
    var u: seq<CodeUnit> := [0xD800, 0x61];
    assert ScalarAt(u) == Decoded(REPLACEMENT, 1) && |EncodeChar(REPLACEMENT)| == 3 && u[1..] == [0x61];
    assert EncodeInto([0x61], 0) == Fit(0, []) by {
      assert ScalarAt([0x61]) == Decoded('a', 1);
    }
    assert EncodeInto(u, 3) == Fit(1, [REPLACEMENT]);
    DecodeEncode([REPLACEMENT]);
    assert Units([REPLACEMENT]) == [0xFFFD] by {
      assert [REPLACEMENT][1..] == [];
    }
  }

  /** A text that begins with the mark loses it as soon as anything is cut: here the longest fitting prefix was the mark. */
  lemma MarkIsLost()
    ensures Truncated([0xFEFF, 0x61], 3) == []
    ensures IsLongestFittingPrefix([0xFEFF, 0x61], 3, [0xFEFF])
  {
    var u: seq<CodeUnit> := [0xFEFF, 0x61];
    assert ScalarAt(u) == Decoded(BOM, 1) && |EncodeChar(BOM)| == 3 && u[1..] == [0x61];
    assert ScalarAt([0x61]) == Decoded('a', 1);
    assert EncodeInto([0x61], 0) == Fit(0, []);
    assert EncodeInto(u, 3) == Fit(1, [BOM]);
    DecodeEncode([BOM]);
    ReadsLongestPrefix(u, 3);
    assert u[..1] == [0xFEFF];
  }

  lemma TwoScalarsAlwaysFit(u: seq<CodeUnit>, space: nat)
    requires u != [] && space >= 8
    ensures var f := EncodeInto(u, space);
            f.text != [] && (f.read < |u| ==> |f.text| >= 2)
  {
    var d := ScalarAt(u);
    var t := u[d.used..];
    var g := EncodeInto(t, space - |EncodeChar(d.c)|);
    if t != [] {
      assert |EncodeChar(ScalarAt(t).c)| <= space - |EncodeChar(d.c)|;
      assert g.text != [];
    }
  }

  /** What the browser cuts a non-empty text to, the server accepts: neither empty nor too long, whatever the text. */
  lemma CutTextIsAccepted(u: seq<CodeUnit>)
    requires u != []
    ensures MAX_TEXT_UPLOAD_BYTES == MAX_CONTENT_LENGTH == 65_536
    ensures 1 <= |Truncated(u, MAX_TEXT_UPLOAD_BYTES)| <= MAX_CONTENT_LENGTH
  {
    var f := EncodeInto(u, MAX_TEXT_UPLOAD_BYTES);
    ResultFits(u, MAX_TEXT_UPLOAD_BYTES);
    TwoScalarsAlwaysFit(u, MAX_TEXT_UPLOAD_BYTES);
    if f.read < |u| {
      DecodeEncode(f.text);
      assert DecodeText(Encode(f.text)) != [];
    }
  }
}
