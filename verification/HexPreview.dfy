/**
 * The hex dump of a byte range: rows of sixteen bytes, each with its offset, two hex
 * digits per byte and an ASCII column.
 */
module HexPreview {
  import opened Wrappers
  import opened Utf
  import opened Sequences
  import opened HexDigits
  import Base64

  const BYTES_PER_ROW: nat := 16

  datatype Row = Row(offset: nat, chunk: seq<Byte>)

  /** The digit a character stands for. */
  function DigitOf(c: char): int {
    match HexValue(c)
    case Some(n) => n
    case None => 0
  }

  predicate IsUpperHex(c: char) {
    '0' <= c <= '9' || 'A' <= c <= 'F'
  }

  // ---------------------------------------------------------------------
  // Offsets
  // ---------------------------------------------------------------------

  /** `toString(16)` in upper case. */
  function Hex(n: nat): string {
    if n < 16 then [HexDigit(n)] else Hex(n / 16) + [HexDigit(n % 16)]
  }

  function PadStart(s: string, width: nat, c: char): string
    decreases width - |s|
  {
    if |s| >= width then s else PadStart([c] + s, width, c)
  }

  function FormatOffset(offset: nat): string {
    PadStart(Hex(offset), 8, '0')
  }

  /** The number a row of hex digits stands for. */
  function NumberOf(s: string): int {
    if s == [] then 0 else NumberOf(s[..|s| - 1]) * 16 + DigitOf(s[|s| - 1])
  }

  lemma {:induction false} NumberOfHex(n: nat)
    ensures NumberOf(Hex(n)) == n && forall i :: 0 <= i < |Hex(n)| ==> IsUpperHex(Hex(n)[i])
  {
    if n >= 16 {
      NumberOfHex(n / 16);
      assert Hex(n)[..|Hex(n)| - 1] == Hex(n / 16);
      HexDigitValue(n % 16);
    }
  }

  lemma {:induction false} LeadingZero(s: string)
    ensures NumberOf("0" + s) == NumberOf(s)
  {
    if s == [] {
      assert "0" + s == "0";
      assert NumberOf("0") == NumberOf("0"[..0]) * 16 + DigitOf('0');
    } else {
      LeadingZero(s[..|s| - 1]);
      assert ("0" + s)[..|s|] == "0" + s[..|s| - 1];
    }
  }

  lemma {:induction false} NumberOfPadded(s: string, width: nat)
    ensures NumberOf(PadStart(s, width, '0')) == NumberOf(s)
    ensures |PadStart(s, width, '0')| == if |s| >= width then |s| else width
    ensures (forall i :: 0 <= i < |s| ==> IsUpperHex(s[i])) ==>
              forall i :: 0 <= i < |PadStart(s, width, '0')| ==> IsUpperHex(PadStart(s, width, '0')[i])
    decreases width - |s|
  {
    if |s| < width {
      LeadingZero(s);
      NumberOfPadded("0" + s, width);
    }
  }

  lemma {:induction false} HexLength(n: nat, digits: nat, bound: nat)
    requires digits >= 1 && bound == Power16(digits)
    ensures |Hex(n)| <= digits <==> n < bound
  {
    if digits == 1 {
      assert Power16(0) == 1;
    } else if n >= 16 {
      HexLength(n / 16, digits - 1, Power16(digits - 1));
    } else {
      Power16Positive(digits - 1);
    }
  }

  function Power16(k: nat): nat {
    if k == 0 then 1 else 16 * Power16(k - 1)
  }

  lemma {:induction false} Power16Positive(k: nat)
    ensures Power16(k) >= 1
  {
    if k > 0 {
      Power16Positive(k - 1);
    }
  }

  /** An offset can be read back, so no two rows show the same one; it has eight digits exactly below 2^32. */
  lemma OffsetReadsBack(offset: nat)
    ensures NumberOf(FormatOffset(offset)) == offset
    ensures |FormatOffset(offset)| == 8 <==> offset < 0x1_0000_0000
    ensures |FormatOffset(offset)| >= 8 && forall i :: 0 <= i < |FormatOffset(offset)| ==> IsUpperHex(FormatOffset(offset)[i])
  {
    NumberOfHex(offset);
    NumberOfPadded(Hex(offset), 8);
    assert Power16(8) == 0x1_0000_0000;
    HexLength(offset, 8, 0x1_0000_0000);
  }

  // ---------------------------------------------------------------------
  // Rows
  // ---------------------------------------------------------------------

  function ChunksOf(rows: seq<Row>): seq<seq<Byte>> {
    seq(|rows|, i requires 0 <= i < |rows| => rows[i].chunk)
  }

  /** What the panel shows of some bytes: every row full except perhaps the last, none empty. */
  ghost predicate AreRowsOf(rows: seq<Row>, bytes: seq<Byte>) {
    && Flatten(ChunksOf(rows)) == bytes
    && (forall i :: 0 <= i < |rows| ==> rows[i].offset == i * BYTES_PER_ROW)
    && (forall i :: 0 <= i < |rows| - 1 ==> |rows[i].chunk| == BYTES_PER_ROW)
    && (rows != [] ==> 1 <= |rows[|rows| - 1].chunk| <= BYTES_PER_ROW)
  }

  /** The rows pushed before offset `i`. */
  ghost predicate AreRowsUpTo(rows: seq<Row>, bytes: seq<Byte>, i: nat) {
    && i == |rows| * BYTES_PER_ROW
    && AreRowsOf(rows, Prefix(bytes, i))
    && (i <= |bytes| ==> Flush(rows))
  }

  ghost predicate Flush(rows: seq<Row>) {
    forall j :: 0 <= j < |rows| ==> |rows[j].chunk| == BYTES_PER_ROW
  }

  lemma RowsGrow(rows: seq<Row>, bytes: seq<Byte>, i: nat)
    requires AreRowsUpTo(rows, bytes, i) && i < |bytes|
    ensures AreRowsUpTo(rows + [Row(i, Prefix(bytes[i..], BYTES_PER_ROW))], bytes, i + BYTES_PER_ROW)
  {
    var chunk := Prefix(bytes[i..], BYTES_PER_ROW);
    assert ChunksOf(rows + [Row(i, chunk)]) == ChunksOf(rows) + [chunk];
    FlattenSnoc(ChunksOf(rows), chunk);
    assert Prefix(bytes, i) + chunk == Prefix(bytes, i + BYTES_PER_ROW);
  }

  method SplitIntoRows(bytes: seq<Byte>) returns (rows: seq<Row>)
    ensures AreRowsOf(rows, bytes)
  {
    rows := [];
    var i := 0;
    while i < |bytes|
      invariant AreRowsUpTo(rows, bytes, i)
    {
      RowsGrow(rows, bytes, i);
      rows := rows + [Row(i, Prefix(bytes[i..], BYTES_PER_ROW))];
      i := i + BYTES_PER_ROW;
    }
  }

  /** The panel: nothing when the text is not base64, else the rows of its first bytes. */
  method Preview(base64: string, maxBytes: nat) returns (rows: Option<seq<Row>>)
    ensures rows.None? <==> Base64.Decoded(base64).None?
    ensures rows.Some? ==> AreRowsOf(rows.value, Prefix(Base64.Decoded(base64).value, maxBytes))
  {
    var bytes := Base64.DecodeBase64(base64);
    if bytes.None? {
      return None;
    }
    var shown := SplitIntoRows(Prefix(bytes.value[..], maxBytes));
    rows := Some(shown);
  }

  // ---------------------------------------------------------------------
  // The columns of a row
  // ---------------------------------------------------------------------

  function HexByte(b: Byte): string {
    PadStart(Hex(b), 2, '0')
  }

  lemma HexByteIsTwoDigits(b: Byte)
    ensures HexByte(b) == [HexDigit(b / 16), HexDigit(b % 16)]
  {
    if b < 16 {
      assert PadStart("0" + Hex(b), 2, '0') == "0" + Hex(b);
    } else {
      assert Hex(b / 16) == [HexDigit(b / 16)];
    }
  }

  /** `map(...).join(' ')` */
  function JoinHex(chunk: seq<Byte>): string {
    if chunk == [] then []
    else if |chunk| == 1 then HexByte(chunk[0])
    else HexByte(chunk[0]) + " " + JoinHex(chunk[1..])
  }

  function PadEnd(s: string, width: nat): string
    decreases width - |s|
  {
    if |s| >= width then s else PadEnd(s + " ", width)
  }

  function PaddedHex(chunk: seq<Byte>): string {
    PadEnd(JoinHex(chunk), BYTES_PER_ROW * 3 - 1)
  }

  function AsciiOf(chunk: seq<Byte>): string {
    seq(|chunk|, i requires 0 <= i < |chunk| => if 32 <= chunk[i] < 127 then chunk[i] as char else '.')
  }

  lemma {:induction false} PadEndAppends(s: string, width: nat)
    ensures s <= PadEnd(s, width)
    ensures |PadEnd(s, width)| == if |s| >= width then |s| else width
    ensures forall i :: |s| <= i < |PadEnd(s, width)| ==> PadEnd(s, width)[i] == ' '
    decreases width - |s|
  {
    if |s| < width {
      PadEndAppends(s + " ", width);
      assert PadEnd(s, width)[..|s| + 1] == s + " ";
    }
  }

  /** Where byte `i` of a row stands. */
  lemma {:induction false} JoinHexAt(chunk: seq<Byte>, i: nat)
    requires i < |chunk|
    ensures |JoinHex(chunk)| == 3 * |chunk| - 1
    ensures JoinHex(chunk)[3 * i] == HexDigit(chunk[i] / 16)
    ensures JoinHex(chunk)[3 * i + 1] == HexDigit(chunk[i] % 16)
    ensures i < |chunk| - 1 ==> JoinHex(chunk)[3 * i + 2] == ' '
  {
    HexByteIsTwoDigits(chunk[0]);
    if |chunk| > 1 {
      JoinHexAt(chunk[1..], if i == 0 then 0 else i - 1);
      assert JoinHex(chunk) == HexByte(chunk[0]) + " " + JoinHex(chunk[1..]);
    }
  }

  /**
   * Every row is 47 columns wide and byte `i` can be read at columns `3 * i` and
   * `3 * i + 1`; the columns past the last byte are blank. The ASCII column shows a
   * byte as itself exactly when it is printable.
   */
  lemma RowReadsBack(chunk: seq<Byte>, i: nat)
    requires 1 <= |chunk| <= BYTES_PER_ROW && i < BYTES_PER_ROW
    ensures var row := PaddedHex(chunk);
            && |row| == 47
            && (i < |chunk| ==> DigitOf(row[3 * i]) * 16 + DigitOf(row[3 * i + 1]) == chunk[i])
            && (i < |chunk| ==> IsUpperHex(row[3 * i]) && IsUpperHex(row[3 * i + 1]))
            && (i >= |chunk| ==> row[3 * i] == row[3 * i + 1] == ' ')
            && (i < 15 ==> row[3 * i + 2] == ' ')
            && (i < |chunk| ==> (AsciiOf(chunk)[i] as int == chunk[i] <==> 32 <= chunk[i] < 127))
  {
    var text := JoinHex(chunk);
    JoinHexAt(chunk, if i < |chunk| then i else 0);
    PadEndAppends(text, 47);
    if i < |chunk| {
      HexDigitValue(chunk[i] / 16);
      HexDigitValue(chunk[i] % 16);
      assert PaddedHex(chunk)[3 * i] == text[3 * i];
      assert PaddedHex(chunk)[3 * i + 1] == text[3 * i + 1];
    }
  }
}
