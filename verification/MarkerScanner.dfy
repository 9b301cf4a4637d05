/**
 * The demo's file scanner: it reads a bounded prefix of a body, decodes it as
 * UTF-8 and looks for two inert text markers, or looks for them in the object key
 * when there is no body.
 */
module MarkerScanner {
  import opened Wrappers
  import opened Utf
  import opened Sequences

  const INFECTED_MARKER := "X-DEMO-INFECTED"
  const UNKNOWN_MARKER := "X-DEMO-UNKNOWN"
  const THREAT_NAME := "Demo.Marker.A"
  const ENGINE_NAME := "marker-demo"
  const MAX_SCAN_BYTES: nat := 4096

  datatype Status = Clean | Infected | Unknown

  datatype ScanResult = ScanResult(status: Status, engine: string, threat: Option<string>)

  /** One item of a readable stream: bytes, or a JavaScript string still to be encoded. */
  datatype Chunk = Bytes(bytes: seq<Byte>) | Text(text: seq<CodeUnit>)

  datatype Body = Buffer(bytes: seq<Byte>) | Stream(chunks: seq<Chunk>)

  function ChunkBytes(c: Chunk): seq<Byte> {
    match c
    case Bytes(b) => b
    case Text(u) => Utf8Bytes(u)
  }

  function Cuts(chunks: seq<Chunk>): (r: seq<seq<Byte>>)
    ensures |r| == |chunks| && forall i :: 0 <= i < |chunks| ==> r[i] == ChunkBytes(chunks[i])
  {
    seq(|chunks|, i requires 0 <= i < |chunks| => ChunkBytes(chunks[i]))
  }

  /** All the bytes a body delivers, whatever the cut. */
  function BodyBytes(body: Body): seq<Byte> {
    match body
    case Buffer(b) => b
    case Stream(chunks) => Flatten(Cuts(chunks))
  }

  /** A stream delivers what its pieces hold, one after the other, and one piece what a buffer of its bytes would. */
  lemma StreamsDeliver(chunks: seq<Chunk>, b: seq<Byte>, u: seq<CodeUnit>)
    ensures BodyBytes(Stream([])) == []
    ensures BodyBytes(Stream(chunks + [Bytes(b)])) == BodyBytes(Stream(chunks)) + b
    ensures BodyBytes(Stream(chunks + [Text(u)])) == BodyBytes(Stream(chunks)) + Utf8Bytes(u)
    ensures BodyBytes(Stream([Bytes(b)])) == BodyBytes(Buffer(b)) == b
  {
    assert Cuts(chunks + [Bytes(b)]) == Cuts(chunks) + [b];
    assert Cuts(chunks + [Text(u)]) == Cuts(chunks) + [Utf8Bytes(u)];
    FlattenSnoc(Cuts(chunks), b);
    FlattenSnoc(Cuts(chunks), Utf8Bytes(u));
    assert Cuts([Bytes(b)]) == [b];
    assert Flatten([b]) == b + Flatten([]);
  }

  lemma SpentBudget(kept: seq<Byte>, buffer: seq<Byte>, rest: seq<Byte>, budget: nat)
    requires |kept| <= budget <= |kept| + |buffer|
    ensures kept + Prefix(buffer, budget - |kept|) == Prefix((kept + buffer) + rest, budget)
  {
  }

  /**
   * Reads at most `budget` bytes. However the stream is cut, the text is the decoded
   * prefix of the whole content, and the buffered bytes never exceed the budget.
   */
  method ReadPrefix(body: Body, budget: nat) returns (text: string)
    ensures text == Decode(Prefix(BodyBytes(body), budget))
  {
    if body.Buffer? {
      return Decode(Prefix(body.bytes, budget));
    }
    var chunks := body.chunks;
    ghost var cuts := Cuts(chunks);
    var kept: seq<Byte> := [];
    var i := 0;
    while i < |chunks|
      invariant 0 <= i <= |chunks|
      invariant kept == Flatten(cuts[..i]) && |kept| <= budget
    {
      var buffer := ChunkBytes(chunks[i]);
      var slice := Prefix(buffer, budget - |kept|);
      FlattenAt(cuts, i);
      if |kept + slice| >= budget {
        SpentBudget(kept, buffer, Flatten(cuts[i + 1..]), budget);
        return Decode(kept + slice);
      }
      kept := kept + slice;
      i := i + 1;
    }
    assert cuts[..i] == cuts;
    text := Decode(kept);
  }

  function Verdict(text: string): ScanResult {
    if Includes(text, INFECTED_MARKER) then ScanResult(Infected, ENGINE_NAME, Some(THREAT_NAME))
    else if Includes(text, UNKNOWN_MARKER) then ScanResult(Unknown, ENGINE_NAME, None)
    else ScanResult(Clean, ENGINE_NAME, None)
  }

  // ---------------------------------------------------------------------
  // Decoding, then searching, is byte search
  // ---------------------------------------------------------------------

  predicate IsAscii(m: string) {
    forall i :: 0 <= i < |m| ==> m[i] as int < 0x80
  }

  function AsBytes(m: string): (r: seq<Byte>)
    requires IsAscii(m)
    ensures |r| == |m| && forall i :: 0 <= i < |m| ==> r[i] == m[i] as int
  {
    seq(|m|, i requires 0 <= i < |m| => m[i] as int)
  }

  lemma {:induction false} StartsWithOnBytes(b: seq<Byte>, m: string)
    requires IsAscii(m)
    ensures StartsWith(Decode(b), m) <==> StartsWith(b, AsBytes(m))
    decreases |m|
  {
    if m != [] && b != [] {
      var d := DecodeOne(b);
      assert Decode(b) == [d.c] + Decode(b[d.used..]);
      PrefixByHead(Decode(b), m);
      PrefixByHead(b, AsBytes(m));
      if b[0] < 0x80 {
        StartsWithOnBytes(b[1..], m[1..]);
        assert AsBytes(m)[1..] == AsBytes(m[1..]);
        assert Decode(b)[1..] == Decode(b[1..]);
      }
    }
  }

  lemma PrefixByHead<T>(s: seq<T>, m: seq<T>)
    requires m != [] && s != []
    ensures m <= s <==> m[0] == s[0] && m[1..] <= s[1..]
  {
    if m[0] == s[0] && m[1..] <= s[1..] {
      assert m == [m[0]] + m[1..];
      assert s == [s[0]] + s[1..];
    }
  }

  /**
   * For every byte sequence, malformed UTF-8 included: the decoded text holds an
   * ASCII marker exactly when the bytes hold the marker's bytes.
   */
  lemma {:induction false} IncludesOnBytes(b: seq<Byte>, m: string)
    requires m != [] && IsAscii(m)
    ensures Includes(Decode(b), m) <==> Includes(b, AsBytes(m))
    decreases |b|
  {
    StartsWithOnBytes(b, m);
    if b != [] {
      var d := DecodeOne(b);
      assert Decode(b)[1..] == Decode(b[d.used..]);
      IncludesOnBytes(b[d.used..], m);
      if b[0] >= 0x80 {
        SkipFront(b[..d.used], b[d.used..], AsBytes(m));
        assert b == b[..d.used] + b[d.used..];
      }
    }
  }

  lemma MarkersAreAscii()
    ensures IsAscii("X-DEMO-INFECTED") && IsAscii("X-DEMO-UNKNOWN")
  {
  }

  /** The bytes from position `i` on spell `m`. */
  ghost predicate SpelledAt(b: seq<Byte>, i: nat, m: string) {
    i + |m| <= |b| && forall j :: 0 <= j < |m| ==> b[i + j] == m[j] as int
  }

  /** `m` is spelled somewhere within the first `n` bytes. */
  ghost predicate SpelledWithin(b: seq<Byte>, n: nat, m: string) {
    exists i :: 0 <= i <= n - |m| && SpelledAt(b, i, m)
  }

  lemma SpelledInPrefix(b: seq<Byte>, n: nat, m: string)
    requires m != [] && IsAscii(m)
    ensures Includes(Decode(Prefix(b, n)), m) <==> SpelledWithin(b, n, m)
  {
    var w, k := Prefix(b, n), AsBytes(m);
    IncludesOnBytes(w, m);
    IncludesMeansOccurs(w, k);
    if i :| 0 <= i <= |w| && k <= w[i..] {
      assert forall j :: 0 <= j < |m| ==> b[i + j] == w[i..][j];
      assert SpelledAt(b, i, m);
    }
    if i :| 0 <= i <= n - |m| && SpelledAt(b, i, m) {
      assert k == w[i..][..|m|];
      assert k <= w[i..];
    }
  }

  /** `m` stands somewhere in a text. */
  ghost predicate StandsIn(s: string, m: string) {
    exists i :: 0 <= i <= |s| && m <= s[i..]
  }

  /**
   * The scan of a body depends on its first 4096 bytes alone: infected exactly when
   * they hold the infected marker's bytes, unknown exactly when they hold only the
   * unknown marker's, else clean. Without a body the key's text decides.
   */
  method Scan(body: Option<Body>, key: string) returns (r: ScanResult)
    ensures body.None? ==> r == Verdict(key)
    ensures body.Some? ==> r == ScanOfBytes(BodyBytes(body.value))
    ensures var infected := if body.Some? then SpelledWithin(BodyBytes(body.value), 4096, "X-DEMO-INFECTED")
                            else StandsIn(key, "X-DEMO-INFECTED");
            var unknown := if body.Some? then SpelledWithin(BodyBytes(body.value), 4096, "X-DEMO-UNKNOWN")
                           else StandsIn(key, "X-DEMO-UNKNOWN");
            && r.status == (if infected then Infected else if unknown then Unknown else Clean)
            && r.engine == "marker-demo" && r.threat == (if infected then Some("Demo.Marker.A") else None)
  {
    var haystack := key;
    if body.Some? {
      haystack := ReadPrefix(body.value, MAX_SCAN_BYTES);
      ScanOfBytesMeans(BodyBytes(body.value));
    } else {
      IncludesMeansOccurs(key, INFECTED_MARKER);
      IncludesMeansOccurs(key, UNKNOWN_MARKER);
    }
    r := Verdict(haystack);
  }

  /** The scan as a function of the bytes delivered, so stream and buffer bodies agree however a stream is cut. */
  function ScanOfBytes(b: seq<Byte>): ScanResult {
    Verdict(Decode(Prefix(b, MAX_SCAN_BYTES)))
  }

  lemma ScanOfBytesMeans(b: seq<Byte>)
    ensures var infected := SpelledWithin(b, 4096, "X-DEMO-INFECTED");
            var unknown := SpelledWithin(b, 4096, "X-DEMO-UNKNOWN");
            && ScanOfBytes(b).status == (if infected then Infected else if unknown then Unknown else Clean)
            && ScanOfBytes(b).engine == "marker-demo"
            && ScanOfBytes(b).threat == (if infected then Some("Demo.Marker.A") else None)
  {
    MarkersAreAscii();
    SpelledInPrefix(b, 4096, "X-DEMO-INFECTED");
    SpelledInPrefix(b, 4096, "X-DEMO-UNKNOWN");
  }

  /** A range request for the first `n` bytes, with `n` at least the scan budget, does not change the scan. */
  lemma RangedPrefixScansAlike(b: seq<Byte>, n: nat)
    requires MAX_SCAN_BYTES <= n
    ensures ScanOfBytes(Prefix(b, n)) == ScanOfBytes(b)
  {
    assert Prefix(Prefix(b, n), MAX_SCAN_BYTES) == Prefix(b, MAX_SCAN_BYTES);
  }
}
