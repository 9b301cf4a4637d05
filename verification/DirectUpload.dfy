/** Cutting a file into the parts of a direct multipart upload. */
module DirectUpload {
  import opened Utf
  import opened Sequences

  const MULTIPART_PART_SIZE_BYTES: nat := 5 * 1024 * 1024

  /** The server refuses a request for more part URLs than this. */
  const MAX_MULTIPART_PARTS: nat := 1000

  /** `Math.max(1, Math.ceil(fileSize / partSize))`. */
  function PartCount(fileSize: nat, partSize: nat): nat
    requires partSize > 0
  {
    var n := (fileSize + partSize - 1) / partSize;
    if n < 1 then 1 else n
  }

  /** All parts full except the last, which is not empty. */
  ghost predicate ArePartsOf(parts: seq<seq<Byte>>, file: seq<Byte>, partSize: nat) {
    && Flatten(parts) == file
    && (forall i :: 0 <= i < |parts| - 1 ==> |parts[i]| == partSize)
    && (parts != [] ==> 1 <= |parts[|parts| - 1]| <= partSize)
  }

  /** The parts pushed before `offset`. */
  ghost predicate ArePartsUpTo(parts: seq<seq<Byte>>, file: seq<Byte>, partSize: nat, offset: nat) {
    && offset == |parts| * partSize && offset < |file| + partSize
    && ArePartsOf(parts, Prefix(file, offset), partSize)
    && (offset <= |file| ==> forall i :: 0 <= i < |parts| ==> |parts[i]| == partSize)
  }

  lemma OneMore(n: nat, partSize: nat)
    ensures (n + 1) * partSize == n * partSize + partSize
  {
  }

  lemma NextPrefix(file: seq<Byte>, offset: nat, partSize: nat)
    requires offset < |file| && partSize > 0
    ensures Prefix(file, offset) + Prefix(file[offset..], partSize) == Prefix(file, offset + partSize)
  {
  }

  lemma PartsGrow(parts: seq<seq<Byte>>, file: seq<Byte>, partSize: nat, offset: nat)
    requires partSize > 0 && ArePartsUpTo(parts, file, partSize, offset) && offset < |file|
    ensures ArePartsUpTo(parts + [Prefix(file[offset..], partSize)], file, partSize, offset + partSize)
  {
    var part := Prefix(file[offset..], partSize);
    FlattenSnoc(parts, part);
    NextPrefix(file, offset, partSize);
    OneMore(|parts|, partSize);
  }

  method SplitIntoParts(file: seq<Byte>, partSize: nat) returns (parts: seq<seq<Byte>>)
    requires partSize > 0
    ensures ArePartsOf(parts, file, partSize)
    ensures |parts| == if file == [] then 0 else PartCount(|file|, partSize)
  {
    parts := [];
    var offset := 0;
    while offset < |file|
      invariant ArePartsUpTo(parts, file, partSize, offset)
    {
      PartsGrow(parts, file, partSize, offset);
      parts := parts + [Prefix(file[offset..], partSize)];
      offset := offset + partSize;
    }
    PartsNeeded(|file|, partSize, |parts|);
  }

  lemma MultiplesGrow(x: int, d: nat)
    ensures x >= 1 ==> x * d >= d
    ensures x <= -1 ==> x * d <= 0 - d
  {
    if x >= 1 {
      assert (x - 1) * d >= 0;
    } else if x <= -1 {
      assert (-1 - x) * d >= 0;
    }
  }

  lemma QuotientAndRest(a: nat, d: nat)
    requires d > 0
    ensures a == a / d * d + a % d && 0 <= a % d < d
  {
  }

  /** A quotient is where its multiples stop. */
  lemma QuotientIs(a: nat, d: nat, q: nat)
    requires d > 0 && q * d <= a < q * d + d
    ensures a / d == q
  {
    QuotientAndRest(a, d);
    var k := a / d;
    assert (k - q) * d == k * d - q * d;
    MultiplesGrow(k - q, d);
  }

  lemma PartsNeeded(fileSize: nat, partSize: nat, n: nat)
    requires partSize > 0
    requires fileSize <= n * partSize < fileSize + partSize
    ensures (fileSize + partSize - 1) / partSize == n
    ensures fileSize > 0 ==> PartCount(fileSize, partSize) == n
  {
    QuotientIs(fileSize + partSize - 1, partSize, n);
  }

  /** The part count is the least positive number of parts that hold the file; an empty file counts one. */
  lemma PartCountIsLeast(fileSize: nat, partSize: nat, n: nat)
    requires partSize > 0
    ensures PartCount(fileSize, partSize) >= 1
    ensures n >= 1 ==> (fileSize <= n * partSize <==> PartCount(fileSize, partSize) <= n)
    ensures PartCount(0, partSize) == 1
  {
    var a := fileSize + partSize - 1;
    QuotientAndRest(a, partSize);
    var q := a / partSize;
    assert (n - q) * partSize == n * partSize - q * partSize;
    MultiplesGrow(n - q, partSize);
    QuotientIs(partSize - 1, partSize, 0);
  }

  /** The parts of a file are determined by what they must be: the split is the only one. */
  lemma {:induction false} PartsAreUnique(a: seq<seq<Byte>>, b: seq<seq<Byte>>, file: seq<Byte>, partSize: nat)
    requires ArePartsOf(a, file, partSize) && ArePartsOf(b, file, partSize)
    ensures a == b
  {
    if a != [] && b != [] {
      var restA, restB := Flatten(a[1..]), Flatten(b[1..]);
      assert file == a[0] + restA == b[0] + restB;
      RestOfParts(a, file, partSize);
      RestOfParts(b, file, partSize);
      PartsAreUnique(a[1..], b[1..], restA, partSize);
    }
  }

  lemma RestOfParts(parts: seq<seq<Byte>>, file: seq<Byte>, partSize: nat)
    requires parts != [] && ArePartsOf(parts, file, partSize)
    ensures ArePartsOf(parts[1..], Flatten(parts[1..]), partSize)
    ensures parts[0] == Prefix(file, partSize)
    ensures |Flatten(parts[1..])| == |file| - |parts[0]|
    ensures Flatten(parts[1..]) == file[|parts[0]|..]
  {
    assert file == parts[0] + Flatten(parts[1..]);
    if |parts| > 1 {
      assert |parts[0]| == partSize;
    } else {
      assert Flatten(parts[1..]) == [];
    }
  }

  /** Cut at the default size, a file needs at most 1000 parts exactly when it has at most 5,242,880,000 bytes. */
  lemma PartLimit(fileSize: nat)
    ensures MULTIPART_PART_SIZE_BYTES == 5_242_880 && MAX_MULTIPART_PARTS == 1000
    ensures PartCount(fileSize, MULTIPART_PART_SIZE_BYTES) <= MAX_MULTIPART_PARTS <==> fileSize <= 5_242_880_000
  {
  }
}
