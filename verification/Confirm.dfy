/**
 * Confirmation of a direct upload. A presigned PUT reaches the provider without any
 * server-side check, so the server reads the landed object's metadata, re-applies the
 * size and MIME policy, scans a bounded prefix, and deletes what is infected.
 */
module Confirm {
  import opened Wrappers
  import opened Utf
  import opened Sequences
  import opened Keys
  import opened Buckets
  import opened MarkerScanner

  const SCAN_PREFIX_BYTES: nat := 4096

  datatype Policy = Policy(maxSizeBytes: Option<nat>, mimeWhitelist: Option<seq<string>>)

  datatype ScanVerdict = ScanVerdict(status: Status, threat: Option<string>)

  datatype ConfirmReport = ConfirmReport(
    confirmed: bool, key: string, metadata: Metadata, scan: ScanVerdict,
    sizeWithinPolicy: bool, mimeAllowed: bool, scanClean: bool)

  // ---------------------------------------------------------------------
  // The MIME and size policy
  // ---------------------------------------------------------------------

  predicate EndsWith(s: string, suffix: string) {
    |suffix| <= |s| && s[|s| - |suffix|..] == suffix
  }

  predicate AllowsAll(entry: string) {
    entry == "*" || entry == "*/*"
  }

  predicate EntryAllows(entry: string, contentType: string) {
    if AllowsAll(entry) then true
    else if EndsWith(entry, "/*") then entry[..|entry| - 1] <= contentType
    else entry == contentType
  }

  predicate IsMimeAllowed(contentType: Option<string>, whitelist: seq<string>) {
    && contentType.Some? && contentType.value != []
    && exists i :: 0 <= i < |whitelist| && EntryAllows(whitelist[i], contentType.value)
  }

  predicate IsSizeWithinPolicy(size: nat, policy: Policy) {
    policy.maxSizeBytes.None? || size <= policy.maxSizeBytes.value
  }

  predicate IsMimeWithinPolicy(contentType: Option<string>, policy: Policy) {
    policy.mimeWhitelist.None? || policy.mimeWhitelist.value == [] || IsMimeAllowed(contentType, policy.mimeWhitelist.value)
  }

  lemma FamilyEnds(family: string)
    ensures EndsWith(family + "/*", "/*")
  {
    var s := family + "/*";
    assert s[|s| - 2..] == "/*";
  }

  // An entry allows everything, or exactly the types of one family, or exactly one type.
  lemma EntryAllowsMeans(entry: string, contentType: string)
    ensures EntryAllows(entry, contentType)
       <==> || entry == "*" || entry == "*/*"
            || (exists family :: entry == family + "/*" && family + "/" <= contentType)
            || entry == contentType
  {
    if EndsWith(entry, "/*") {
      var family := entry[..|entry| - 2];
      assert entry == family + "/*" && entry[..|entry| - 1] == family + "/";
      forall other | entry == other + "/*"
        ensures other == family
      {
        assert (other + "/*")[..|entry| - 2] == other;
      }
    } else {
      forall family
        ensures EndsWith(family + "/*", "/*")
      {
        FamilyEnds(family);
      }
    }
  }

  // ---------------------------------------------------------------------
  // Scanning what landed
  // ---------------------------------------------------------------------

  /** Delivers bytes as a stream cut at the given piece lengths. */
  function CutUp(b: seq<Byte>, pieces: seq<nat>): seq<Chunk> {
    if pieces == [] then (if b == [] then [] else [Bytes(b)])
    else [Bytes(Prefix(b, pieces[0]))] + CutUp(b[|Prefix(b, pieces[0])|..], pieces[1..])
  }

  lemma {:induction false} CutUpDelivers(b: seq<Byte>, pieces: seq<nat>)
    ensures BodyBytes(Stream(CutUp(b, pieces))) == b
  {
    if pieces == [] {
      if b != [] {
        assert Cuts([Bytes(b)]) == [b] + [];
        assert Flatten([b]) == b + Flatten([]);
      }
    } else {
      var p := Prefix(b, pieces[0]);
      var rest := CutUp(b[|p|..], pieces[1..]);
      CutUpDelivers(b[|p|..], pieces[1..]);
      assert Cuts([Bytes(p)] + rest) == [p] + Cuts(rest);
      assert ([p] + Cuts(rest))[1..] == Cuts(rest);
    }
  }

  /** Every way of cutting some bytes, empty pieces included, is one of these streams. */
  lemma {:induction false} EveryCutArises(parts: seq<seq<Byte>>) returns (pieces: seq<nat>)
    ensures |pieces| == |parts|
    ensures CutUp(Flatten(parts), pieces) == seq(|parts|, i requires 0 <= i < |parts| => Bytes(parts[i]))
  {
    if parts == [] {
      pieces := [];
    } else {
      var rest := EveryCutArises(parts[1..]);
      pieces := [|parts[0]|] + rest;
      var b := Flatten(parts);
      assert b == parts[0] + Flatten(parts[1..]);
      assert Prefix(b, |parts[0]|) == parts[0] && b[|parts[0]|..] == Flatten(parts[1..]);
      assert pieces[1..] == rest;
    }
  }

  /** The verdict a scan of the whole object would give. */
  function VerdictOf(item: StoredObject): ScanVerdict {
    var r := ScanOfBytes(item.body);
    ScanVerdict(r.status, r.threat)
  }

  predicate IsInfected(item: StoredObject) {
    VerdictOf(item).status == Infected
  }

  lemma EmptyIsClean()
    ensures ScanOfBytes([]).status == Clean
  {
  }

  /** What a range request for the scan prefix finds of a stored key. */
  function Scannable(objects: Objects, strictRanges: bool, k: Result<string, StorageError>): Result<StoredObject, StorageError> {
    if k.Err? then Err(k.error)
    else if k.value !in objects then Err(ObjectNotFound)
    else if objects[k.value].body == [] && strictRanges then Err(RangeNotSatisfiable)
    else Ok(objects[k.value])
  }

  /** What a scan, or a confirm, leaves: an infected object is gone, nothing else changes. */
  function Kept(objects: Objects, k: Result<string, StorageError>): Objects {
    if k.Ok? && k.value in objects && IsInfected(objects[k.value]) then objects - {k.value} else objects
  }

  class ScannerConfirm {
    const bucket: Bucket

    constructor (bucket: Bucket)
      ensures this.bucket == bucket
    {
      this.bucket := bucket;
    }

    /**
     * Downloads a prefix, scans it, and deletes the object when it is infected. The
     * verdict is that of the whole object, however the download is cut into pieces.
     */
    method Scan(rawKey: string, pieces: seq<nat>) returns (r: Result<ScanVerdict, StorageError>)
      requires bucket.Valid()
      modifies bucket
      ensures bucket.Valid()
      ensures var k := ComposeKey(bucket.keyPrefix, rawKey);
              && r == (match Scannable(old(bucket.objects), bucket.strictRanges, k)
                       case Err(e) => Err(e)
                       case Ok(item) => Ok(VerdictOf(item)))
              && bucket.objects == Kept(old(bucket.objects), k)
    {
      EmptyIsClean();
      var download := bucket.DownloadRange(rawKey, 0, SCAN_PREFIX_BYTES - 1);
      if download.Err? {
        return Err(download.error);
      }
      ghost var item := bucket.objects[ComposeKey(bucket.keyPrefix, rawKey).value];
      assert download.value.body == Prefix(item.body, SCAN_PREFIX_BYTES) by {
        assert item.body[0..] == item.body;
      }
      var body := Stream(CutUp(download.value.body, pieces));
      CutUpDelivers(download.value.body, pieces);
      RangedPrefixScansAlike(item.body, SCAN_PREFIX_BYTES);
      var result := MarkerScanner.Scan(Some(body), rawKey);
      assert result == ScanOfBytes(item.body);
      if result.status == Infected {
        var _ := bucket.Delete(rawKey);
        return Ok(ScanVerdict(Infected, result.threat));
      }
      r := Ok(ScanVerdict(result.status, None));
    }
  }

  function ReportOn(rawKey: string, item: StoredObject, policy: Policy): ConfirmReport {
    var sizeOk, mimeOk := IsSizeWithinPolicy(|item.body|, policy), IsMimeWithinPolicy(item.contentType, policy);
    var scan := VerdictOf(item);
    ConfirmReport(sizeOk && mimeOk && scan.status == Clean, rawKey, MetadataOf(item), scan,
                  sizeOk, mimeOk, scan.status == Clean)
  }

  function Confirmation(objects: Objects, keyPrefix: string, strictRanges: bool, rawKey: string, policy: Policy):
    Result<ConfirmReport, StorageError>
  {
    match Scannable(objects, strictRanges, ComposeKey(keyPrefix, rawKey))
    case Err(e) => Err(e)
    case Ok(item) => Ok(ReportOn(rawKey, item, policy))
  }

  class ConfirmService {
    const bucket: Bucket
    const policy: Policy
    const scanner: ScannerConfirm

    constructor (bucket: Bucket, policy: Policy, scanner: ScannerConfirm)
      requires scanner.bucket == bucket
      ensures this.bucket == bucket && this.policy == policy && this.scanner == scanner
    {
      this.bucket, this.policy, this.scanner := bucket, policy, scanner;
    }

    method Confirm(rawKey: string, pieces: seq<nat>) returns (r: Result<ConfirmReport, StorageError>)
      requires bucket.Valid() && scanner.bucket == bucket
      modifies bucket
      ensures bucket.Valid()
      ensures r == Confirmation(old(bucket.objects), bucket.keyPrefix, bucket.strictRanges, rawKey, policy)
      ensures bucket.objects == Kept(old(bucket.objects), ComposeKey(bucket.keyPrefix, rawKey))
    {
      var head := bucket.Head(rawKey);
      if head.Err? {
        return Err(head.error);
      }
      var sizeWithinPolicy := IsSizeWithinPolicy(head.value.size, policy);
      var mimeAllowed := IsMimeWithinPolicy(head.value.contentType, policy);
      var scan := scanner.Scan(rawKey, pieces);
      if scan.Err? {
        return Err(scan.error);
      }
      var scanClean := scan.value.status == Clean;
      r := Ok(ConfirmReport(sizeWithinPolicy && mimeAllowed && scanClean, rawKey, head.value, scan.value,
                            sizeWithinPolicy, mimeAllowed, scanClean));
    }
  }

  // ---------------------------------------------------------------------
  // What a report means
  // ---------------------------------------------------------------------

  /** The type is among those a whitelist names: everything, a family, or the type itself. */
  ghost predicate IsNamed(whitelist: seq<string>, contentType: string) {
    exists i :: 0 <= i < |whitelist| && Names(whitelist[i], contentType)
  }

  ghost predicate Names(entry: string, contentType: string) {
    || entry == "*" || entry == "*/*"
    || (exists family :: entry == family + "/*" && family + "/" <= contentType)
    || entry == contentType
  }

  lemma WhitelistMeans(contentType: Option<string>, policy: Policy)
    ensures IsMimeWithinPolicy(contentType, policy)
       <==> || policy.mimeWhitelist.None? || policy.mimeWhitelist.value == []
            || (contentType.Some? && contentType.value != [] && IsNamed(policy.mimeWhitelist.value, contentType.value))
  {
    if policy.mimeWhitelist.Some? && contentType.Some? {
      forall entry
        ensures EntryAllows(entry, contentType.value) <==> Names(entry, contentType.value)
      {
        EntryAllowsMeans(entry, contentType.value);
      }
    }
  }

  /**
   * Each check of a report means what it says: the size is within the limit if there is
   * one; the type is named by the whitelist if there is one; the first 4096 bytes hold
   * neither marker. `confirmed` is true exactly when all three hold.
   */
  lemma ConfirmedMeans(rawKey: string, item: StoredObject, policy: Policy)
    ensures var r := ReportOn(rawKey, item, policy);
            var infected := SpelledWithin(item.body, 4096, "X-DEMO-INFECTED");
            var unknown := SpelledWithin(item.body, 4096, "X-DEMO-UNKNOWN");
            && (r.sizeWithinPolicy <==> (policy.maxSizeBytes.Some? ==> |item.body| <= policy.maxSizeBytes.value))
            && (r.mimeAllowed
                <==> || policy.mimeWhitelist.None? || policy.mimeWhitelist.value == []
                     || (item.contentType.Some? && item.contentType.value != []
                         && IsNamed(policy.mimeWhitelist.value, item.contentType.value)))
            && (r.scanClean <==> !infected && !unknown)
            && (r.confirmed <==> r.sizeWithinPolicy && r.mimeAllowed && r.scanClean)
            && r.scan == (if infected then ScanVerdict(Infected, Some("Demo.Marker.A"))
                          else if unknown then ScanVerdict(Unknown, None) else ScanVerdict(Clean, None))
            && r.key == rawKey && r.metadata == Metadata(|item.body|, item.contentType, item.etag)
    ensures SCAN_PREFIX_BYTES == 4096
  {
    ScanOfBytesMeans(item.body);
    WhitelistMeans(item.contentType, policy);
  }

  /** Confirming again reports the same, or not-found for an object the first confirm removed. */
  lemma ConfirmAgain(objects: Objects, keyPrefix: string, strictRanges: bool, rawKey: string, policy: Policy)
    ensures var first := Confirmation(objects, keyPrefix, strictRanges, rawKey, policy);
            var left := Kept(objects, ComposeKey(keyPrefix, rawKey));
            && Confirmation(left, keyPrefix, strictRanges, rawKey, policy)
               == (if first.Ok? && first.value.scan.status == Infected then Err(ObjectNotFound) else first)
            && Kept(left, ComposeKey(keyPrefix, rawKey)) == left
  {
    EmptyIsClean();
  }

  // ---------------------------------------------------------------------
  // Whole runs of uploads and confirms
  // ---------------------------------------------------------------------

  datatype DirectOp = Put(rawKey: string, item: StoredObject) | ConfirmOp(rawKey: string)

  function Step(objects: Objects, keyPrefix: string, op: DirectOp): Objects {
    var k := ComposeKey(keyPrefix, op.rawKey);
    match op
    case Put(_, item) => if k.Ok? then objects[k.value := item] else objects
    case ConfirmOp(_) => Kept(objects, k)
  }

  function Run(objects: Objects, keyPrefix: string, ops: seq<DirectOp>): Objects {
    if ops == [] then objects else Step(Run(objects, keyPrefix, ops[..|ops| - 1]), keyPrefix, ops[|ops| - 1])
  }

  predicate Targets(keyPrefix: string, op: DirectOp, k: string) {
    ComposeKey(keyPrefix, op.rawKey) == Ok(k)
  }

  /** The latest upload to stored key `k`, or -1. */
  function LastPut(keyPrefix: string, ops: seq<DirectOp>, k: string): (i: int)
    ensures -1 <= i < |ops|
    ensures i >= 0 ==> ops[i].Put? && Targets(keyPrefix, ops[i], k)
    ensures forall j :: i < j < |ops| ==> !(ops[j].Put? && Targets(keyPrefix, ops[j], k))
  {
    if ops == [] then -1
    else
      var n := |ops| - 1;
      if ops[n].Put? && Targets(keyPrefix, ops[n], k) then n else LastPut(keyPrefix, ops[..n], k)
  }

  /** What last landed under `k`: the latest upload, or what was there at the start. */
  function Landed(objects: Objects, keyPrefix: string, ops: seq<DirectOp>, k: string): Option<StoredObject> {
    var i := LastPut(keyPrefix, ops, k);
    if i >= 0 then Some(ops[i].item) else if k in objects then Some(objects[k]) else None
  }

  ghost predicate ConfirmedSince(keyPrefix: string, ops: seq<DirectOp>, k: string) {
    exists j :: LastPut(keyPrefix, ops, k) < j < |ops| && ops[j].ConfirmOp? && Targets(keyPrefix, ops[j], k)
  }

  /**
   * After every run and for every stored key: the key holds what last landed there,
   * untouched, unless that is infected and has been confirmed since, in which case the
   * key is absent. So an infected object never outlives a confirm, and only an infected
   * object is ever removed.
   */
  lemma {:induction false} HistoryOfKey(objects: Objects, keyPrefix: string, ops: seq<DirectOp>, k: string)
    ensures var landed := Landed(objects, keyPrefix, ops, k);
            var now := Run(objects, keyPrefix, ops);
            && (k in now <==> landed.Some? && !(IsInfected(landed.value) && ConfirmedSince(keyPrefix, ops, k)))
            && (k in now ==> now[k] == landed.value)
    decreases |ops|
  {
    if ops != [] {
      var n := |ops| - 1;
      var front, op := ops[..n], ops[n];
      HistoryOfKey(objects, keyPrefix, front, k);
      ConfirmedSinceSnoc(keyPrefix, front, op, k);
      assert ops == front + [op];
    }
  }

  lemma ConfirmedSinceSnoc(keyPrefix: string, front: seq<DirectOp>, op: DirectOp, k: string)
    ensures var ops := front + [op];
            && LastPut(keyPrefix, ops, k)
               == (if op.Put? && Targets(keyPrefix, op, k) then |front| else LastPut(keyPrefix, front, k))
            && (ConfirmedSince(keyPrefix, ops, k)
                <==> !(op.Put? && Targets(keyPrefix, op, k))
                     && (ConfirmedSince(keyPrefix, front, k) || (op.ConfirmOp? && Targets(keyPrefix, op, k))))
  {
    var ops := front + [op];
    assert ops[..|front|] == front;
    assert forall j :: 0 <= j < |front| ==> ops[j] == front[j];
    assert ops[|front|] == op;
  }

  /**
   * An object that is not infected, so every confirmed one, stays as it is until the next
   * upload to its key, and confirming it goes on giving the same report.
   */
  lemma ConfirmedObjectsStay(objects: Objects, keyPrefix: string, strictRanges: bool, policy: Policy,
                             ops: seq<DirectOp>, rawKey: string, k: string)
    requires ComposeKey(keyPrefix, rawKey) == Ok(k) && k in objects
    ensures var report := Confirmation(objects, keyPrefix, strictRanges, rawKey, policy);
            var now := Run(Kept(objects, Ok(k)), keyPrefix, ops);
            && (report.Ok? && report.value.confirmed ==> !IsInfected(objects[k]))
            && (!IsInfected(objects[k]) && LastPut(keyPrefix, ops, k) < 0 ==>
                  k in now && now[k] == objects[k] && Confirmation(now, keyPrefix, strictRanges, rawKey, policy) == report)
  {
    HistoryOfKey(Kept(objects, Ok(k)), keyPrefix, ops, k);
  }
}
