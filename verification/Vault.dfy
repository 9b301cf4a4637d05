/**
 * Operations of the vault that change stored objects, and the guard on byte ranges.
 * An object lives at a location: a bucket and a resolved key. The archive bucket may be
 * the default bucket itself.
 */
module Vault {
  import opened Wrappers
  import opened Utf
  import opened Keys
  import opened Buckets
  import opened ObjectKeys
  import Base64

  const MAX_RANGE_BASE64_BYTES: nat := 50 * 1024 * 1024

  datatype RangeError = RangeInvalid | RangeTooLarge | Storage(error: StorageError)

  datatype BufferedDownload = BufferedDownload(base64: string, metadata: Metadata)

  /** `Math.ceil(n / 3) * 4`. */
  function EncodedSize(rawBytes: nat): nat {
    (rawBytes + 2) / 3 * 4
  }

  /**
   * The guard neither refuses a range whose encoding fits nor lets a larger one through:
   * a full answer to the range encodes within the limit exactly when the guard's span does.
   */
  lemma RangeGuardIsExact(bytes: seq<Byte>)
    ensures |bytes| <= 39_321_600 <==> |Base64.Encode(bytes)| <= MAX_RANGE_BASE64_BYTES
    ensures |Base64.Encode(bytes)| == EncodedSize(|bytes|)
  {
    Base64.EncodedLength(bytes);
  }

  datatype CopyResponse = CopyResponse(etag: string, source: string, destination: string, archived: bool)

  class VaultService {
    const bucket: Bucket
    const archive: Bucket

    constructor (bucket: Bucket, archive: Bucket)
      requires bucket.keyPrefix == archive.keyPrefix
      ensures this.bucket == bucket && this.archive == archive
    {
      this.bucket, this.archive := bucket, archive;
    }

    ghost predicate Valid()
      reads bucket, archive
    {
      bucket.Valid() && archive.Valid() && bucket.keyPrefix == archive.keyPrefix
    }

    /** The guard on the span comes before the provider is asked; the bytes travel as base64. */
    method DownloadRange(rawKey: string, start: nat, end: nat) returns (r: Result<BufferedDownload, RangeError>)
      ensures r == Err(RangeInvalid) <==> start > end
      ensures r == Err(RangeTooLarge) <==> end - start + 1 > 39_321_600
      ensures start <= end < start + 39_321_600 ==>
                match ComposeKey(bucket.keyPrefix, rawKey)
                case Err(e) => r == Err(Storage(e))
                case Ok(k) =>
                  if k !in bucket.objects then r == Err(Storage(ObjectNotFound))
                  else
                    var ranged := RangeOf(bucket.objects[k], start, end, bucket.strictRanges);
                    if ranged.Err? then r == Err(Storage(ranged.error))
                    else && r.Ok? && Base64.Decoded(r.value.base64) == Some(ranged.value.body)
                         && IsPart(ranged.value.body, bucket.objects[k].body, start, end)
                         && |r.value.base64| <= MAX_RANGE_BASE64_BYTES
                         && r.value.metadata == Metadata(|ranged.value.body|, bucket.objects[k].contentType, bucket.objects[k].etag)
                         && MAX_RANGE_BASE64_BYTES == 52_428_800
    {
      if start > end {
        return Err(RangeInvalid);
      }
      var rawBytes := end - start + 1;
      var base64Bytes := EncodedSize(rawBytes);
      if base64Bytes > MAX_RANGE_BASE64_BYTES {
        return Err(RangeTooLarge);
      }
      var ranged := bucket.DownloadRange(rawKey, start, end);
      if ranged.Err? {
        return Err(Storage(ranged.error));
      }
      RangeGuardIsExact(ranged.value.body);
      Base64.DecodeEncode(ranged.value.body);
      r := Ok(BufferedDownload(Base64.Encode(ranged.value.body), MetadataOf(ranged.value)));
    }

    /** True when present; false only for a confirmed absence; every other error is passed on. */
    method Exists(rawKey: string) returns (r: Result<bool, StorageError>)
      ensures var k := ComposeKey(bucket.keyPrefix, rawKey);
              r == if k.Ok? then Ok(k.value in bucket.objects) else Err(k.error)
    {
      var head := bucket.Head(rawKey);
      if head.Ok? {
        return Ok(true);
      }
      r := if head.error == ObjectNotFound then Ok(false) else Err(head.error);
    }

    /** Deletes and says whether there was nothing to delete. */
    method DeleteOne(rawKey: string) returns (r: Result<bool, StorageError>)
      requires Valid()
      modifies bucket
      ensures Valid()
      ensures var k := ComposeKey(bucket.keyPrefix, rawKey);
              && (k.Ok? ==> r == Ok(k.value !in old(bucket.objects)) && bucket.objects == old(bucket.objects) - {k.value})
              && (k.Err? ==> r == Err(k.error) && bucket.objects == old(bucket.objects))
    {
      var isExisting := Exists(rawKey);
      if isExisting.Err? {
        return Err(isExisting.error);
      }
      var _ := bucket.Delete(rawKey);
      r := Ok(!isExisting.value);
    }

    /**
     * Copies, then deletes the source when asked to. With distinct locations this is
     * a copy or a rename: the object is unchanged at the destination, a deleted source
     * is absent, and no other object of either bucket changes. An error changes nothing.
     */
    method Copy(sourceKey: string, destinationKey: string, toArchive: bool, deleteSource: bool)
      returns (r: Result<CopyResponse, StorageError>)
      requires Valid()
      modifies bucket, archive
      ensures Valid()
      ensures var elsewhere := toArchive && archive != bucket;
              var answer := CopyReply(old(bucket.objects), bucket.keyPrefix, bucket.refusesSelfCopy && !elsewhere, sourceKey, destinationKey);
              && r == (if answer.Err? then Err(answer.error)
                       else Ok(CopyResponse(answer.value.etag, sourceKey, destinationKey, toArchive)))
              && bucket.objects == AfterCopy(old(bucket.objects), bucket.keyPrefix, answer, sourceKey, destinationKey, !elsewhere, deleteSource)
      ensures var s, d := ComposeKey(bucket.keyPrefix, sourceKey), ComposeKey(bucket.keyPrefix, destinationKey);
              var here := !toArchive || archive == bucket;
              && (r == Err(KeyInvalid) <==> s.Err? || (s.value in old(bucket.objects) && d.Err?))
              && (r == Err(ObjectNotFound) <==> s.Ok? && s.value !in old(bucket.objects))
              && (r == Err(ProviderError) <==> s.Ok? && s.value in old(bucket.objects) && d == s && here && bucket.refusesSelfCopy)
              && r != Err(RangeNotSatisfiable)
              && (r.Ok? ==> r.value == CopyResponse(old(bucket.objects)[s.value].etag, sourceKey, destinationKey, toArchive))
      ensures r.Err? ==> bucket.objects == old(bucket.objects) && archive.objects == old(archive.objects)
      ensures r.Ok? ==>
                var s, d := Resolve(bucket.keyPrefix, sourceKey), Resolve(bucket.keyPrefix, destinationKey);
                var target := if toArchive then archive else bucket;
                var apart := target != bucket || d != s;
                var item := old(bucket.objects)[s];
                && (apart || !deleteSource ==> d in target.objects && target.objects[d] == item)
                && (deleteSource ==> s !in bucket.objects && (d in target.objects <==> apart))
                && (!deleteSource ==> s in bucket.objects && bucket.objects[s] == item)
                && (forall k :: k != s && !(target == bucket && k == d) ==>
                      && (k in bucket.objects <==> k in old(bucket.objects))
                      && (k in bucket.objects ==> bucket.objects[k] == old(bucket.objects)[k]))
                && (archive != bucket ==>
                      forall k :: !(toArchive && k == d) ==>
                        && (k in archive.objects <==> k in old(archive.objects))
                        && (k in archive.objects ==> archive.objects[k] == old(archive.objects)[k]))
    {
      var isSourcePresent := Exists(sourceKey);
      if isSourcePresent.Err? {
        return Err(isSourcePresent.error);
      }
      if !isSourcePresent.value {
        return Err(ObjectNotFound);
      }
      var target := if toArchive then archive else bucket;
      var copied := bucket.CopyTo(target, sourceKey, destinationKey);
      if copied.Err? {
        return Err(copied.error);
      }
      if deleteSource {
        var _ := bucket.Delete(sourceKey);
      }
      r := Ok(CopyResponse(copied.value.etag, sourceKey, destinationKey, toArchive));
    }
  }

  // ---------------------------------------------------------------------
  // Copying and renaming as functions of the stored objects
  // ---------------------------------------------------------------------

  /** The answer to a copy request: the source is looked for before anything is said about the destination. */
  function CopyReply(objects: Objects, keyPrefix: string, refusesSelf: bool, sourceKey: string, destinationKey: string):
    Result<StoredObject, StorageError>
  {
    var s := ComposeKey(keyPrefix, sourceKey);
    if s.Err? then Err(s.error)
    else if s.value !in objects then Err(ObjectNotFound)
    else CopyAnswer(objects, keyPrefix, refusesSelf, sourceKey, destinationKey)
  }

  /** The source's bucket after a copy, which wrote into it when `within`. */
  function AfterCopy(objects: Objects, keyPrefix: string, answer: Result<StoredObject, StorageError>,
                     sourceKey: string, destinationKey: string, within: bool, deleteSource: bool): Objects
  {
    if answer.Err? then objects
    else
      var written := if within then objects[Resolve(keyPrefix, destinationKey) := answer.value] else objects;
      if deleteSource then written - {Resolve(keyPrefix, sourceKey)} else written
  }

  /**
   * A rename within a bucket loses its object exactly when the provider accepts a copy
   * onto itself and the two keys, under any spelling, have the same segments and agree
   * on a trailing slash; it is refused with nothing changed exactly when the provider
   * does not.
   */
  lemma RenameLosesExactly(objects: Objects, keyPrefix: string, refuses: bool, source: string, destination: string)
    requires IsAccepted(source) && IsAccepted(destination)
    requires Resolve(keyPrefix, source) in objects
    ensures var answer := CopyReply(objects, keyPrefix, refuses, source, destination);
            var after := AfterCopy(objects, keyPrefix, answer, source, destination, true, true);
            var same := Segments(source) == Segments(destination) && Trails(source) == Trails(destination);
            && (Resolve(keyPrefix, destination) !in after <==> same && !refuses)
            && (answer == Err(ProviderError) <==> same && refuses)
            && (answer.Err? ==> after == objects)
            && (same && !refuses ==> after == objects - {Resolve(keyPrefix, source)})
            && (!same ==> after == (objects - {Resolve(keyPrefix, source)})
                                   [Resolve(keyPrefix, destination) := objects[Resolve(keyPrefix, source)]])
  {
    SameObjectExactlyWhenSameSegments(keyPrefix, source, destination);
  }

  /** The request schema admits two spellings of one key, and has no rule that they differ: renaming `a/b` to `a//b`. */
  lemma RespellingCanLose(keyPrefix: string, item: StoredObject)
    ensures IsObjectKey("a/b") && IsObjectKey("a//b") && "a/b" != "a//b"
    ensures var k := Resolve(keyPrefix, "a/b");
            var accepted := CopyReply(map[k := item], keyPrefix, false, "a/b", "a//b");
            var refused := CopyReply(map[k := item], keyPrefix, true, "a/b", "a//b");
            && accepted == Ok(item)
            && AfterCopy(map[k := item], keyPrefix, accepted, "a/b", "a//b", true, true) == map[]
            && refused == Err(ProviderError)
            && AfterCopy(map[k := item], keyPrefix, refused, "a/b", "a//b", true, true) == map[k := item]
  {
    AreObjectKeys();
    SpellingsOfOneKey();
    RenameLosesExactly(map[Resolve(keyPrefix, "a/b") := item], keyPrefix, false, "a/b", "a//b");
    RenameLosesExactly(map[Resolve(keyPrefix, "a/b") := item], keyPrefix, true, "a/b", "a//b");
  }

  lemma SpellingsOfOneKey()
    ensures IsAccepted("a/b") && IsAccepted("a//b")
    ensures Segments("a/b") == Segments("a//b") && Trails("a/b") == Trails("a//b")
  {
    SplitPart("b", "");
    SplitPart("a", "b");
    assert "a" + "/" + "b" == "a/b";
    SplitPart("", "b");
    assert "" + "/" + "b" == "/b";
    SplitPart("a", "/b");
    assert "a" + "/" + "/b" == "a//b";
    assert Split("a/b") == ["a", "b"];
    assert Split("a//b") == ["a", "", "b"];
    assert ["a", "", "b"][1..] == ["", "b"] && ["", "b"][1..] == ["b"] && ["a", "b"][1..] == ["b"];
    assert NonEmpty(["", "b"]) == NonEmpty(["b"]);
  }

  lemma AreObjectKeys()
    ensures IsObjectKey("a/b") && IsObjectKey("a//b")
  {
    AsciiKey("a/b");
    AsciiKey("a//b");
  }

  lemma {:induction false} AsciiKey(s: string)
    requires forall i :: 0 <= i < |s| ==> s[i] as int < 0x80 && !IsControl(s[i] as int)
    ensures |Encode(s)| == |s| && NoneIsControl(Encode(s))
  {
    if s != [] {
      AsciiKey(s[1..]);
      assert Encode(s) == [s[0] as int] + Encode(s[1..]);
    }
  }
}
