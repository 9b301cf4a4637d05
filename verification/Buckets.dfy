/**
 * The storage the services talk to: one bucket behind the library, whose keys are
 * resolved by `ComposeKey`. It lists in key order, one page at a time, each page
 * starting strictly after the last key of the page before; bulk deletion may fail
 * key by key.
 */
module Buckets {
  import opened Wrappers
  import opened Utf
  import opened Sequences
  import opened Keys
  import opened KeyOrder
  import opened BulkDeletion

  datatype StoredObject = StoredObject(body: seq<Byte>, contentType: Option<string>, etag: string)

  type Objects = map<string, StoredObject>

  datatype Metadata = Metadata(size: nat, contentType: Option<string>, etag: string)

  datatype ListedObject = ListedObject(key: string, size: nat, etag: string)

  datatype Page = Page(objects: seq<ListedObject>, next: Option<string>)

  function MetadataOf(o: StoredObject): Metadata {
    Metadata(|o.body|, o.contentType, o.etag)
  }

  /** The bytes at positions `first` to `last`, as far as there are any. */
  function Slice(b: seq<Byte>, first: nat, last: nat): seq<Byte>
    requires first <= last
  {
    Prefix(if first <= |b| then b[first..] else [], last - first + 1)
  }

  /** `part` is what `b` has at positions `first` to `last`, position by position. */
  ghost predicate IsPart(part: seq<Byte>, b: seq<Byte>, first: nat, last: nat) {
    && |part| == (if |b| <= first then 0 else if last < |b| then last + 1 - first else |b| - first)
    && forall i :: 0 <= i < |part| ==> part[i] == b[first + i]
  }

  /** A range that starts beyond the object is refused; on an empty object it may instead be ignored. */
  function RangeOf(item: StoredObject, first: nat, last: nat, strictRanges: bool): Result<StoredObject, StorageError>
    requires first <= last
  {
    if first >= |item.body| && (item.body != [] || strictRanges) then Err(RangeNotSatisfiable)
    else Ok(item.(body := Slice(item.body, first, last)))
  }

  // ---------------------------------------------------------------------
  // Stored keys and application keys
  // ---------------------------------------------------------------------

  /** The library's view of a stored key, with the global prefix taken off. */
  function Strip(keyPrefix: string, stored: string): string {
    var p := WithPrefix(TrimSlashes(keyPrefix), []);
    if p <= stored then stored[|p|..] else stored
  }

  /** Every key of a bucket was resolved by the library before it was stored. */
  ghost predicate IsStoredKey(keyPrefix: string, stored: string) {
    && WithPrefix(TrimSlashes(keyPrefix), []) <= stored
    && IsAccepted(Strip(keyPrefix, stored)) && NoTwo('/', Strip(keyPrefix, stored))
  }

  lemma ResolvedIsStored(keyPrefix: string, rawKey: string)
    requires IsAccepted(rawKey)
    ensures var stored := WithPrefix(TrimSlashes(keyPrefix), Collapse(rawKey));
            IsStoredKey(keyPrefix, stored) && Strip(keyPrefix, stored) == Collapse(rawKey)
  {
    CollapseIsNormal(rawKey);
    CollapseKeepsAccepted(rawKey);
    CollapseFixed(Collapse(rawKey));
    var p := TrimSlashes(keyPrefix);
    if p != [] {
      assert (p + "/" + Collapse(rawKey))[|p| + 1..] == Collapse(rawKey);
      assert p + "/" + [] == p + "/";
    }
  }

  /** Resolving the application key of a listed object leads back to the object. */
  lemma StripResolves(keyPrefix: string, stored: string)
    requires IsStoredKey(keyPrefix, stored)
    ensures ComposeKey(keyPrefix, Strip(keyPrefix, stored)) == Ok(stored)
  {
    StripPrefix(keyPrefix, stored);
    CollapseFixed(Strip(keyPrefix, stored));
  }

  lemma SplitFront<T>(front: seq<T>, s: seq<T>)
    requires front <= s
    ensures s == front + s[|front|..]
  {
  }

  /** The global prefix goes in front of an application key, and nothing else. */
  lemma StripPrefix(keyPrefix: string, stored: string)
    requires IsStoredKey(keyPrefix, stored)
    ensures stored == WithPrefix(TrimSlashes(keyPrefix), Strip(keyPrefix, stored))
  {
    var p := TrimSlashes(keyPrefix);
    SplitFront(WithPrefix(p, []), stored);
    if p != [] {
      assert p + "/" + [] == p + "/";
    }
  }

  ghost predicate AllAccepted(rawKeys: seq<string>) {
    forall i {:trigger IsAccepted(rawKeys[i])} :: 0 <= i < |rawKeys| ==> IsAccepted(rawKeys[i])
  }

  ghost predicate AllStored(keyPrefix: string, objects: Objects) {
    forall k {:trigger IsStoredKey(keyPrefix, k)} :: k in objects ==> IsStoredKey(keyPrefix, k)
  }

  // ---------------------------------------------------------------------
  // Listing as a function of the stored objects
  // ---------------------------------------------------------------------

  ghost function Under(objects: Objects, prefix: string): set<string> {
    set k | k in objects && prefix <= k
  }

  function Listed(objects: Objects, keyPrefix: string, k: string): ListedObject
    requires k in objects
  {
    ListedObject(Strip(keyPrefix, k), |objects[k].body|, objects[k].etag)
  }

  function ListedAll(objects: Objects, keyPrefix: string, keys: seq<string>): (r: seq<ListedObject>)
    requires forall k :: k in keys ==> k in objects
    ensures |r| == |keys| && forall i :: 0 <= i < |keys| ==> r[i] == Listed(objects, keyPrefix, keys[i])
  {
    seq(|keys|, i requires 0 <= i < |keys| => Listed(objects, keyPrefix, keys[i]))
  }

  /** The keys still to be listed under a stored prefix after a continuation key, in listing order. */
  ghost function Remaining(objects: Objects, prefix: string, after: Option<string>): (q: seq<string>)
    ensures forall k :: k in q ==> k in objects && prefix <= k
  {
    var q := Sorted(Beyond(Under(objects, prefix), after));
    SortedIsSorted(Beyond(Under(objects, prefix), after));
    assert forall k :: k in q ==> k in Members(q);
    q
  }

  ghost function PageOf(objects: Objects, keyPrefix: string, prefix: string, after: Option<string>, maxKeys: nat): Page
    requires 1 <= maxKeys
  {
    var q := Remaining(objects, prefix, after);
    if |q| <= maxKeys then Page(ListedAll(objects, keyPrefix, q), None)
    else Page(ListedAll(objects, keyPrefix, q[..maxKeys]), Some(q[maxKeys - 1]))
  }

  // ---------------------------------------------------------------------
  // The bucket
  // ---------------------------------------------------------------------

  class Bucket {
    const keyPrefix: string
    /** Whether a range request on an empty object is refused (section 14.1.2 of RFC 9110 lets a server do so). */
    const strictRanges: bool
    /** Whether copying an object onto itself with nothing changed is refused, as Amazon S3 does. */
    const refusesSelfCopy: bool
    var objects: Objects

    ghost predicate Valid()
      reads this
    {
      AllStored(keyPrefix, objects)
    }

    constructor (keyPrefix: string, strictRanges: bool, refusesSelfCopy: bool)
      ensures Valid() && objects == map[]
      ensures this.keyPrefix == keyPrefix && this.strictRanges == strictRanges && this.refusesSelfCopy == refusesSelfCopy
    {
      this.keyPrefix, this.strictRanges, this.refusesSelfCopy := keyPrefix, strictRanges, refusesSelfCopy;
      objects := map[];
    }

    /** The library's upload, or a client's presigned PUT on the key the library signed. */
    method Put(rawKey: string, item: StoredObject) returns (r: Result<string, StorageError>)
      requires Valid()
      modifies this
      ensures Valid() && r == ComposeKey(keyPrefix, rawKey)
      ensures objects == if r.Ok? then old(objects)[r.value := item] else old(objects)
    {
      r := ComposeKey(keyPrefix, rawKey);
      if r.Ok? {
        ResolvedIsStored(keyPrefix, rawKey);
        objects := objects[r.value := item];
      }
    }

    method Head(rawKey: string) returns (r: Result<Metadata, StorageError>)
      ensures r == match ComposeKey(keyPrefix, rawKey)
                   case Err(e) => Err(e)
                   case Ok(k) =>
                     if k !in objects then Err(ObjectNotFound)
                     else Ok(Metadata(|objects[k].body|, objects[k].contentType, objects[k].etag))
    {
      var k := ComposeKey(keyPrefix, rawKey);
      if k.Err? {
        return Err(k.error);
      }
      r := if k.value in objects then Ok(MetadataOf(objects[k.value])) else Err(ObjectNotFound);
    }

    /** Downloads with `range: bytes=first-last`. */
    method DownloadRange(rawKey: string, first: nat, last: nat) returns (r: Result<StoredObject, StorageError>)
      requires first <= last
      ensures r == match ComposeKey(keyPrefix, rawKey)
                   case Err(e) => Err(e)
                   case Ok(k) => if k in objects then RangeOf(objects[k], first, last, strictRanges) else Err(ObjectNotFound)
      ensures var k := ComposeKey(keyPrefix, rawKey);
              k.Ok? && k.value in objects ==>
                var item := objects[k.value];
                && (r == Err(RangeNotSatisfiable) <==> |item.body| <= first && (item.body == [] ==> strictRanges))
                && (r.Ok? ==> r.value.contentType == item.contentType && r.value.etag == item.etag
                              && IsPart(r.value.body, item.body, first, last))
    {
      var k := ComposeKey(keyPrefix, rawKey);
      if k.Err? {
        return Err(k.error);
      }
      r := if k.value in objects then RangeOf(objects[k.value], first, last, strictRanges) else Err(ObjectNotFound);
    }

    /** Idempotent: deleting an absent key succeeds. */
    method Delete(rawKey: string) returns (r: Result<string, StorageError>)
      requires Valid()
      modifies this
      ensures Valid() && r == ComposeKey(keyPrefix, rawKey)
      ensures objects == if r.Ok? then old(objects) - {r.value} else old(objects)
    {
      r := ComposeKey(keyPrefix, rawKey);
      if r.Ok? {
        objects := objects - {r.value};
      }
    }

    /** Server-side copy into this bucket or another one; answers with the object copied. */
    method CopyTo(target: Bucket, sourceKey: string, destinationKey: string) returns (r: Result<StoredObject, StorageError>)
      requires Valid() && target.Valid() && target.keyPrefix == keyPrefix
      modifies target
      ensures Valid() && target.Valid()
      ensures r == CopyAnswer(old(objects), keyPrefix, refusesSelfCopy && target == this, sourceKey, destinationKey)
      ensures target.objects == if r.Ok? then old(target.objects)[Resolve(keyPrefix, destinationKey) := r.value]
                                else old(target.objects)
    {
      var s, d := ComposeKey(keyPrefix, sourceKey), ComposeKey(keyPrefix, destinationKey);
      if s.Err? || d.Err? {
        return Err(KeyInvalid);
      }
      if s.value !in objects {
        return Err(ObjectNotFound);
      }
      if refusesSelfCopy && target == this && s.value == d.value {
        return Err(ProviderError);
      }
      var item := objects[s.value];
      var _ := target.Put(destinationKey, item);
      r := Ok(item);
    }

    method List(prefix: string, after: Option<string>, maxKeys: nat) returns (page: Page)
      requires 1 <= maxKeys
      ensures page == PageOf(objects, keyPrefix, WithPrefix(TrimSlashes(keyPrefix), prefix), after, maxKeys)
    {
      var full := WithPrefix(TrimSlashes(keyPrefix), prefix);
      var rest := set k | k in objects && full <= k && (after.None? || Less(after.value, k));
      assert rest == Beyond(Under(objects, full), after);
      ghost var all := Remaining(objects, full, after);
      var shown, more := FirstKeys(rest, maxKeys);
      assert forall k :: k in shown ==> k in all;
      page := Page(ListedAll(objects, keyPrefix, shown), if more then Some(shown[maxKeys - 1]) else None);
    }

    /** Deletes key by key; `denied` holds the stored keys the provider refuses to delete, with its reasons. */
    method DeleteMany(rawKeys: seq<string>, denied: map<string, string>) returns (report: DeleteReport<string>)
      requires Valid()
      requires AllAccepted(rawKeys)
      modifies this
      ensures Valid()
      ensures var stored := StoredNames(keyPrefix, rawKeys);
              && objects == LeftOf(old(objects), stored, |stored|, denied)
              && report == ReportOf(rawKeys, stored, |rawKeys|, denied)
    {
      report := DeleteReport([], []);
      ghost var stored := StoredNames(keyPrefix, rawKeys);
      var i := 0;
      assert Members(stored[..0]) == {};
      while i < |rawKeys|
        invariant 0 <= i <= |rawKeys|
        invariant Valid()
        invariant objects == LeftOf(old(objects), stored, i, denied)
        invariant report == ReportOf(rawKeys, stored, i, denied)
      {
        assert IsAccepted(rawKeys[i]);
        var k := ComposeKey(keyPrefix, rawKeys[i]).value;
        LeftNext(old(objects), stored, i, denied);
        if k !in denied {
          objects := objects - {k};
        }
        report := WithOutcome(report, rawKeys[i], k, denied);
        i := i + 1;
      }
    }
  }

  /** What a copy copies, or why it does not: an unacceptable key, no source, or a refused copy onto itself. */
  function CopyAnswer(objects: Objects, keyPrefix: string, refusesSelf: bool, sourceKey: string, destinationKey: string):
    Result<StoredObject, StorageError>
  {
    var s, d := ComposeKey(keyPrefix, sourceKey), ComposeKey(keyPrefix, destinationKey);
    if s.Err? || d.Err? then Err(KeyInvalid)
    else if s.value !in objects then Err(ObjectNotFound)
    else if refusesSelf && s.value == d.value then Err(ProviderError)
    else Ok(objects[s.value])
  }

  function Resolve(keyPrefix: string, rawKey: string): string {
    WithPrefix(TrimSlashes(keyPrefix), Collapse(rawKey))
  }

  function StoredNames(keyPrefix: string, rawKeys: seq<string>): (r: seq<string>)
    ensures |r| == |rawKeys| && forall i :: 0 <= i < |rawKeys| ==> r[i] == Resolve(keyPrefix, rawKeys[i])
  {
    seq(|rawKeys|, i requires 0 <= i < |rawKeys| => Resolve(keyPrefix, rawKeys[i]))
  }
}
