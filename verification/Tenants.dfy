/**
 * Tenant-scoped objects. Isolation rests on key composition alone: every key is
 * `{tenant}/{category}/{uuid}.{ext}` behind the one global prefix, and every list and
 * clear is scoped to `{tenant}/`.
 */
module Tenants {
  import opened Wrappers
  import opened Utf
  import opened BulkDeletion
  import opened Keys
  import opened KeyOrder
  import opened Buckets
  import opened Sequences
  import PublicUrls

  const DEFAULT_EXTENSION := "txt"
  const TENANT_CONTENT_TYPE := "text/plain"
  /** The library's page size when the caller names none. */
  const DEFAULT_MAX_KEYS: nat := 1000

  predicate IsSlugChar(c: char) {
    'a' <= c <= 'z' || '0' <= c <= '9' || c == '-'
  }

  predicate IsSlugText(s: string) {
    s != [] && forall c :: c in s ==> IsSlugChar(c)
  }

  /** The tenant slug the controller admits: 2 to 32 characters. */
  predicate IsTenantSlug(s: string) {
    2 <= |s| <= 32 && IsSlugText(s)
  }

  predicate IsCategory(s: string) {
    |s| <= 32 && IsSlugText(s)
  }

  function TenantPrefix(tenant: string, category: Option<string>): string {
    if category.Some? then tenant + "/" + category.value + "/" else tenant + "/"
  }

  function TenantKey(tenant: string, category: string, uuid: string, extension: Option<string>): string {
    tenant + "/" + category + "/" + uuid + "." + if extension.Some? then extension.value else DEFAULT_EXTENSION
  }

  /** What the request schemas admit, and a UUID's characters. */
  predicate IsUploadShape(tenant: string, category: string, uuid: string, extension: Option<string>) {
    && IsTenantSlug(tenant) && IsCategory(category) && IsSlugText(uuid)
    && (extension.Some? ==> IsSlugText(extension.value) && |extension.value| <= 8)
  }

  // ---------------------------------------------------------------------
  // Scopes
  // ---------------------------------------------------------------------

  /** The stored prefix of a tenant, or of one of its categories. */
  function Scope(keyPrefix: string, tenant: string, category: Option<string>): string {
    WithPrefix(TrimSlashes(keyPrefix), TenantPrefix(tenant, category))
  }

  lemma NoTwoConcat(c: char, a: string, b: string)
    requires NoTwo(c, a) && NoTwo(c, b)
    requires a != [] && b != [] ==> a[|a| - 1] != c || b[0] != c
    ensures NoTwo(c, a + b)
  {
    var s := a + b;
    forall i | 0 <= i < |s| - 1
      ensures !(s[i] == c && s[i + 1] == c)
    {
      if i >= |a| {
        assert s[i] == b[i - |a|] && s[i + 1] == b[i + 1 - |a|];
      } else if i + 1 < |a| {
        assert s[i] == a[i] && s[i + 1] == a[i + 1];
      }
    }
  }

  lemma SlugHasNoSeparators(s: string)
    requires IsSlugText(s)
    ensures '/' !in s && '.' !in s && NoTwo('/', s) && NoTwo('.', s)
    ensures s[0] != '/' && s[|s| - 1] != '/' && s[0] != '.' && s[|s| - 1] != '.'
  {
    assert s[0] in s && s[|s| - 1] in s;
  }

  /** Joining two texts with one separator between them keeps separators apart. */
  lemma JoinedStaysNormal(a: string, separator: string, b: string)
    requires separator == "/" || separator == "."
    requires a != [] && NoTwo('/', a) && NoTwo('.', a) && a[|a| - 1] != '/' && a[|a| - 1] != '.'
    requires IsSlugText(b)
    ensures var k := a + separator + b;
            NoTwo('/', k) && NoTwo('.', k) && k[0] == a[0] && k[|k| - 1] != '/' && k[|k| - 1] != '.'
  {
    SlugHasNoSeparators(b);
    NoTwoConcat('/', a, separator);
    NoTwoConcat('.', a, separator);
    NoTwoConcat('/', a + separator, b);
    NoTwoConcat('.', a + separator, b);
  }

  /** The library takes a composed tenant key as it is: nothing to refuse, nothing to collapse. */
  lemma TenantKeyIsNormal(keyPrefix: string, tenant: string, category: string, uuid: string, extension: Option<string>)
    requires IsUploadShape(tenant, category, uuid, extension)
    ensures var key := TenantKey(tenant, category, uuid, extension);
            && ComposeKey(keyPrefix, key) == Ok(WithPrefix(TrimSlashes(keyPrefix), key))
            && IsAccepted(key) && NoTwo('/', key)
            && TenantPrefix(tenant, Some(category)) <= key
  {
    var ext := if extension.Some? then extension.value else DEFAULT_EXTENSION;
    var k1 := tenant + "/" + category;
    var k2 := k1 + "/" + uuid;
    var key := TenantKey(tenant, category, uuid, extension);
    SlugHasNoSeparators(tenant);
    JoinedStaysNormal(tenant, "/", category);
    JoinedStaysNormal(k1, "/", uuid);
    JoinedStaysNormal(k2, ".", ext);
    assert key == k2 + "." + ext;
    NoTwoDotsNoTraversal(key);
    CollapseFixed(key);
    assert key[..|tenant + "/" + category + "/"|] == tenant + "/" + category + "/";
  }

  lemma DotStands(a: string, x: string)
    requires '.' !in a
    ensures (a + "." + x)[|a|] == '.' && forall i :: 0 <= i < |a| ==> (a + "." + x)[i] != '.'
  {
  }

  lemma FirstDot(a: string, x: string, b: string, y: string)
    requires '.' !in a && '.' !in b && a + "." + x == b + "." + y
    ensures a == b && x == y
  {
    DotStands(a, x);
    DotStands(b, y);
    var s := a + "." + x;
    assert |a| == |b|;
    assert s[..|a|] == a && s[..|b|] == b;
    assert s[|a| + 1..] == x && s[|b| + 1..] == y;
  }

  lemma KeyShape<T>(a: seq<T>, s: seq<T>, b: seq<T>, c: seq<T>, d: seq<T>, e: seq<T>)
    ensures a + s + b + s + c + d + e == a + s + (b + s + (c + d + e))
  {
  }

  lemma TenantKeyParts(tenant: string, category: string, uuid: string, extension: Option<string>)
    requires IsUploadShape(tenant, category, uuid, extension)
    ensures Split(TenantKey(tenant, category, uuid, extension))
         == [tenant, category, uuid + "." + if extension.Some? then extension.value else "txt"]
  {
    var ext := if extension.Some? then extension.value else "txt";
    var file := uuid + "." + ext;
    SlugHasNoSeparators(tenant);
    SlugHasNoSeparators(category);
    assert '/' !in file by {
      SlugHasNoSeparators(uuid);
      SlugHasNoSeparators(ext);
    }
    SplitPart(file, []);
    SplitPart(category, file);
    SplitPart(tenant, category + "/" + file);
    KeyShape(tenant, "/", category, uuid, ".", ext);
    assert [category] + [file] == [category, file] && [tenant] + [category, file] == [tenant, category, file];
  }

  /** Two uploads share a key only if tenant, category, generated id and extension all agree. */
  lemma KeysTellUploadsApart(tenant: string, category: string, uuid: string, extension: Option<string>,
                             tenant': string, category': string, uuid': string, extension': Option<string>)
    requires IsUploadShape(tenant, category, uuid, extension) && IsUploadShape(tenant', category', uuid', extension')
    requires TenantKey(tenant, category, uuid, extension) == TenantKey(tenant', category', uuid', extension')
    ensures tenant == tenant' && category == category' && uuid == uuid'
    ensures (if extension.Some? then extension.value else "txt") == (if extension'.Some? then extension'.value else "txt")
  {
    TenantKeyParts(tenant, category, uuid, extension);
    TenantKeyParts(tenant', category', uuid', extension');
    var parts := Split(TenantKey(tenant, category, uuid, extension));
    SlugHasNoSeparators(uuid);
    SlugHasNoSeparators(uuid');
    assert tenant == parts[0] == tenant' && category == parts[1] == category';
    assert parts[2] == uuid' + "." + if extension'.Some? then extension'.value else "txt";
    FirstDot(uuid, if extension.Some? then extension.value else "txt",
             uuid', if extension'.Some? then extension'.value else "txt");
  }

  lemma PrefixesCompose(front: string, a: string, k: string)
    requires WithPrefix(front, a) <= k
    ensures WithPrefix(front, []) <= k && a <= k[|WithPrefix(front, [])|..]
  {
    if front != [] {
      var n := |front| + 1;
      assert front + "/" + [] == front + "/";
      assert (front + "/" + a)[..n] == front + "/";
      assert k[..n + |a|] == front + "/" + a;
      assert k[n..][..|a|] == a;
    }
  }

  /** A slug ends at the first slash, so no key lies in two tenants' scopes, even when one slug is a prefix of the other. */
  lemma ScopesAreDisjoint(keyPrefix: string, a: string, b: string, category: Option<string>, k: string)
    requires IsTenantSlug(a) && IsTenantSlug(b)
    requires Scope(keyPrefix, a, None) <= k && Scope(keyPrefix, b, category) <= k
    ensures a == b
  {
    var front := TrimSlashes(keyPrefix);
    PrefixesCompose(front, TenantPrefix(a, None), k);
    PrefixesCompose(front, TenantPrefix(b, category), k);
    var rest := k[|WithPrefix(front, [])|..];
    var p := TenantPrefix(b, category);
    assert rest[..|p|] == p && p[..|b| + 1] == b + "/";
    assert rest[..|b| + 1] == b + "/";
    FirstSegment(a, rest);
    FirstSegment(b, rest);
  }

  lemma FirstSegment(slug: string, s: string)
    requires IsSlugText(slug) && slug + "/" <= s
    ensures Split(s)[0] == slug
  {
    SlugHasNoSeparators(slug);
    var t := s[|slug| + 1..];
    assert s == s[..|slug| + 1] + t && s[..|slug| + 1] == slug + "/";
    SplitPart(slug, t);
  }

  /** A category's scope lies inside its tenant's. */
  lemma ScopeNests(keyPrefix: string, tenant: string, category: Option<string>, k: string)
    requires Scope(keyPrefix, tenant, category) <= k
    ensures Scope(keyPrefix, tenant, None) <= k
  {
    var s, t := Scope(keyPrefix, tenant, category), Scope(keyPrefix, tenant, None);
    assert TenantPrefix(tenant, category)[..|tenant| + 1] == tenant + "/";
    assert s[..|t|] == t;
    assert k[..|s|] == s;
    assert k[..|t|] == k[..|s|][..|t|];
  }

  // ---------------------------------------------------------------------
  // Clearing as a function of the stored objects
  // ---------------------------------------------------------------------

  function AppKeys(keyPrefix: string, stored: seq<string>): (r: seq<string>)
    ensures |r| == |stored| && forall i :: 0 <= i < |stored| ==> r[i] == Strip(keyPrefix, stored[i])
  {
    seq(|stored|, i requires 0 <= i < |stored| => Strip(keyPrefix, stored[i]))
  }

  datatype ClearView = ClearView(deleted: nat, failed: nat, failures: seq<Failure<string>>)

  function ViewOf(report: DeleteReport<string>): ClearView {
    ClearView(|report.deleted|, |report.failed|, report.failed)
  }

  ghost function Cleared(objects: Objects, scope: string, denied: map<string, string>): Objects {
    objects - (Under(objects, scope) - denied.Keys)
  }

  ghost function ClearReport(objects: Objects, keyPrefix: string, scope: string, denied: map<string, string>): DeleteReport<string> {
    var all := Remaining(objects, scope, None);
    ReportOf(AppKeys(keyPrefix, all), all, |all|, denied)
  }

  /** The library resolves the application keys of listed objects back to the objects. */
  lemma AppKeysResolve(keyPrefix: string, objects: Objects, stored: seq<string>)
    requires AllStored(keyPrefix, objects) && forall k :: k in stored ==> k in objects
    ensures AllAccepted(AppKeys(keyPrefix, stored))
    ensures StoredNames(keyPrefix, AppKeys(keyPrefix, stored)) == stored
  {
    var app := AppKeys(keyPrefix, stored);
    forall i | 0 <= i < |stored|
      ensures Resolve(keyPrefix, app[i]) == stored[i] && IsAccepted(app[i])
    {
      assert stored[i] in stored;
      assert IsStoredKey(keyPrefix, stored[i]);
      StripResolves(keyPrefix, stored[i]);
    }
  }

  /** Deleting keys that have already been listed does not disturb the pages still to come. */
  lemma RestIsUndisturbed(before: Objects, scope: string, denied: map<string, string>, n: nat)
    requires n <= |Remaining(before, scope, None)|
    ensures var all := Remaining(before, scope, None);
            Remaining(LeftOf(before, all, n, denied), scope, CursorAt(all, n)) == all[n..]
  {
    var s := Under(before, scope);
    assert Beyond(s, None) == s;
    var all := Sorted(s);
    assert Remaining(before, scope, None) == all;
    var now := LeftOf(before, all, n, denied);
    SortedIsSorted(s);
    if n == 0 {
      assert Members(all[..0]) == {} && now == before && all[0..] == all;
    } else {
      SortedBeyond(s, n);
      var cursor := all[n - 1];
      forall k | k in Members(all[..n])
        ensures !Less(cursor, k)
      {
        var i :| 0 <= i < n && all[i] == k;
        IndexOrder(all, n - 1, i);
      }
      assert Beyond(Under(now, scope), Some(cursor)) == Beyond(s, Some(cursor));
    }
  }

  lemma IncreasingIsDistinct(q: seq<string>)
    requires Increasing(q)
    ensures Distinct(q)
  {
    forall i, j | 0 <= i < j < |q|
      ensures q[i] != q[j]
    {
      assert Less(q[i], q[j]);
      LessIsStrict(q[i]);
    }
  }

  /**
   * Clearing accounts for every object of the tenant and for nothing else: the counts
   * add up to the initial number, what is left in the scope is exactly what the
   * provider refused to delete, each failure is such a refusal with its reason, and no
   * other object changes.
   */
  lemma ClearIsExact(objects: Objects, keyPrefix: string, scope: string, denied: map<string, string>)
    requires AllStored(keyPrefix, objects)
    ensures var report := ClearReport(objects, keyPrefix, scope, denied);
            var left := Cleared(objects, scope, denied);
            && |report.deleted| + |report.failed| == |Under(objects, scope)|
            && Under(left, scope) == Under(objects, scope) * denied.Keys
            && |report.failed| == |Under(left, scope)|
            && AreRefusals(report.failed, Under(objects, scope), denied, k => Resolve(keyPrefix, k))
            && (forall k :: k in left ==> k in objects && left[k] == objects[k])
            && (forall k :: k in objects && !(scope <= k) ==> k in left)
  {
    var s := Under(objects, scope);
    assert Beyond(s, None) == s;
    SortedIsSorted(s);
    var all := Remaining(objects, scope, None);
    IncreasingIsDistinct(all);
    ReportCounts(AppKeys(keyPrefix, all), all, |all|, denied);
    ClearFailures(objects, keyPrefix, scope, denied);
    assert all[..|all|] == all;
    var left := Cleared(objects, scope, denied);
    assert Under(left, scope) == s * denied.Keys;
  }

  /**
   * What a clear leaves and tells of it: of the keys under the scope exactly the refused
   * ones stay, nothing else changes; `deleted` counts the others, `failed` the refused
   * ones, and the failures are exactly theirs, with the provider's reasons.
   */
  ghost predicate IsClearedView(view: ClearView, before: Objects, left: Objects, keyPrefix: string, scope: string,
                                denied: map<string, string>)
  {
    var mine := set k | k in before && scope <= k;
    && (forall k :: k in left <==> k in before && (scope <= k ==> k in denied))
    && (forall k :: k in left ==> left[k] == before[k])
    && view.deleted == |mine - denied.Keys|
    && view.failed == |mine * denied.Keys| == |view.failures|
    && (forall f :: f in view.failures ==> IsRefusal(f, mine, keyPrefix, denied))
    && (forall k :: k in mine * denied.Keys ==> exists f :: f in view.failures && WithPrefix(TrimSlashes(keyPrefix), f.key) == k)
  }

  ghost predicate IsRefusal(f: Failure<string>, mine: set<string>, keyPrefix: string, denied: map<string, string>) {
    var k := WithPrefix(TrimSlashes(keyPrefix), f.key);
    k in mine && k in denied && f.error == denied[k]
  }

  lemma ClearedKeys(objects: Objects, scope: string, denied: map<string, string>)
    ensures forall k :: k in Cleared(objects, scope, denied) <==> k in objects && (scope <= k ==> k in denied)
    ensures forall k :: k in Cleared(objects, scope, denied) ==> Cleared(objects, scope, denied)[k] == objects[k]
    ensures Under(objects, scope) == set k | k in objects && scope <= k
  {
  }

  /** The application keys a clear submits, put behind the global prefix, are the keys it listed. */
  lemma SubmittedAreMine(objects: Objects, keyPrefix: string, scope: string)
    requires AllStored(keyPrefix, objects)
    ensures var all := Remaining(objects, scope, None);
            forall i :: 0 <= i < |all| ==>
              all[i] in Under(objects, scope) && WithPrefix(TrimSlashes(keyPrefix), AppKeys(keyPrefix, all)[i]) == all[i]
  {
    var all := Remaining(objects, scope, None);
    forall i | 0 <= i < |all|
      ensures all[i] in Under(objects, scope) && WithPrefix(TrimSlashes(keyPrefix), AppKeys(keyPrefix, all)[i]) == all[i]
    {
      assert all[i] in all;
      assert IsStoredKey(keyPrefix, all[i]);
      StripPrefix(keyPrefix, all[i]);
    }
  }

  lemma FailuresAreMine(objects: Objects, keyPrefix: string, scope: string, denied: map<string, string>, f: Failure<string>)
    requires AllStored(keyPrefix, objects) && f in ClearReport(objects, keyPrefix, scope, denied).failed
    ensures IsRefusal(f, Under(objects, scope), keyPrefix, denied)
  {
    var all := Remaining(objects, scope, None);
    FailedAreNamed(AppKeys(keyPrefix, all), all, |all|, denied, f);
    SubmittedAreMine(objects, keyPrefix, scope);
  }

  lemma RefusedAreReported(objects: Objects, keyPrefix: string, scope: string, denied: map<string, string>, k: string)
    returns (f: Failure<string>)
    requires AllStored(keyPrefix, objects) && k in Under(objects, scope) && k in denied
    ensures f in ClearReport(objects, keyPrefix, scope, denied).failed && WithPrefix(TrimSlashes(keyPrefix), f.key) == k
  {
    var all := Remaining(objects, scope, None);
    var app := AppKeys(keyPrefix, all);
    RemainingIs(objects, scope, None);
    SubmittedAreMine(objects, keyPrefix, scope);
    var i :| 0 <= i < |all| && all[i] == k;
    f := Failure(app[i], denied[k]);
    assert FailedAt(app, all, denied, i, f);
    FailedAreNamed(app, all, |all|, denied, f);
  }

  lemma SplitCount<T>(a: set<T>, b: set<T>)
    ensures |a| == |a - b| + |a * b|
  {
    assert a == (a - b) + (a * b);
  }

  lemma ClearViewMeans(objects: Objects, keyPrefix: string, scope: string, denied: map<string, string>)
    requires AllStored(keyPrefix, objects)
    ensures IsClearedView(ViewOf(ClearReport(objects, keyPrefix, scope, denied)), objects, Cleared(objects, scope, denied),
                          keyPrefix, scope, denied)
  {
    var mine := Under(objects, scope);
    var failed := ClearReport(objects, keyPrefix, scope, denied).failed;
    ClearedKeys(objects, scope, denied);
    ClearIsExact(objects, keyPrefix, scope, denied);
    SplitCount(mine, denied.Keys);
    forall f | f in failed
      ensures IsRefusal(f, mine, keyPrefix, denied)
    {
      FailuresAreMine(objects, keyPrefix, scope, denied, f);
    }
    forall k | k in mine * denied.Keys
      ensures exists f :: f in failed && WithPrefix(TrimSlashes(keyPrefix), f.key) == k
    {
      var f := RefusedAreReported(objects, keyPrefix, scope, denied, k);
    }
  }

  /** The library resolves each submitted key back to the key that was listed. */
  lemma SubmittedResolve(objects: Objects, keyPrefix: string, scope: string)
    requires AllStored(keyPrefix, objects)
    ensures var all := Remaining(objects, scope, None);
            forall i :: 0 <= i < |all| ==>
              all[i] in Under(objects, scope) && Resolve(keyPrefix, AppKeys(keyPrefix, all)[i]) == all[i]
  {
    var all := Remaining(objects, scope, None);
    AppKeysResolve(keyPrefix, objects, all);
    forall i | 0 <= i < |all|
      ensures all[i] in Under(objects, scope) && Resolve(keyPrefix, AppKeys(keyPrefix, all)[i]) == all[i]
    {
      assert all[i] in all;
      assert StoredNames(keyPrefix, AppKeys(keyPrefix, all))[i] == all[i];
    }
  }

  lemma ClearFailures(objects: Objects, keyPrefix: string, scope: string, denied: map<string, string>)
    requires AllStored(keyPrefix, objects)
    ensures AreRefusals(ClearReport(objects, keyPrefix, scope, denied).failed, Under(objects, scope), denied,
                        k => Resolve(keyPrefix, k))
  {
    var failed := ClearReport(objects, keyPrefix, scope, denied).failed;
    forall f | f in failed
      ensures Resolve(keyPrefix, f.key) in Under(objects, scope) && Resolve(keyPrefix, f.key) in denied
      ensures f.error == denied[Resolve(keyPrefix, f.key)]
    {
      var all := Remaining(objects, scope, None);
      FailedAreNamed(AppKeys(keyPrefix, all), all, |all|, denied, f);
      SubmittedResolve(objects, keyPrefix, scope);
    }
  }

  // ---------------------------------------------------------------------
  // The service
  // ---------------------------------------------------------------------

  datatype UploadView = UploadView(tenant: string, key: string, fullKey: string)

  datatype ObjectView = ObjectView(key: string, fullKey: string, size: nat, etag: string)

  datatype ListView = ListView(tenant: string, prefix: string, objects: seq<ObjectView>, nextCursor: Option<string>)

  function ToObjectView(keyPrefix: string, o: ListedObject): ObjectView {
    ObjectView(o.key, PublicUrls.FullKey(keyPrefix, o.key), o.size, o.etag)
  }

  function ViewsOf(keyPrefix: string, objects: seq<ListedObject>): seq<ObjectView> {
    seq(|objects|, i requires 0 <= i < |objects| => ToObjectView(keyPrefix, objects[i]))
  }

  function PageSize(maxKeys: Option<nat>): nat {
    if maxKeys.Some? then maxKeys.value else DEFAULT_MAX_KEYS
  }

  ghost function ListingOf(objects: Objects, keyPrefix: string, tenant: string,
                           category: Option<string>, cursor: Option<string>, maxKeys: Option<nat>): ListView
    requires maxKeys.Some? ==> 1 <= maxKeys.value
  {
    var page := PageOf(objects, keyPrefix, Scope(keyPrefix, tenant, category), cursor, PageSize(maxKeys));
    ListView(tenant, TenantPrefix(tenant, category), ViewsOf(keyPrefix, page.objects), page.next)
  }

  // ---------------------------------------------------------------------
  // What a page shows
  // ---------------------------------------------------------------------

  /** A view of the object stored under `k`: its two keys, its size and its etag. */
  ghost predicate Shows(o: ObjectView, objects: Objects, keyPrefix: string, k: string) {
    && k in objects && WithPrefix(TrimSlashes(keyPrefix), o.key) == k
    && o.fullKey == (if keyPrefix == "" then o.key else keyPrefix + "/" + o.key)
    && o.size == |objects[k].body| && o.etag == objects[k].etag
  }

  ghost predicate AllShow(views: seq<ObjectView>, objects: Objects, keyPrefix: string, stored: seq<string>) {
    |views| == |stored| && forall i :: 0 <= i < |stored| ==> Shows(views[i], objects, keyPrefix, stored[i])
  }

  ghost predicate IsBeyond(k: string, cursor: Option<string>) {
    cursor.Some? ==> Less(cursor.value, k)
  }

  /**
   * A page of the stored keys under `scope` that lie strictly beyond the cursor: in
   * order, none missing between, at most `n` of them, and a cursor to go on exactly
   * when a full page leaves some out.
   */
  ghost predicate IsPage(objects: Objects, keyPrefix: string, scope: string, cursor: Option<string>, n: nat,
                         views: seq<ObjectView>, next: Option<string>, shown: seq<string>)
  {
    && |shown| <= n && AllShow(views, objects, keyPrefix, shown)
    && Increasing(shown)
    && (forall k :: k in shown ==> k in objects && scope <= k && IsBeyond(k, cursor))
    && (forall k :: k in objects && scope <= k && IsBeyond(k, cursor) ==> k in shown || (next.Some? && Less(next.value, k)))
    && (next.Some? ==> |shown| == n && shown != [] && next.value == shown[|shown| - 1]
                       && exists k :: k in objects && scope <= k && Less(next.value, k))
  }

  /** The first keys of an increasing sequence: what is left out lies beyond the last one shown. */
  lemma FirstOfIncreasing(q: seq<string>, n: nat)
    requires Increasing(q) && 1 <= n
    ensures Increasing(Prefix(q, n))
    ensures forall k :: k in Prefix(q, n) ==> k in q
    ensures |q| > n ==> (forall k :: k in q && k !in Prefix(q, n) ==> Less(q[n - 1], k)) && q[n] in q && Less(q[n - 1], q[n])
  {
    if |q| > n {
      assert Less(q[n - 1], q[n]);
      forall j | 0 <= j < n
        ensures q[j] in q[..n]
      {
        assert q[..n][j] == q[j];
      }
      forall k | k in q && k !in q[..n]
        ensures Less(q[n - 1], k)
      {
        var i :| 0 <= i < |q| && q[i] == k;
        assert Less(q[n - 1], q[i]);
      }
    }
  }

  lemma RemainingIs(objects: Objects, scope: string, cursor: Option<string>)
    ensures var q := Remaining(objects, scope, cursor);
            && Increasing(q)
            && forall k :: k in q <==> k in objects && scope <= k && IsBeyond(k, cursor)
  {
    SortedIsSorted(Beyond(Under(objects, scope), cursor));
    var q := Remaining(objects, scope, cursor);
    forall k
      ensures k in q <==> k in objects && scope <= k && IsBeyond(k, cursor)
    {
      assert k in q <==> k in Members(q);
      assert k in Under(objects, scope) <==> k in objects && scope <= k;
    }
  }

  lemma ViewShows(objects: Objects, keyPrefix: string, k: string)
    requires AllStored(keyPrefix, objects) && k in objects
    ensures Shows(ToObjectView(keyPrefix, Listed(objects, keyPrefix, k)), objects, keyPrefix, k)
  {
    assert IsStoredKey(keyPrefix, k);
    StripPrefix(keyPrefix, k);
  }

  lemma ViewsShow(objects: Objects, keyPrefix: string, keys: seq<string>)
    requires AllStored(keyPrefix, objects) && forall k :: k in keys ==> k in objects
    ensures var views := ViewsOf(keyPrefix, ListedAll(objects, keyPrefix, keys));
            AllShow(views, objects, keyPrefix, keys)
  {
    forall i | 0 <= i < |keys|
      ensures Shows(ViewsOf(keyPrefix, ListedAll(objects, keyPrefix, keys))[i], objects, keyPrefix, keys[i])
    {
      assert keys[i] in keys;
      ViewShows(objects, keyPrefix, keys[i]);
    }
  }

  lemma FirstOfRemaining(objects: Objects, scope: string, cursor: Option<string>, n: nat)
    requires 1 <= n
    ensures var q := Remaining(objects, scope, cursor);
            var shown := Prefix(q, n);
            && |shown| <= n && Increasing(shown)
            && (forall k :: k in shown ==> k in objects && scope <= k && IsBeyond(k, cursor))
            && (|q| <= n ==> forall k :: k in objects && scope <= k && IsBeyond(k, cursor) ==> k in shown)
            && (|q| > n ==>
                  && |shown| == n && shown[n - 1] == q[n - 1]
                  && (forall k :: k in objects && scope <= k && IsBeyond(k, cursor) ==> k in shown || Less(q[n - 1], k))
                  && q[n] in objects && scope <= q[n] && Less(q[n - 1], q[n]))
  {
    RemainingIs(objects, scope, cursor);
    FirstOfIncreasing(Remaining(objects, scope, cursor), n);
  }

  lemma ListingIsPage(objects: Objects, keyPrefix: string, tenant: string, category: Option<string>,
                      cursor: Option<string>, maxKeys: Option<nat>)
    requires AllStored(keyPrefix, objects) && (maxKeys.Some? ==> 1 <= maxKeys.value)
    ensures var view := ListingOf(objects, keyPrefix, tenant, category, cursor, maxKeys);
            var scope := Scope(keyPrefix, tenant, category);
            IsPage(objects, keyPrefix, scope, cursor, PageSize(maxKeys), view.objects, view.nextCursor,
                   Prefix(Remaining(objects, scope, cursor), PageSize(maxKeys)))
  {
    var scope := Scope(keyPrefix, tenant, category);
    FirstOfRemaining(objects, scope, cursor, PageSize(maxKeys));
    ViewsShow(objects, keyPrefix, Prefix(Remaining(objects, scope, cursor), PageSize(maxKeys)));
  }

  // ---------------------------------------------------------------------
  // Following the cursor
  // ---------------------------------------------------------------------

  ghost function KeysBeyond(objects: Objects, scope: string, cursor: Option<string>): set<string> {
    set k | k in objects && scope <= k && IsBeyond(k, cursor)
  }

  /** The keys seen so far are those under the scope up to the cursor, in order. */
  ghost predicate SeenUpTo(objects: Objects, scope: string, seen: seq<string>, cursor: Option<string>) {
    && Increasing(seen)
    && cursor == (if seen == [] then None else Some(seen[|seen| - 1]))
    && (forall k :: k in seen ==> k in objects && scope <= k)
    && (forall k :: k in objects && scope <= k ==> k in seen || IsBeyond(k, cursor))
  }

  lemma IncreasingConcat(a: seq<string>, b: seq<string>)
    requires Increasing(a) && Increasing(b)
    requires a != [] ==> forall k :: k in b ==> Less(a[|a| - 1], k)
    ensures Increasing(a + b)
  {
    forall i, j | 0 <= i < j < |a + b|
      ensures Less((a + b)[i], (a + b)[j])
    {
      if i < |a| <= j {
        assert b[j - |a|] in b;
        if i < |a| - 1 {
          LessIsTransitive(a[i], a[|a| - 1], b[j - |a|]);
        }
      }
    }
  }

  lemma KeepsBeyond(cursor: Option<string>, next: string, k: string)
    requires IsBeyond(next, cursor) && Less(next, k)
    ensures IsBeyond(k, cursor)
  {
    if cursor.Some? {
      LessIsTransitive(cursor.value, next, k);
    }
  }

  /** One page more: seen up to the next cursor, or to the end. */
  lemma PageSeen(objects: Objects, keyPrefix: string, scope: string, cursor: Option<string>, n: nat,
                 views: seq<ObjectView>, next: Option<string>, shown: seq<string>, seen: seq<string>)
    requires SeenUpTo(objects, scope, seen, cursor) && IsPage(objects, keyPrefix, scope, cursor, n, views, next, shown)
    ensures next.None? ==> IsWholeListing(objects, scope, seen + shown)
    ensures next.Some? ==> SeenUpTo(objects, scope, seen + shown, next)
  {
    assert Increasing(seen + shown) by {
      assert seen != [] ==> cursor == Some(seen[|seen| - 1]);
      assert forall k :: k in shown ==> IsBeyond(k, cursor);
      IncreasingConcat(seen, shown);
    }
    NothingMissed(objects, keyPrefix, scope, cursor, n, views, next, shown, seen);
    if next.Some? {
      LastOfConcat(seen, shown);
    }
  }

  lemma LastOfConcat<T>(a: seq<T>, b: seq<T>)
    requires b != []
    ensures a + b != [] && (a + b)[|a + b| - 1] == b[|b| - 1]
  {
  }

  lemma NothingMissed(objects: Objects, keyPrefix: string, scope: string, cursor: Option<string>, n: nat,
                      views: seq<ObjectView>, next: Option<string>, shown: seq<string>, seen: seq<string>)
    requires SeenUpTo(objects, scope, seen, cursor) && IsPage(objects, keyPrefix, scope, cursor, n, views, next, shown)
    ensures forall k :: k in seen + shown ==> k in objects && scope <= k
    ensures forall k :: k in objects && scope <= k ==> k in seen + shown || (next.Some? && Less(next.value, k))
  {
    forall k | k in objects && scope <= k
      ensures k in seen + shown || (next.Some? && Less(next.value, k))
    {
      if k !in seen {
        assert IsBeyond(k, cursor);
      }
    }
  }

  /** Going on from a later key leaves fewer keys. */
  lemma FewerBeyond(objects: Objects, scope: string, cursor: Option<string>, next: string)
    requires next in objects && scope <= next && IsBeyond(next, cursor)
    ensures |KeysBeyond(objects, scope, Some(next))| < |KeysBeyond(objects, scope, cursor)|
  {
    var a, b := KeysBeyond(objects, scope, Some(next)), KeysBeyond(objects, scope, cursor);
    forall k | k in a
      ensures k in b
    {
      KeepsBeyond(cursor, next, k);
    }
    LessIsStrict(next);
    assert next in b - a;
    assert a <= b - {next};
    SubsetCount(a, b - {next});
  }

  /** How far following the cursor has come. */
  datatype Followed = Followed(views: seq<ObjectView>, stored: seq<string>, cursor: Option<string>, more: bool)

  ghost predicate IsFollowed(objects: Objects, keyPrefix: string, scope: string, f: Followed) {
    && AllShow(f.views, objects, keyPrefix, f.stored)
    && (if f.more then SeenUpTo(objects, scope, f.stored, f.cursor) else IsWholeListing(objects, scope, f.stored))
  }

  /** Every key under the scope, once, in order, and no other. */
  ghost predicate IsWholeListing(objects: Objects, scope: string, stored: seq<string>) {
    Increasing(stored) && forall k :: k in stored <==> k in objects && scope <= k
  }

  lemma OnePageMore(objects: Objects, keyPrefix: string, scope: string, f: Followed, n: nat,
                    views: seq<ObjectView>, next: Option<string>, shown: seq<string>) returns (f': Followed)
    requires IsFollowed(objects, keyPrefix, scope, f) && f.more
    requires IsPage(objects, keyPrefix, scope, f.cursor, n, views, next, shown)
    ensures f' == Followed(f.views + views, f.stored + shown, next, next.Some?) && IsFollowed(objects, keyPrefix, scope, f')
    ensures Left(objects, scope, f') < Left(objects, scope, f)
  {
    PageSeen(objects, keyPrefix, scope, f.cursor, n, views, next, shown, f.stored);
    AllShowConcat(f.views, views, objects, keyPrefix, f.stored, shown);
    if next.Some? {
      FewerBeyond(objects, scope, f.cursor, next.value);
    }
    f' := Followed(f.views + views, f.stored + shown, next, next.Some?);
  }

  ghost function Left(objects: Objects, scope: string, f: Followed): nat {
    if f.more then 1 + |KeysBeyond(objects, scope, f.cursor)| else 0
  }

  lemma AllShowConcat(views: seq<ObjectView>, page: seq<ObjectView>, objects: Objects, keyPrefix: string,
                      stored: seq<string>, shown: seq<string>)
    requires AllShow(views, objects, keyPrefix, stored) && AllShow(page, objects, keyPrefix, shown)
    ensures AllShow(views + page, objects, keyPrefix, stored + shown)
  {
    forall i | 0 <= i < |stored + shown|
      ensures Shows((views + page)[i], objects, keyPrefix, (stored + shown)[i])
    {
      if i < |stored| {
        assert Shows(views[i], objects, keyPrefix, stored[i]);
      } else {
        assert Shows(page[i - |views|], objects, keyPrefix, shown[i - |stored|]);
      }
    }
  }

  class TenantsService {
    const bucket: Bucket

    constructor (bucket: Bucket)
      ensures this.bucket == bucket
    {
      this.bucket := bucket;
    }

    /** `uuid` and `etag` stand for the generated id and the provider's answer. */
    method Upload(tenant: string, category: string, content: seq<CodeUnit>, extension: Option<string>,
                  uuid: string, etag: string)
      returns (view: UploadView)
      requires bucket.Valid() && IsUploadShape(tenant, category, uuid, extension)
      modifies bucket
      ensures bucket.Valid()
      ensures view.key == tenant + "/" + category + "/" + uuid + "." + (if extension.Some? then extension.value else "txt")
      ensures view.tenant == tenant
      ensures view.fullKey == if bucket.keyPrefix == "" then view.key else bucket.keyPrefix + "/" + view.key
      ensures var stored := WithPrefix(TrimSlashes(bucket.keyPrefix), view.key);
              bucket.objects
              == old(bucket.objects)[stored := StoredObject(Utf8Bytes(content), Some("text/plain"), etag)]
    {
      var key := TenantKey(tenant, category, uuid, extension);
      TenantKeyIsNormal(bucket.keyPrefix, tenant, category, uuid, extension);
      var result := bucket.Put(key, StoredObject(Utf8Bytes(content), Some(TENANT_CONTENT_TYPE), etag));
      view := UploadView(tenant, key, PublicUrls.FullKey(bucket.keyPrefix, key));
    }

    method List(tenant: string, category: Option<string>, cursor: Option<string>, maxKeys: Option<nat>)
      returns (view: ListView, ghost shown: seq<string>)
      requires bucket.Valid()
      requires IsTenantSlug(tenant) && (category.Some? ==> IsCategory(category.value))
      requires maxKeys.Some? ==> 1 <= maxKeys.value <= 1000
      ensures view == ListingOf(bucket.objects, bucket.keyPrefix, tenant, category, cursor, maxKeys)
      ensures var prefix := if category.Some? then tenant + "/" + category.value + "/" else tenant + "/";
              && view.tenant == tenant && view.prefix == prefix
              && IsPage(bucket.objects, bucket.keyPrefix, WithPrefix(TrimSlashes(bucket.keyPrefix), prefix), cursor,
                        if maxKeys.Some? then maxKeys.value else 1000, view.objects, view.nextCursor, shown)
    {
      shown := Prefix(Remaining(bucket.objects, Scope(bucket.keyPrefix, tenant, category), cursor), PageSize(maxKeys));
      ListingIsPage(bucket.objects, bucket.keyPrefix, tenant, category, cursor, maxKeys);
      var prefix := TenantPrefix(tenant, category);
      var page := bucket.List(prefix, cursor, PageSize(maxKeys));
      view := ListView(tenant, prefix, ViewsOf(bucket.keyPrefix, page.objects), page.next);
    }

    /** One round of a clear: list a page, and delete what it shows unless it is empty. */
    method ClearPage(prefix: string, cursor: Option<string>, denied: map<string, string>, pageSize: nat)
      returns (keys: seq<string>, outcome: DeleteReport<string>, next: Option<string>)
      requires bucket.Valid() && 1 <= pageSize
      modifies bucket
      ensures bucket.Valid()
      ensures var scope := WithPrefix(TrimSlashes(bucket.keyPrefix), prefix);
              var shown := Prefix(Remaining(old(bucket.objects), scope, cursor), pageSize);
              && keys == AppKeys(bucket.keyPrefix, shown)
              && outcome == ReportOf(keys, shown, |shown|, denied)
              && bucket.objects == LeftOf(old(bucket.objects), shown, |shown|, denied)
              && next == if |shown| == |Remaining(old(bucket.objects), scope, cursor)| then None else CursorAt(shown, |shown|)
    {
      ghost var now := bucket.objects;
      ghost var scope := WithPrefix(TrimSlashes(bucket.keyPrefix), prefix);
      var page := bucket.List(prefix, cursor, pageSize);
      keys, next := KeysOf(page), page.next;
      PageShows(now, bucket.keyPrefix, scope, cursor, pageSize, denied);
      outcome := DeleteReport([], []);
      if |keys| > 0 {
        outcome := bucket.DeleteMany(keys, denied);
      }
    }

    /** One page of a clearing in progress: it moves on past the keys it shows. */
    method ClearNext(prefix: string, cursor: Option<string>, denied: map<string, string>, pageSize: nat,
                     ghost before: Objects, ghost all: seq<string>, ghost rounds: Rounds<string, StoredObject>)
      returns (keys: seq<string>, outcome: DeleteReport<string>, next: Option<string>, ghost rounds': Rounds<string, StoredObject>)
      requires bucket.Valid() && 1 <= pageSize && rounds.left == bucket.objects
      requires all == Remaining(before, WithPrefix(TrimSlashes(bucket.keyPrefix), prefix), None)
      requires IsAt(rounds, before, AppKeys(bucket.keyPrefix, all), all, denied) && cursor == CursorAt(all, rounds.n)
      modifies bucket
      ensures bucket.Valid() && rounds'.left == bucket.objects
      ensures rounds'.report == Add(rounds.report, outcome) && rounds'.submitted == rounds.submitted + keys
      ensures IsAt(rounds', before, AppKeys(bucket.keyPrefix, all), all, denied)
      ensures if next.None? then rounds'.n == |all| else rounds'.n > rounds.n && next == CursorAt(all, rounds'.n)
    {
      ghost var kp := bucket.keyPrefix;
      ghost var shown := Prefix(all[rounds.n..], pageSize);
      ghost var rest := Remaining(bucket.objects, WithPrefix(TrimSlashes(kp), prefix), cursor);
      assert rest == all[rounds.n..] && AppKeys(kp, shown) == AppKeys(kp, all)[rounds.n..rounds.n + |shown|] by {
        PageIsNext(before, kp, WithPrefix(TrimSlashes(kp), prefix), denied, rounds.n, pageSize, all, bucket.objects);
      }
      keys, outcome, next := ClearPage(prefix, cursor, denied, pageSize);
      rounds' := RoundOver(rounds, before, AppKeys(kp, all), all, denied, pageSize, keys, shown, outcome, bucket.objects, next);
    }

    /**
     * Pages through a prefix while deleting what each page shows. It terminates, and
     * it deletes, reports and submits what one bulk deletion of the initial listing
     * would: every key of the listing, in order, once.
     */
    method ClearPages(prefix: string, denied: map<string, string>, pageSize: nat)
      returns (report: DeleteReport<string>, ghost submitted: seq<string>)
      requires bucket.Valid() && 1 <= pageSize
      modifies bucket
      ensures bucket.Valid()
      ensures var all := Remaining(old(bucket.objects), WithPrefix(TrimSlashes(bucket.keyPrefix), prefix), None);
              && submitted == AppKeys(bucket.keyPrefix, all)
              && report == ReportOf(submitted, all, |all|, denied)
              && bucket.objects == LeftOf(old(bucket.objects), all, |all|, denied)
    {
      ghost var before, kp := bucket.objects, bucket.keyPrefix;
      ghost var scope := WithPrefix(TrimSlashes(kp), prefix);
      ghost var all := Remaining(before, scope, None);
      ghost var rounds := Rounds(0, before, DeleteReport([], []), []);
      var cursor: Option<string> := None;
      var more := true;
      report, submitted := DeleteReport([], []), [];
      assert Members(all[..0]) == {};
      while more
        invariant bucket.Valid()
        invariant IsAt(rounds, before, AppKeys(kp, all), all, denied)
        invariant rounds.left == bucket.objects && rounds.report == report && rounds.submitted == submitted
        invariant if more then cursor == CursorAt(all, rounds.n) else rounds.n == |all|
        decreases if more then 1 + |all| - rounds.n else 0
      {
        var keys, outcome;
        keys, outcome, cursor, rounds := ClearNext(prefix, cursor, denied, pageSize, before, all, rounds);
        report := Add(report, outcome);
        submitted := submitted + keys;
        more := cursor.Some?;
      }
    }

    /** Clears a tenant: exactly the keys under its scope, and a report of what happened to each. */
    method Clear(tenant: string, denied: map<string, string>, pageSize: nat)
      returns (view: ClearView, ghost submitted: seq<string>)
      requires bucket.Valid() && IsTenantSlug(tenant) && 1 <= pageSize
      modifies bucket
      ensures bucket.Valid()
      ensures IsClearedView(view, old(bucket.objects), bucket.objects, bucket.keyPrefix,
                            WithPrefix(TrimSlashes(bucket.keyPrefix), tenant + "/"), denied)
      ensures var scope := Scope(bucket.keyPrefix, tenant, None);
              && bucket.objects == Cleared(old(bucket.objects), scope, denied)
              && view == ViewOf(ClearReport(old(bucket.objects), bucket.keyPrefix, scope, denied))
              && submitted == AppKeys(bucket.keyPrefix, Sorted(Under(old(bucket.objects), scope)))
    {
      ClearEnds(bucket.objects, Scope(bucket.keyPrefix, tenant, None), denied);
      ClearViewMeans(bucket.objects, bucket.keyPrefix, Scope(bucket.keyPrefix, tenant, None), denied);
      var report;
      report, submitted := ClearPages(TenantPrefix(tenant, None), denied, pageSize);
      view := ClearView(|report.deleted|, |report.failed|, report.failed);
    }
  }

  /** A client that follows the cursor from page to page sees every object under the prefix once, in order, and no other. */
  method FollowPages(service: TenantsService, tenant: string, category: Option<string>, maxKeys: Option<nat>)
    returns (views: seq<ObjectView>, ghost stored: seq<string>)
    requires service.bucket.Valid()
    requires IsTenantSlug(tenant) && (category.Some? ==> IsCategory(category.value))
    requires maxKeys.Some? ==> 1 <= maxKeys.value <= 1000
    ensures var b := service.bucket;
            var prefix := if category.Some? then tenant + "/" + category.value + "/" else tenant + "/";
            && |views| == |Under(b.objects, WithPrefix(TrimSlashes(b.keyPrefix), prefix))|
            && AllShow(views, b.objects, b.keyPrefix, stored)
            && IsWholeListing(b.objects, WithPrefix(TrimSlashes(b.keyPrefix), prefix), stored)
  {
    ghost var objects, kp, n := service.bucket.objects, service.bucket.keyPrefix, if maxKeys.Some? then maxKeys.value else 1000;
    ghost var prefix := if category.Some? then tenant + "/" + category.value + "/" else tenant + "/";
    ghost var scope := WithPrefix(TrimSlashes(kp), prefix);
    views, stored := [], [];
    var cursor: Option<string> := None;
    var more := true;
    ghost var followed := Followed([], [], None, true);
    while more
      invariant IsFollowed(objects, kp, scope, followed)
      invariant followed == Followed(views, stored, cursor, more)
      decreases Left(objects, scope, followed)
    {
      var view, shown := service.List(tenant, category, cursor, maxKeys);
      followed := OnePageMore(objects, kp, scope, followed, n, view.objects, view.nextCursor, shown);
      views, stored := views + view.objects, stored + shown;
      cursor, more := view.nextCursor, view.nextCursor.Some?;
    }
    WholeListingCount(objects, scope, stored);
  }

  lemma WholeListingCount(objects: Objects, scope: string, stored: seq<string>)
    requires IsWholeListing(objects, scope, stored)
    ensures |stored| == |Under(objects, scope)|
  {
    IncreasingIsDistinct(stored);
    DistinctCount(stored);
    assert Members(stored) == Under(objects, scope);
  }

  function KeysOf(page: Page): (r: seq<string>)
    ensures |r| == |page.objects| && forall i :: 0 <= i < |r| ==> r[i] == page.objects[i].key
  {
    seq(|page.objects|, i requires 0 <= i < |page.objects| => page.objects[i].key)
  }

  lemma PageKeys(now: Objects, keyPrefix: string, scope: string, after: Option<string>, pageSize: nat)
    requires 1 <= pageSize
    ensures var page := PageOf(now, keyPrefix, scope, after, pageSize);
            var rest := Remaining(now, scope, after);
            var shown := Prefix(rest, pageSize);
            && KeysOf(page) == AppKeys(keyPrefix, shown)
            && page.next == (if |shown| == |rest| then None else CursorAt(shown, |shown|))
  {
    var page := PageOf(now, keyPrefix, scope, after, pageSize);
    var shown := Prefix(Remaining(now, scope, after), pageSize);
    assert page.objects == ListedAll(now, keyPrefix, shown);
    assert KeysOf(page) == AppKeys(keyPrefix, shown);
  }

  /** The keys of a page, and what deleting none of them leaves. */
  lemma PageShows(now: Objects, keyPrefix: string, scope: string, after: Option<string>, pageSize: nat,
                  denied: map<string, string>)
    requires AllStored(keyPrefix, now) && 1 <= pageSize
    ensures var page := PageOf(now, keyPrefix, scope, after, pageSize);
            var rest := Remaining(now, scope, after);
            var shown := Prefix(rest, pageSize);
            && KeysOf(page) == AppKeys(keyPrefix, shown)
            && page.next == (if |shown| == |rest| then None else CursorAt(shown, |shown|))
            && AllAccepted(KeysOf(page)) && StoredNames(keyPrefix, KeysOf(page)) == shown
            && (shown == [] ==> LeftOf(now, shown, 0, denied) == now)
  {
    var rest := Remaining(now, scope, after);
    var shown := Prefix(rest, pageSize);
    PageKeys(now, keyPrefix, scope, after, pageSize);
    assert forall k :: k in shown ==> k in rest;
    AppKeysResolve(keyPrefix, now, shown);
    assert Members(shown[..0]) == {};
  }

  lemma AppKeysOfSlice(keyPrefix: string, all: seq<string>, n: nat, m: nat)
    requires n + m <= |all|
    ensures AppKeys(keyPrefix, all[n..n + m]) == AppKeys(keyPrefix, all)[n..n + m]
  {
  }

  /** The page at the cursor shows the next keys of the initial listing. */
  lemma PageIsNext(before: Objects, keyPrefix: string, scope: string, denied: map<string, string>, n: nat, pageSize: nat,
                   all: seq<string>, left: Objects)
    requires all == Remaining(before, scope, None) && n <= |all| && left == LeftOf(before, all, n, denied)
    ensures var rest := Remaining(left, scope, CursorAt(all, n));
            var shown := Prefix(rest, pageSize);
            && rest == all[n..] && n + |shown| <= |all|
            && AppKeys(keyPrefix, shown) == AppKeys(keyPrefix, all)[n..n + |shown|]
  {
    RestIsUndisturbed(before, scope, denied, n);
    AppKeysOfSlice(keyPrefix, all, n, |Prefix(all[n..], pageSize)|);
  }

  lemma ClearEnds(before: Objects, scope: string, denied: map<string, string>)
    ensures var all := Remaining(before, scope, None);
            LeftOf(before, all, |all|, denied) == Cleared(before, scope, denied) && all == Sorted(Under(before, scope))
  {
    var all := Remaining(before, scope, None);
    assert all[..|all|] == all;
    assert Beyond(Under(before, scope), None) == Under(before, scope);
    SortedIsSorted(Under(before, scope));
  }
}
