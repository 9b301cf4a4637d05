/**
 * Non-interference between tenants over whole runs: what one tenant observes does not
 * depend on what another tenant does. A step is one service call, as its method in
 * `Tenants.TenantsService` specifies it.
 */
module TenantIsolation {
  import opened Wrappers
  import opened Utf
  import opened Keys
  import opened Buckets
  import opened Tenants

  datatype TenantOp =
    | Upload(tenant: string, category: string, content: seq<CodeUnit>, extension: Option<string>, uuid: string, etag: string)
    | List(tenant: string, narrowed: Option<string>, cursor: Option<string>, maxKeys: Option<nat>)
    | Clear(tenant: string, denied: map<string, string>)

  datatype Answer = Uploaded(key: string) | Listing(view: ListView) | ClearedAll(report: ClearView)

  /** What the request schemas admit. */
  predicate IsAdmitted(op: TenantOp) {
    match op
    case Upload(t, category, _, extension, uuid, _) => IsUploadShape(t, category, uuid, extension)
    case List(t, category, _, maxKeys) =>
      && IsTenantSlug(t) && (category.Some? ==> IsCategory(category.value))
      && (maxKeys.Some? ==> 1 <= maxKeys.value <= 1000)
    case Clear(t, _) => IsTenantSlug(t)
  }

  ghost function After(objects: Objects, keyPrefix: string, op: TenantOp): Objects
    requires IsAdmitted(op)
  {
    match op
    case Upload(t, category, content, extension, uuid, etag) =>
      objects[WithPrefix(TrimSlashes(keyPrefix), TenantKey(t, category, uuid, extension))
              := StoredObject(Utf8Bytes(content), Some(TENANT_CONTENT_TYPE), etag)]
    case List(_, _, _, _) => objects
    case Clear(t, denied) => Cleared(objects, Scope(keyPrefix, t, None), denied)
  }

  ghost function AnswerTo(objects: Objects, keyPrefix: string, op: TenantOp): Answer
    requires IsAdmitted(op)
  {
    match op
    case Upload(t, category, _, extension, uuid, _) => Uploaded(TenantKey(t, category, uuid, extension))
    case List(t, category, cursor, maxKeys) => Listing(ListingOf(objects, keyPrefix, t, category, cursor, maxKeys))
    case Clear(t, denied) => ClearedAll(ViewOf(ClearReport(objects, keyPrefix, Scope(keyPrefix, t, None), denied)))
  }

  /** The service performs exactly these steps. */
  method Perform(service: TenantsService, op: TenantOp) returns (answer: Answer)
    requires service.bucket.Valid() && IsAdmitted(op)
    modifies service.bucket
    ensures service.bucket.Valid()
    ensures service.bucket.objects == After(old(service.bucket.objects), service.bucket.keyPrefix, op)
    ensures answer == AnswerTo(old(service.bucket.objects), service.bucket.keyPrefix, op)
  {
    match op
    case Upload(t, category, content, extension, uuid, etag) =>
      var view := service.Upload(t, category, content, extension, uuid, etag);
      answer := Uploaded(view.key);
    case List(t, category, cursor, maxKeys) =>
      var view, _ := service.List(t, category, cursor, maxKeys);
      answer := Listing(view);
    case Clear(t, denied) =>
      var view, _ := service.Clear(t, denied, DEFAULT_MAX_KEYS);
      answer := ClearedAll(view);
  }

  /** The answers a run gives to the calls of one tenant. */
  ghost function AnswersTo(tenant: string, objects: Objects, keyPrefix: string, ops: seq<TenantOp>): seq<Answer>
    requires forall op :: op in ops ==> IsAdmitted(op)
    decreases |ops|
  {
    if ops == [] then []
    else
      (if ops[0].tenant == tenant then [AnswerTo(objects, keyPrefix, ops[0])] else [])
      + AnswersTo(tenant, After(objects, keyPrefix, ops[0]), keyPrefix, ops[1..])
  }

  /** The run without the calls of one tenant. */
  function Without(tenant: string, ops: seq<TenantOp>): (r: seq<TenantOp>)
    ensures forall op :: op in r ==> op in ops
  {
    if ops == [] then []
    else (if ops[0].tenant == tenant then [] else [ops[0]]) + Without(tenant, ops[1..])
  }

  /** Two buckets hold the same objects of a tenant. */
  ghost predicate SameFor(tenant: string, keyPrefix: string, a: Objects, b: Objects) {
    var scope := Scope(keyPrefix, tenant, None);
    && Under(a, scope) == Under(b, scope)
    && forall k :: k in Under(a, scope) ==> a[k] == b[k]
  }

  lemma SameRemaining(a: Objects, b: Objects, tenant: string, keyPrefix: string, category: Option<string>, after: Option<string>)
    requires SameFor(tenant, keyPrefix, a, b)
    ensures var scope := Scope(keyPrefix, tenant, category);
            && Remaining(a, scope, after) == Remaining(b, scope, after)
            && (forall k :: k in Remaining(a, scope, after) ==> a[k] == b[k])
  {
    var scope := Scope(keyPrefix, tenant, category);
    forall k | scope <= k
      ensures k in a <==> k in b
      ensures k in a ==> a[k] == b[k]
    {
      ScopeNests(keyPrefix, tenant, category, k);
      assert k in a <==> k in Under(a, Scope(keyPrefix, tenant, None));
      assert k in b <==> k in Under(b, Scope(keyPrefix, tenant, None));
    }
    assert Under(a, scope) == Under(b, scope);
  }

  lemma SameListed(a: Objects, b: Objects, keyPrefix: string, q: seq<string>)
    requires forall k :: k in q ==> k in a && k in b && a[k] == b[k]
    ensures ListedAll(a, keyPrefix, q) == ListedAll(b, keyPrefix, q)
  {
    forall i | 0 <= i < |q|
      ensures Listed(a, keyPrefix, q[i]) == Listed(b, keyPrefix, q[i])
    {
      assert q[i] in q;
    }
  }

  lemma SamePage(a: Objects, b: Objects, tenant: string, keyPrefix: string, category: Option<string>,
                 after: Option<string>, maxKeys: nat)
    requires SameFor(tenant, keyPrefix, a, b) && 1 <= maxKeys
    ensures var scope := Scope(keyPrefix, tenant, category);
            PageOf(a, keyPrefix, scope, after, maxKeys) == PageOf(b, keyPrefix, scope, after, maxKeys)
  {
    var q := Remaining(a, Scope(keyPrefix, tenant, category), after);
    SameRemaining(a, b, tenant, keyPrefix, category, after);
    SameListed(a, b, keyPrefix, q);
    if |q| > maxKeys {
      assert forall k :: k in q[..maxKeys] ==> k in q;
      SameListed(a, b, keyPrefix, q[..maxKeys]);
    }
  }

  /** A tenant's own call: same answer, and the two buckets stay the same for it. */
  lemma OwnCall(a: Objects, b: Objects, keyPrefix: string, op: TenantOp)
    requires IsAdmitted(op) && SameFor(op.tenant, keyPrefix, a, b)
    ensures AnswerTo(a, keyPrefix, op) == AnswerTo(b, keyPrefix, op)
    ensures SameFor(op.tenant, keyPrefix, After(a, keyPrefix, op), After(b, keyPrefix, op))
  {
    match op
    case Upload(t, category, content, extension, uuid, etag) =>
      SetKeepsSame(a, b, t, keyPrefix, WithPrefix(TrimSlashes(keyPrefix), TenantKey(t, category, uuid, extension)),
                   StoredObject(Utf8Bytes(content), Some(TENANT_CONTENT_TYPE), etag));
    case List(t, category, cursor, maxKeys) =>
      SamePage(a, b, t, keyPrefix, category, cursor, PageSize(maxKeys));
    case Clear(t, denied) =>
      SameRemaining(a, b, t, keyPrefix, None, None);
      ClearKeepsSame(a, b, t, keyPrefix, Scope(keyPrefix, t, None), denied);
  }

  lemma SetKeepsSame(a: Objects, b: Objects, tenant: string, keyPrefix: string, k: string, item: StoredObject)
    requires SameFor(tenant, keyPrefix, a, b)
    ensures SameFor(tenant, keyPrefix, a[k := item], b[k := item])
  {
    var scope := Scope(keyPrefix, tenant, None);
    var added: set<string> := if scope <= k then {k} else {};
    assert Under(a[k := item], scope) == Under(a, scope) + added;
    assert Under(b[k := item], scope) == Under(b, scope) + added;
  }

  lemma ClearKeepsSame(a: Objects, b: Objects, tenant: string, keyPrefix: string, scope: string, denied: map<string, string>)
    requires SameFor(tenant, keyPrefix, a, b) && scope == Scope(keyPrefix, tenant, None)
    ensures SameFor(tenant, keyPrefix, Cleared(a, scope, denied), Cleared(b, scope, denied))
  {
    assert Under(Cleared(a, scope, denied), scope) == Under(a, scope) * denied.Keys;
    assert Under(Cleared(b, scope, denied), scope) == Under(b, scope) * denied.Keys;
  }

  /** Another tenant's call changes nothing in this tenant's scope. */
  lemma ForeignCall(objects: Objects, keyPrefix: string, op: TenantOp, tenant: string)
    requires IsAdmitted(op) && IsTenantSlug(tenant) && op.tenant != tenant
    ensures SameFor(tenant, keyPrefix, objects, After(objects, keyPrefix, op))
  {
    var scope := Scope(keyPrefix, tenant, None);
    match op
    case Upload(t, category, content, extension, uuid, etag) =>
      var key := TenantKey(t, category, uuid, extension);
      var stored := WithPrefix(TrimSlashes(keyPrefix), key);
      TenantKeyIsNormal(keyPrefix, t, category, uuid, extension);
      InScope(TrimSlashes(keyPrefix), TenantPrefix(t, Some(category)), key);
      ScopeNests(keyPrefix, t, Some(category), stored);
      if scope <= stored {
        ScopesAreDisjoint(keyPrefix, tenant, t, None, stored);
      }
      assert Under(After(objects, keyPrefix, op), scope) == Under(objects, scope);
    case List(_, _, _, _) =>
    case Clear(t, denied) =>
      forall k | k in Under(objects, Scope(keyPrefix, t, None))
        ensures !(scope <= k)
      {
        if scope <= k {
          ScopesAreDisjoint(keyPrefix, tenant, t, None, k);
        }
      }
      assert Under(After(objects, keyPrefix, op), scope) == Under(objects, scope);
  }

  lemma InScope(front: string, prefix: string, key: string)
    requires prefix <= key
    ensures WithPrefix(front, prefix) <= WithPrefix(front, key)
  {
    assert key[..|prefix|] == prefix;
    var a, b := WithPrefix(front, prefix), WithPrefix(front, key);
    assert b[..|a|] == a;
  }

  /**
   * For any two distinct tenants, in every interleaving of any tenants' calls: every
   * answer `b` gets is the answer it gets in the run without the calls of `a`.
   */
  lemma {:induction false} NonInterference(a: string, b: string, keyPrefix: string, ops: seq<TenantOp>,
                                           objects: Objects, objects': Objects)
    requires IsTenantSlug(a) && IsTenantSlug(b) && a != b
    requires forall op :: op in ops ==> IsAdmitted(op)
    requires SameFor(b, keyPrefix, objects, objects')
    ensures AnswersTo(b, objects, keyPrefix, ops) == AnswersTo(b, objects', keyPrefix, Without(a, ops))
    decreases |ops|
  {
    if ops != [] {
      var op, rest := ops[0], ops[1..];
      var next := After(objects, keyPrefix, op);
      if op.tenant == a {
        ForeignCall(objects, keyPrefix, op, b);
        NonInterference(a, b, keyPrefix, rest, next, objects');
        assert Without(a, ops) == Without(a, rest);
      } else {
        var next' := After(objects', keyPrefix, op);
        if op.tenant == b {
          OwnCall(objects, objects', keyPrefix, op);
        } else {
          ForeignCall(objects, keyPrefix, op, b);
          ForeignCall(objects', keyPrefix, op, b);
        }
        NonInterference(a, b, keyPrefix, rest, next, next');
        assert Without(a, ops) == [op] + Without(a, rest);
      }
    }
  }
}
