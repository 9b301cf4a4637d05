/**
 * Public and CDN URLs: each path segment of the full key is percent-encoded
 * (section 2.1 of RFC 3986), the slashes between segments are kept.
 */
module PublicUrls {
  import opened Wrappers
  import opened Utf
  import opened Sequences
  import opened HexDigits
  import opened Keys

  // ---------------------------------------------------------------------
  // `encodeURIComponent` on well-formed texts, and its inverse
  // ---------------------------------------------------------------------

  predicate IsUnreserved(c: char) {
    'A' <= c <= 'Z' || 'a' <= c <= 'z' || '0' <= c <= '9' || c in "-_.!~*'()"
  }

  function Escape(b: Byte): string {
    ['%', HexDigit(b / 16), HexDigit(b % 16)]
  }

  function PercentBytes(b: seq<Byte>): string {
    if b == [] then [] else Escape(b[0]) + PercentBytes(b[1..])
  }

  function EncodeComponent(s: string): string {
    if s == [] then []
    else (if IsUnreserved(s[0]) then [s[0]] else PercentBytes(EncodeChar(s[0]))) + EncodeComponent(s[1..])
  }

  /** The bytes a percent-encoded text stands for, if every escape is complete. */
  function PercentDecode(s: string): Option<seq<Byte>> {
    if s == [] then Some([])
    else if s[0] == '%' then
      if |s| < 3 || HexValue(s[1]).None? || HexValue(s[2]).None? then None
      else
        var high, low := HexValue(s[1]).value, HexValue(s[2]).value;
        match PercentDecode(s[3..])
        case None => None
        case Some(rest) => Some([16 * high + low] + rest)
    else
      match PercentDecode(s[1..])
      case None => None
      case Some(rest) => Some(EncodeChar(s[0]) + rest)
  }

  /** `decodeURIComponent`: fails on an incomplete escape and on bytes that are not UTF-8. */
  function DecodeComponent(s: string): Option<string> {
    match PercentDecode(s)
    case None => None
    case Some(b) => if Encode(Decode(b)) == b then Some(Decode(b)) else None
  }

  lemma OneByteDecodes(x: Byte, s: string, rest: seq<Byte>)
    requires PercentDecode(s) == Some(rest)
    ensures PercentDecode(Escape(x) + s) == Some([x] + rest)
  {
    HexDigitValue(x / 16);
    HexDigitValue(x % 16);
    var p := Escape(x) + s;
    assert p[3..] == s;
    assert 16 * (x / 16) + x % 16 == x;
  }

  lemma {:induction false} PercentBytesDecode(b: seq<Byte>, s: string, rest: seq<Byte>)
    requires PercentDecode(s) == Some(rest)
    ensures PercentDecode(PercentBytes(b) + s) == Some(b + rest)
  {
    if b == [] {
      assert PercentBytes(b) + s == s && b + rest == rest;
    } else {
      var t := PercentBytes(b[1..]) + s;
      PercentBytesDecode(b[1..], s, rest);
      OneByteDecodes(b[0], t, b[1..] + rest);
      Associate(Escape(b[0]), PercentBytes(b[1..]), s);
      Associate([b[0]], b[1..], rest);
      assert [b[0]] + b[1..] == b;
    }
  }

  lemma {:induction false} ComponentBytes(s: string)
    ensures PercentDecode(EncodeComponent(s)) == Some(Encode(s))
  {
    if s != [] {
      ComponentBytes(s[1..]);
      var rest := EncodeComponent(s[1..]);
      if IsUnreserved(s[0]) {
        assert ([s[0]] + rest)[1..] == rest;
      } else {
        PercentBytesDecode(EncodeChar(s[0]), rest, Encode(s[1..]));
      }
    }
  }

  lemma ComponentRoundTrip(s: string)
    ensures DecodeComponent(EncodeComponent(s)) == Some(s)
  {
    ComponentBytes(s);
    DecodeEncode(s);
  }

  lemma {:induction false} PercentBytesAreSafe(b: seq<Byte>)
    ensures forall c :: c in PercentBytes(b) ==> c == '%' || IsUnreserved(c)
  {
    if b != [] {
      PercentBytesAreSafe(b[1..]);
      HexDigitValue(b[0] / 16);
      HexDigitValue(b[0] % 16);
    }
  }

  /** The characters `encodeURIComponent` leaves as they are. */
  predicate IsPlain(c: char) {
    || 'A' <= c <= 'Z' || 'a' <= c <= 'z' || '0' <= c <= '9'
    || c == '-' || c == '_' || c == '.' || c == '!' || c == '~' || c == '*' || c == '\'' || c == '(' || c == ')'
  }

  /** An encoded segment holds no slash, and nothing a URL path reserves. */
  lemma {:induction false} ComponentIsSafe(s: string)
    ensures forall c :: c in EncodeComponent(s) ==> c == '%' || IsPlain(c)
  {
    if s != [] {
      ComponentIsSafe(s[1..]);
      PercentBytesAreSafe(EncodeChar(s[0]));
    }
  }

  /** Exactly the plain characters stand for themselves; every other byte becomes `%` and two upper-case digits. */
  lemma CharacterMeans(c: char, b: Byte)
    ensures EncodeComponent([c]) == (if IsPlain(c) then [c] else PercentBytes(EncodeChar(c)))
    ensures PercentBytes([b]) == ['%', "0123456789ABCDEF"[b / 16], "0123456789ABCDEF"[b % 16]]
  {
    UpperHexDigits(b / 16);
    UpperHexDigits(b % 16);
  }

  // ---------------------------------------------------------------------
  // Paths and URLs
  // ---------------------------------------------------------------------

  function EncodeAll(parts: seq<string>): (r: seq<string>)
    ensures |r| == |parts|
    ensures forall i :: 0 <= i < |parts| ==> r[i] == EncodeComponent(parts[i])
  {
    seq(|parts|, i requires 0 <= i < |parts| => EncodeComponent(parts[i]))
  }

  function EncodePath(fullKey: string): string {
    Join(EncodeAll(Split(fullKey)))
  }

  datatype PublicUrl = PublicUrl(url: string, cdnUrl: Option<string>)

  /** `replace(/\/$/, '')`: one slash, and only at the end. */
  function WithoutLastSlash(base: string): string {
    if Trails(base) then base[..|base| - 1] else base
  }

  /** The key as displayed and published: the configured prefix is not trimmed here. */
  function FullKey(keyPrefix: string, key: string): string {
    WithPrefix(keyPrefix, key)
  }

  function GetPublicUrls(key: string, publicBase: string, cdnBase: string, keyPrefix: string): PublicUrl {
    var path := EncodePath(FullKey(keyPrefix, key));
    PublicUrl(WithoutLastSlash(publicBase) + "/" + path,
              if cdnBase != [] then Some(WithoutLastSlash(cdnBase) + "/" + path) else None)
  }

  /** A URL is its base without one closing slash, a slash, and the encoded full key. */
  ghost predicate Serves(url: string, base: string, path: string) {
    var front := if base != "" && base[|base| - 1] == '/' then base[..|base| - 1] else base;
    url == front + "/" + path
  }

  /** Each of the two URLs is built on its own base; a CDN URL exists exactly when there is a CDN base. */
  lemma UrlsMean(key: string, publicBase: string, cdnBase: string, keyPrefix: string)
    ensures var u := GetPublicUrls(key, publicBase, cdnBase, keyPrefix);
            var path := EncodePath(if keyPrefix == "" then key else keyPrefix + "/" + key);
            && Serves(u.url, publicBase, path)
            && (u.cdnUrl.Some? <==> cdnBase != "")
            && (u.cdnUrl.Some? ==> Serves(u.cdnUrl.value, cdnBase, path))
  {
  }

  /** Splitting the published path on slashes and percent-decoding each part gives the parts of the full key. */
  lemma PathDecodes(fullKey: string)
    ensures var parts, encoded := Split(fullKey), Split(EncodePath(fullKey));
            && |encoded| == |parts|
            && (forall i :: 0 <= i < |parts| ==> DecodeComponent(encoded[i]) == Some(parts[i]))
            && Join(parts) == fullKey
  {
    var parts := Split(fullKey);
    var encoded := EncodeAll(parts);
    forall i | 0 <= i < |parts|
      ensures '/' !in encoded[i] && DecodeComponent(encoded[i]) == Some(parts[i])
    {
      ComponentIsSafe(parts[i]);
      ComponentRoundTrip(parts[i]);
    }
    SplitJoin(encoded);
    JoinSplit(fullKey);
  }

  lemma PathIsInjective(a: string, b: string)
    requires EncodePath(a) == EncodePath(b)
    ensures a == b
  {
    PathDecodes(a);
    PathDecodes(b);
    var encoded := Split(EncodePath(a));
    forall i | 0 <= i < |encoded|
      ensures Split(a)[i] == Split(b)[i]
    {
      assert DecodeComponent(encoded[i]) == Some(Split(a)[i]);
      assert DecodeComponent(encoded[i]) == Some(Split(b)[i]);
    }
    assert Split(a) == Split(b);
  }

  /** Distinct keys get distinct public URLs and distinct CDN URLs. */
  lemma DistinctKeysDistinctUrls(a: string, b: string, publicBase: string, cdnBase: string, keyPrefix: string)
    requires a != b
    ensures var u, v := GetPublicUrls(a, publicBase, cdnBase, keyPrefix), GetPublicUrls(b, publicBase, cdnBase, keyPrefix);
            u.url != v.url && (cdnBase != [] ==> u.cdnUrl != v.cdnUrl)
  {
    WithPrefixInjective(keyPrefix, a, b);
    var p, q := EncodePath(FullKey(keyPrefix, a)), EncodePath(FullKey(keyPrefix, b));
    if p == q {
      PathIsInjective(FullKey(keyPrefix, a), FullKey(keyPrefix, b));
    }
    SameFront(WithoutLastSlash(publicBase) + "/", p, q);
    SameFront(WithoutLastSlash(cdnBase) + "/", p, q);
  }

  lemma SameFront(front: string, p: string, q: string)
    ensures front + p == front + q <==> p == q
  {
    assert (front + p)[|front|..] == p && (front + q)[|front|..] == q;
  }

  /**
   * The published key is the stored key exactly when the configured prefix has no
   * slash at either end and the raw key has no double slash.
   */
  lemma PublishedIsStoredExactlyWhenNormal(keyPrefix: string, key: string)
    requires IsAccepted(key)
    ensures ComposeKey(keyPrefix, key).Ok?
    ensures FullKey(keyPrefix, key) == ComposeKey(keyPrefix, key).value
       <==> !Leads(keyPrefix) && !Trails(keyPrefix) && NoTwo('/', key)
  {
    var p, c := TrimSlashes(keyPrefix), Collapse(key);
    CollapseIsNormal(key);
    CollapseKeeps(key);
    var front, back := TrimRemovesEndsOnly(keyPrefix);
    if FullKey(keyPrefix, key) == ComposeKey(keyPrefix, key).value {
      assert |front| == |back| == 0;
      assert p == keyPrefix;
      WithPrefixInjective(p, key, c);
    }
    if !Leads(keyPrefix) && !Trails(keyPrefix) {
      assert p == keyPrefix;
    }
  }
}
