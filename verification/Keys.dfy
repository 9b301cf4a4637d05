/**
 * Object keys: how a caller's raw key becomes the key a provider stores. The module
 * mirrors the library's resolver: traversal shapes are refused, runs of slashes
 * collapse to one, and the single global prefix is put in front.
 */
module Keys {
  import opened Wrappers

  // ---------------------------------------------------------------------
  // `split('/')` and `join('/')`
  // ---------------------------------------------------------------------

  function Split(s: string): (parts: seq<string>)
    ensures parts != []
  {
    if s == [] then [[]]
    else
      var rest := Split(s[1..]);
      if s[0] == '/' then [[]] + rest else [[s[0]] + rest[0]] + rest[1..]
  }

  function Join(parts: seq<string>): string {
    if parts == [] then []
    else if |parts| == 1 then parts[0]
    else parts[0] + "/" + Join(parts[1..])
  }

  lemma {:induction false} JoinSplit(s: string)
    ensures Join(Split(s)) == s
  {
    if s != [] {
      JoinSplit(s[1..]);
      var rest := Split(s[1..]);
      if s[0] == '/' {
        assert Split(s)[1..] == rest;
      } else {
        JoinPrepend(s[0], rest);
      }
    }
  }

  lemma JoinPrepend(c: char, parts: seq<string>)
    requires parts != []
    ensures Join([[c] + parts[0]] + parts[1..]) == [c] + Join(parts)
  {
    var p := [[c] + parts[0]] + parts[1..];
    assert p[1..] == parts[1..];
    if |parts| > 1 {
      assert ([c] + parts[0]) + "/" + Join(parts[1..]) == [c] + (parts[0] + "/" + Join(parts[1..]));
    }
  }

  lemma {:induction false} SplitPart(part: string, s: string)
    requires '/' !in part
    ensures Split(part) == [part]
    ensures Split(part + "/" + s) == [part] + Split(s)
  {
    if part == [] {
      assert part + "/" + s == "/" + s;
    } else {
      SplitPart(part[1..], s);
      assert [part[0]] + part[1..] == part;
      assert (part + "/" + s)[1..] == part[1..] + "/" + s;
    }
  }

  lemma {:induction false} SplitJoin(parts: seq<string>)
    requires parts != [] && forall p :: p in parts ==> '/' !in p
    ensures Split(Join(parts)) == parts
  {
    if |parts| == 1 {
      SplitPart(parts[0], []);
    } else {
      SplitJoin(parts[1..]);
      SplitPart(parts[0], Join(parts[1..]));
    }
  }

  // ---------------------------------------------------------------------
  // Collapsing runs of slashes
  // ---------------------------------------------------------------------

  /** `replace(/\/{2,}/g, '/')`. */
  function Collapse(s: string): string {
    if |s| >= 2 && s[0] == '/' && s[1] == '/' then Collapse(s[1..])
    else if s == [] then []
    else [s[0]] + Collapse(s[1..])
  }

  function NonEmpty(parts: seq<string>): seq<string> {
    if parts == [] then []
    else if parts[0] == [] then NonEmpty(parts[1..])
    else [parts[0]] + NonEmpty(parts[1..])
  }

  /** The folder names and the file name of a key. */
  function Segments(s: string): seq<string> {
    NonEmpty(Split(s))
  }

  predicate Leads(s: string) {
    s != [] && s[0] == '/'
  }

  predicate Trails(s: string) {
    s != [] && s[|s| - 1] == '/'
  }

  /** Segments with single slashes between them, and at either end when asked for. */
  function Assemble(leads: bool, segments: seq<string>, trails: bool): string {
    (if leads then "/" else "")
    + if segments == [] then "" else Join(segments) + if trails then "/" else ""
  }

  /** Collapsing keeps exactly the segments and whether there is a slash at either end. */
  lemma {:induction false} CollapseNormalForm(s: string)
    ensures Collapse(s) == Assemble(Leads(s), Segments(s), Trails(s))
  {
    if s != [] {
      var t := s[1..];
      CollapseNormalForm(t);
      if s[0] == '/' {
        assert Split(s)[1..] == Split(t);
        assert "/" + Assemble(false, Segments(t), Trails(t)) == Assemble(true, Segments(t), Trails(t));
      } else {
        ConsOnAssemble(s);
      }
    }
  }

  /** One ordinary character in front of a key. */
  lemma ConsOnSegments(s: string)
    requires s != [] && s[0] != '/'
    ensures var t := s[1..];
            Segments(s) == if t == [] || Leads(t) then [[s[0]]] + Segments(t)
                           else [[s[0]] + Segments(t)[0]] + Segments(t)[1..]
    ensures s[1..] != [] && !Leads(s[1..]) ==> Segments(s[1..]) != []
  {
    var c, t := s[0], s[1..];
    var r := Split(t);
    assert Split(s)[0] == [c] + r[0] && Split(s)[1..] == r[1..];
    if t == [] || t[0] == '/' {
      assert r[0] == [] && [c] + r[0] == [c];
      assert NonEmpty(r) == NonEmpty(r[1..]);
    } else {
      assert r[0] != [];
      assert Segments(t)[1..] == NonEmpty(r[1..]);
    }
  }

  lemma {:induction false} OnlySlashes(s: string)
    requires Segments(s) == []
    ensures s != [] ==> Leads(s) && Trails(s)
  {
    if s != [] {
      if s[0] == '/' {
        assert Split(s)[1..] == Split(s[1..]);
        OnlySlashes(s[1..]);
      } else {
        ConsOnSegments(s);
      }
    }
  }

  lemma ConsOnAssemble(s: string)
    requires s != [] && s[0] != '/'
    ensures var t := s[1..];
            Assemble(false, Segments(s), Trails(s)) == [s[0]] + Assemble(Leads(t), Segments(t), Trails(t))
  {
    var c, t := s[0], s[1..];
    var g := Segments(t);
    ConsOnSegments(s);
    assert t != [] ==> Trails(s) == Trails(t);
    if g == [] {
      OnlySlashes(t);
      assert Segments(s) == [[c]];
      AssembleOne(c, Trails(s));
    } else if t[0] == '/' {
      AssembleNewSegment(c, g, Trails(s));
    } else {
      AssemblePrepend(c, g, Trails(s));
    }
  }

  lemma AssembleOne(c: char, trails: bool)
    ensures Assemble(false, [[c]], trails) == [c] + Assemble(trails, [], trails)
  {
  }

  lemma AssembleNewSegment(c: char, g: seq<string>, trails: bool)
    requires g != []
    ensures Assemble(false, [[c]] + g, trails) == [c] + Assemble(true, g, trails)
  {
    var end := if trails then "/" else "";
    assert ([[c]] + g)[1..] == g;
    assert Join([[c]] + g) == [c] + "/" + Join(g);
    assert "" + (([c] + "/" + Join(g)) + end) == [c] + ("/" + (Join(g) + end));
  }

  lemma AssemblePrepend(c: char, g: seq<string>, trails: bool)
    requires g != []
    ensures Assemble(false, [[c] + g[0]] + g[1..], trails) == [c] + Assemble(false, g, trails)
  {
    var end := if trails then "/" else "";
    JoinPrepend(c, g);
    assert "" + (([c] + Join(g)) + end) == [c] + ("" + (Join(g) + end));
  }

  /** What collapsing keeps. */
  lemma {:induction false} CollapseKeeps(s: string)
    ensures Segments(Collapse(s)) == Segments(s)
    ensures Leads(Collapse(s)) == Leads(s) && Trails(Collapse(s)) == Trails(s)
    ensures Collapse(s) == [] <==> s == []
    ensures |Collapse(s)| <= |s|
  {
    if s != [] {
      var t := s[1..];
      CollapseKeeps(t);
      if s[0] == '/' {
        assert Split(s)[1..] == Split(t);
        var k := "/" + Collapse(t);
        assert k[1..] == Collapse(t);
        assert Split(k)[1..] == Split(Collapse(t));
      } else {
        var k := [s[0]] + Collapse(t);
        assert k[1..] == Collapse(t);
        ConsOnSegments(s);
        ConsOnSegments(k);
      }
    }
  }

  /** The collapsed forms of two keys are equal exactly when they have the same segments and end slashes. */
  lemma CollapseEqual(a: string, b: string)
    ensures Collapse(a) == Collapse(b)
       <==> Segments(a) == Segments(b) && Leads(a) == Leads(b) && Trails(a) == Trails(b)
  {
    CollapseNormalForm(a);
    CollapseNormalForm(b);
    CollapseKeeps(a);
    CollapseKeeps(b);
  }

  predicate NoTwo(c: char, s: string) {
    forall i :: 0 <= i < |s| - 1 ==> !(s[i] == c && s[i + 1] == c)
  }

  /** Collapsing is idempotent, its fixed points are the keys without a double slash, and its results are fixed points. */
  lemma CollapseIsNormal(s: string)
    ensures Collapse(Collapse(s)) == Collapse(s)
    ensures Collapse(s) == s <==> NoTwo('/', s)
  {
    CollapseKeeps(s);
    CollapseEqual(s, Collapse(s));
    CollapseFixed(s);
  }

  lemma {:induction false} CollapseFixed(s: string)
    ensures Collapse(s) == s <==> NoTwo('/', s)
  {
    if s != [] {
      var t := s[1..];
      CollapseFixed(t);
      CollapseKeeps(t);
      if |s| >= 2 && s[0] == '/' && s[1] == '/' {
        assert Collapse(s) != s;
      } else {
        assert ([s[0]] + Collapse(t) == s) == (Collapse(t) == t) by {
          assert s == [s[0]] + t;
          assert ([s[0]] + Collapse(t))[1..] == Collapse(t);
        }
        assert NoTwo('/', s) == NoTwo('/', t) by {
          if NoTwo('/', t) {
            forall i | 0 <= i < |s| - 1
              ensures !(s[i] == '/' && s[i + 1] == '/')
            {
              assert i > 0 ==> s[i] == t[i - 1] && s[i + 1] == t[i];
            }
          }
          if NoTwo('/', s) {
            forall i | 0 <= i < |t| - 1
              ensures !(t[i] == '/' && t[i + 1] == '/')
            {
              assert t[i] == s[i + 1] && t[i + 1] == s[i + 2];
            }
          }
        }
      }
    }
  }

  // ---------------------------------------------------------------------
  // Composition
  // ---------------------------------------------------------------------

  function TrimLeft(s: string): (r: string)
    ensures !Leads(r)
  {
    if Leads(s) then TrimLeft(s[1..]) else s
  }

  function TrimRight(s: string): (r: string)
    ensures !Trails(r)
    ensures r <= s
  {
    if Trails(s) then TrimRight(s[..|s| - 1]) else s
  }

  /** `replace(/^\/+|\/+$/g, '')`. */
  function TrimSlashes(s: string): (r: string)
    ensures !Leads(r) && !Trails(r)
  {
    TrimRight(TrimLeft(s))
  }

  predicate AllSlashes(s: string) {
    forall c :: c in s ==> c == '/'
  }

  /** Trimming removes slashes at the two ends, all of them, and nothing else. */
  lemma TrimRemovesEndsOnly(s: string) returns (front: string, back: string)
    ensures s == front + TrimSlashes(s) + back
    ensures AllSlashes(front) && AllSlashes(back)
  {
    front := TrimLeftRemoves(s);
    back := TrimRightRemoves(TrimLeft(s));
    assert front + (TrimSlashes(s) + back) == front + TrimSlashes(s) + back;
  }

  lemma {:induction false} TrimLeftRemoves(s: string) returns (front: string)
    ensures s == front + TrimLeft(s) && AllSlashes(front)
  {
    front := [];
    if Leads(s) {
      front := TrimLeftRemoves(s[1..]);
      assert s == [s[0]] + s[1..];
      front := [s[0]] + front;
    }
  }

  lemma {:induction false} TrimRightRemoves(s: string) returns (back: string)
    ensures s == TrimRight(s) + back && AllSlashes(back)
  {
    back := [];
    if Trails(s) {
      back := TrimRightRemoves(s[..|s| - 1]);
      assert s == s[..|s| - 1] + [s[|s| - 1]];
      back := back + [s[|s| - 1]];
    }
  }

  datatype StorageError = KeyInvalid | ObjectNotFound | RangeNotSatisfiable | ProviderError

  predicate IsAccepted(rawKey: string) {
    !Leads(rawKey) && ".." !in Split(rawKey)
  }

  function WithPrefix(prefix: string, key: string): string {
    if prefix != [] then prefix + "/" + key else key
  }

  function ComposeKey(keyPrefix: string, rawKey: string): Result<string, StorageError> {
    if Leads(rawKey) || ".." in Split(rawKey) then Err(KeyInvalid)
    else Ok(WithPrefix(TrimSlashes(keyPrefix), Collapse(rawKey)))
  }

  /** A part stands between two slashes, or between a slash and an end of the key. */
  predicate StandsAt(s: string, part: string, i: nat) {
    && i + |part| <= |s| && s[i..i + |part|] == part
    && (i == 0 || s[i - 1] == '/')
    && (i + |part| == |s| || s[i + |part|] == '/')
  }

  lemma {:induction false} FirstPart(s: string, part: string)
    requires '/' !in part
    ensures Split(s)[0] == part <==> StandsAt(s, part, 0)
  {
    if s != [] && s[0] != '/' {
      if part != [] {
        FirstPart(s[1..], part[1..]);
        assert Split(s)[0] == [s[0]] + Split(s[1..])[0];
        assert part == [part[0]] + part[1..];
        if |part| <= |s| {
          assert s[0..|part|] == [s[0]] + s[1..][0..|part| - 1];
        }
      }
    }
  }

  lemma LaterShifts(s: string, part: string, i: nat)
    requires s != []
    ensures StandsAt(s, part, i + 1) <==> StandsAt(s[1..], part, i) && (i > 0 || s[0] == '/')
  {
    if i + 1 + |part| <= |s| {
      assert s[i + 1..i + 1 + |part|] == s[1..][i..i + |part|];
    }
  }

  /** The parts behind the first stand at later positions. */
  lemma {:induction false} LaterParts(s: string, part: string)
    requires '/' !in part
    ensures part in Split(s)[1..] <==> exists i :: 1 <= i && StandsAt(s, part, i)
  {
    if s != [] {
      var t := s[1..];
      LaterParts(t, part);
      FirstPart(t, part);
      assert Split(t) == [Split(t)[0]] + Split(t)[1..];
      if s[0] == '/' {
        assert Split(s)[1..] == Split(t);
      } else {
        assert Split(s)[1..] == Split(t)[1..];
      }
      if i :| 1 <= i && StandsAt(s, part, i) {
        LaterShifts(s, part, i - 1);
      }
      if i: nat :| (i > 0 || s[0] == '/') && StandsAt(t, part, i) {
        LaterShifts(s, part, i);
        assert StandsAt(s, part, i + 1);
      }
    }
  }

  lemma PartStands(s: string, part: string)
    requires '/' !in part
    ensures part in Split(s) <==> exists i: nat :: StandsAt(s, part, i)
  {
    FirstPart(s, part);
    LaterParts(s, part);
    assert Split(s) == [Split(s)[0]] + Split(s)[1..];
  }

  /**
   * Exactly two kinds of keys are refused: those that begin with a slash, and those in
   * which two dots stand between slashes or ends. Every other key becomes the trimmed
   * prefix, a slash, and the collapsed key, or that key alone when there is no prefix.
   */
  lemma ComposeMeans(keyPrefix: string, rawKey: string)
    ensures var refused := (rawKey != [] && rawKey[0] == '/') || exists i: nat :: StandsAt(rawKey, "..", i);
            var prefix := TrimSlashes(keyPrefix);
            && (refused <==> ComposeKey(keyPrefix, rawKey) == Err(KeyInvalid))
            && (!refused ==> ComposeKey(keyPrefix, rawKey)
                             == Ok(if prefix == "" then Collapse(rawKey) else prefix + "/" + Collapse(rawKey)))
            && (refused <==> !IsAccepted(rawKey))
  {
    PartStands(rawKey, "..");
  }

  lemma WithPrefixInjective(prefix: string, a: string, b: string)
    ensures WithPrefix(prefix, a) == WithPrefix(prefix, b) <==> a == b
  {
    var n := |prefix| + 1;
    if prefix != [] && WithPrefix(prefix, a) == WithPrefix(prefix, b) {
      assert (prefix + "/" + a)[n..] == a;
      assert (prefix + "/" + b)[n..] == b;
    }
  }

  /**
   * Two accepted keys name the same stored object exactly when they have the same
   * segments and agree on a trailing slash.
   */
  lemma SameObjectExactlyWhenSameSegments(keyPrefix: string, a: string, b: string)
    requires IsAccepted(a) && IsAccepted(b)
    ensures ComposeKey(keyPrefix, a).Ok? && ComposeKey(keyPrefix, b).Ok?
    ensures ComposeKey(keyPrefix, a) == ComposeKey(keyPrefix, b)
       <==> Segments(a) == Segments(b) && Trails(a) == Trails(b)
  {
    WithPrefixInjective(TrimSlashes(keyPrefix), Collapse(a), Collapse(b));
    CollapseEqual(a, b);
  }

  lemma {:induction false} SegmentsOfFolder(folder: string, s: string)
    requires folder != [] && !Leads(folder)
    ensures |Segments(folder + "/" + s)| > |Segments(s)|
    ensures Segments(folder + "/" + s) != []
  {
    var k := folder + "/" + s;
    var t := k[1..];
    ConsOnSegments(k);
    if |folder| == 1 {
      assert t == "/" + s;
      assert t[1..] == s;
      assert Split(t)[1..] == Split(s);
    } else if folder[1] == '/' {
      SegmentsOfTail(folder[1..], s);
      assert t == folder[1..] + "/" + s;
    } else {
      assert t == folder[1..] + "/" + s;
      SegmentsOfFolder(folder[1..], s);
    }
  }

  lemma {:induction false} SegmentsOfTail(front: string, s: string)
    ensures |Segments(front + "/" + s)| >= |Segments(s)|
  {
    var k := front + "/" + s;
    if front == [] {
      assert k[1..] == s;
      assert Split(k)[1..] == Split(s);
    } else {
      SegmentsOfTail(front[1..], s);
      assert k[1..] == front[1..] + "/" + s;
      if front[0] == '/' {
        assert Split(k)[1..] == Split(k[1..]);
      } else {
        ConsOnSegments(k);
      }
    }
  }

  /**
   * Resolving an already resolved key again changes it, unless the trimmed prefix is
   * empty: the double prefix that makes a clean-up target the wrong object.
   */
  lemma TwiceIsOnceExactlyWithoutPrefix(keyPrefix: string, rawKey: string)
    requires IsAccepted(rawKey)
    ensures var once := ComposeKey(keyPrefix, rawKey);
            once.Ok? && (ComposeKey(keyPrefix, once.value) == once <==> TrimSlashes(keyPrefix) == [])
  {
    var p, c := TrimSlashes(keyPrefix), Collapse(rawKey);
    var once := ComposeKey(keyPrefix, rawKey).value;
    CollapseKeeps(rawKey);
    CollapseIsNormal(rawKey);
    if p == [] {
      CollapseKeepsAccepted(rawKey);
    } else {
      SegmentsOfFolder(p, c);
      CollapseKeeps(once);
      WithPrefixInjective(p, Collapse(once), c);
      assert Collapse(once) != c;
    }
  }

  lemma {:induction false} DotDotIsASegment(parts: seq<string>)
    ensures ".." in parts <==> ".." in NonEmpty(parts)
  {
    if parts != [] {
      DotDotIsASegment(parts[1..]);
      assert parts == [parts[0]] + parts[1..];
    }
  }

  lemma CollapseKeepsAccepted(rawKey: string)
    requires IsAccepted(rawKey)
    ensures IsAccepted(Collapse(rawKey))
  {
    CollapseKeeps(rawKey);
    DotDotIsASegment(Split(rawKey));
    DotDotIsASegment(Split(Collapse(rawKey)));
  }

  /** A key in which no two dots meet has no `..` segment. */
  lemma {:induction false} NoTwoDotsNoTraversal(s: string)
    requires NoTwo('.', s)
    ensures ".." !in Split(s)
    ensures Split(s)[0] <= s
    ensures forall part :: part in Split(s) ==> NoTwo('.', part)
  {
    if s != [] {
      var t := s[1..];
      assert NoTwo('.', t) by {
        forall i | 0 <= i < |t| - 1
          ensures !(t[i] == '.' && t[i + 1] == '.')
        {
          assert t[i] == s[i + 1] && t[i + 1] == s[i + 2];
        }
      }
      NoTwoDotsNoTraversal(t);
      var r := Split(t);
      if s[0] != '/' {
        var head := [s[0]] + r[0];
        assert NoTwo('.', head) by {
          forall i | 0 <= i < |head| - 1
            ensures !(head[i] == '.' && head[i + 1] == '.')
          {
            if i == 0 {
              assert head[1] == r[0][0] == t[0] == s[1];
            } else {
              assert head[i] == r[0][i - 1] && head[i + 1] == r[0][i];
            }
          }
        }
      }
      forall part | part in Split(s)
        ensures NoTwo('.', part)
      {
      }
    }
    assert !NoTwo('.', "..") by {
      assert ".."[0] == '.' && ".."[0 + 1] == '.';
    }
  }
}
