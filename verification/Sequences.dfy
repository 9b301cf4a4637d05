/** Sequence and set operations shared by text, bytes and parts: clamped prefixes, members, concatenation, substring search. */
module Sequences {

  /** `subarray(0, n)`, `slice(0, n)`: the end index is clamped. */
  function Prefix<T>(s: seq<T>, n: nat): seq<T> {
    if n < |s| then s[..n] else s
  }

  ghost function Members<T>(q: seq<T>): set<T> {
    set x | x in q
  }

  ghost predicate Distinct<T>(q: seq<T>) {
    forall i, j :: 0 <= i < j < |q| ==> q[i] != q[j]
  }

  function Flatten<T>(parts: seq<seq<T>>): seq<T> {
    if parts == [] then [] else parts[0] + Flatten(parts[1..])
  }

  lemma Associate<T>(a: seq<T>, b: seq<T>, c: seq<T>)
    ensures (a + b) + c == a + (b + c)
  {
  }

  lemma {:induction false} FlattenConcat<T>(a: seq<seq<T>>, b: seq<seq<T>>)
    ensures Flatten(a + b) == Flatten(a) + Flatten(b)
  {
    if a == [] {
      assert a + b == b;
    } else {
      var x, y, z := a[0], Flatten(a[1..]), Flatten(b);
      assert (a + b)[1..] == a[1..] + b;
      assert Flatten(a + b) == x + (y + z) by {
        FlattenConcat(a[1..], b);
      }
      assert x + (y + z) == (x + y) + z;
    }
  }

  lemma FlattenSnoc<T>(parts: seq<seq<T>>, part: seq<T>)
    ensures Flatten(parts + [part]) == Flatten(parts) + part
  {
    FlattenConcat(parts, [part]);
    assert Flatten([part]) == part + Flatten([]);
  }

  lemma SplitsAround<T>(s: seq<T>, i: nat)
    requires i < |s|
    ensures s[..i + 1] == s[..i] + [s[i]]
    ensures s == s[..i + 1] + s[i + 1..]
  {
  }

  /** What a loop over the parts knows before and after part `i`. */
  lemma FlattenAt<T>(parts: seq<seq<T>>, i: nat)
    requires i < |parts|
    ensures Flatten(parts[..i + 1]) == Flatten(parts[..i]) + parts[i]
    ensures Flatten(parts) == Flatten(parts[..i + 1]) + Flatten(parts[i + 1..])
  {
    FlattenSnoc(parts[..i], parts[i]);
    FlattenConcat(parts[..i + 1], parts[i + 1..]);
    SplitsAround(parts, i);
  }

  lemma SubsetCount<T>(a: set<T>, b: set<T>)
    requires a <= b
    ensures |a| <= |b|
  {
    assert b == a + (b - a);
  }

  lemma {:induction false} DistinctCount<T>(q: seq<T>)
    requires Distinct(q)
    ensures |Members(q)| == |q|
  {
    if q != [] {
      DistinctCount(q[1..]);
      assert Members(q) == {q[0]} + Members(q[1..]);
    }
  }

  predicate StartsWith<T(==)>(s: seq<T>, m: seq<T>) {
    m <= s
  }

  /** Scans from the left, as the runtime does. */
  predicate Includes<T(==)>(s: seq<T>, m: seq<T>) {
    StartsWith(s, m) || (s != [] && Includes(s[1..], m))
  }

  /** What the scan decides: `m` stands somewhere in `s`. */
  lemma {:induction false} IncludesMeansOccurs<T>(s: seq<T>, m: seq<T>)
    ensures Includes(s, m) <==> exists i :: 0 <= i <= |s| && m <= s[i..]
  {
    if s != [] {
      IncludesMeansOccurs(s[1..], m);
      if i :| 0 <= i <= |s| && m <= s[i..] {
        if i > 0 {
          assert s[i..] == s[1..][i - 1..];
        } else {
          assert s[0..] == s;
        }
      }
      if StartsWith(s, m) {
        assert m <= s[0..];
      } else if j :| 0 <= j <= |s[1..]| && m <= s[1..][j..] {
        assert s[1..][j..] == s[j + 1..];
      }
    } else {
      assert s[0..] == s;
    }
  }

  /** A front part in which a pattern's first symbol does not occur cannot host the pattern. */
  lemma {:induction false} SkipFront<T>(front: seq<T>, s: seq<T>, m: seq<T>)
    requires m != [] && m[0] !in front
    ensures Includes(front + s, m) <==> Includes(s, m)
  {
    if front == [] {
      assert front + s == s;
    } else {
      SkipFront(front[1..], s, m);
      assert (front + s)[1..] == front[1..] + s;
      assert (front + s)[0] == front[0];
    }
  }
}
