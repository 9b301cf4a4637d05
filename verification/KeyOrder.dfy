/**
 * The order in which a provider lists keys. Providers compare the UTF-8 bytes of
 * two keys; `LessIsByteOrder` shows that this is the order of their scalar values.
 */
module KeyOrder {
  import opened Wrappers
  import opened Sequences
  import opened Utf

  predicate Less(a: string, b: string) {
    b != [] && (a == [] || a[0] < b[0] || (a[0] == b[0] && Less(a[1..], b[1..])))
  }

  lemma {:induction false} LessIsStrict(a: string)
    ensures !Less(a, a)
  {
    if a != [] {
      LessIsStrict(a[1..]);
    }
  }

  lemma {:induction false} LessIsTotal(a: string, b: string)
    ensures a == b || Less(a, b) || Less(b, a)
  {
    if a != [] && b != [] && a[0] == b[0] {
      LessIsTotal(a[1..], b[1..]);
      if a[1..] == b[1..] {
        assert a == [a[0]] + a[1..] && b == [b[0]] + b[1..];
      }
    }
  }

  lemma {:induction false} LessIsTransitive(a: string, b: string, c: string)
    requires Less(a, b) && Less(b, c)
    ensures Less(a, c)
  {
    if a != [] && a[0] == b[0] == c[0] {
      LessIsTransitive(a[1..], b[1..], c[1..]);
    }
  }

  // ---------------------------------------------------------------------
  // The order of scalar values is the order of UTF-8 bytes
  // ---------------------------------------------------------------------

  predicate BytesLess(a: seq<Byte>, b: seq<Byte>) {
    b != [] && (a == [] || a[0] < b[0] || (a[0] == b[0] && BytesLess(a[1..], b[1..])))
  }

  lemma {:induction false} BytesLessIsOneWay(a: seq<Byte>, b: seq<Byte>)
    requires BytesLess(a, b)
    ensures !BytesLess(b, a)
  {
    if a != [] && a[0] == b[0] {
      BytesLessIsOneWay(a[1..], b[1..]);
    }
  }

  lemma {:induction false} SameFrontBytes(front: seq<Byte>, a: seq<Byte>, b: seq<Byte>)
    ensures BytesLess(front + a, front + b) <==> BytesLess(a, b)
  {
    if front == [] {
      assert front + a == a && front + b == b;
    } else {
      SameFrontBytes(front[1..], a, b);
      assert (front + a)[1..] == front[1..] + a && (front + b)[1..] == front[1..] + b;
    }
  }

  /** The first difference decides. */
  lemma {:induction false} FirstDifference(a: seq<Byte>, b: seq<Byte>, i: nat)
    requires i < |a| && i < |b| && a[i] < b[i]
    requires forall j :: 0 <= j < i ==> a[j] == b[j]
    ensures BytesLess(a, b)
  {
    if i > 0 {
      FirstDifference(a[1..], b[1..], i - 1);
    }
  }

  /** The lowest six bits decide only between equal rests. */
  lemma SixBits(v: nat, w: nat)
    requires v < w
    ensures v / 0x40 < w / 0x40 || (v / 0x40 == w / 0x40 && v % 0x40 < w % 0x40)
  {
  }

  lemma TwelveBits(v: nat, w: nat)
    requires v < w
    ensures v / 0x1000 == v / 0x40 / 0x40 && w / 0x1000 == w / 0x40 / 0x40
    ensures || v / 0x1000 < w / 0x1000
            || (v / 0x1000 == w / 0x1000
                && (v / 0x40 % 0x40 < w / 0x40 % 0x40 || (v / 0x40 == w / 0x40 && v % 0x40 < w % 0x40)))
  {
    SixBits(v, w);
    if v / 0x40 < w / 0x40 {
      SixBits(v / 0x40, w / 0x40);
    }
  }

  /** Where two different scalar values first differ in their bytes, the smaller one has the smaller byte. */
  lemma CharsDiffer(c: char, d: char) returns (i: nat)
    requires c < d
    ensures i < |EncodeChar(c)| && i < |EncodeChar(d)| && EncodeChar(c)[i] < EncodeChar(d)[i]
    ensures forall j :: 0 <= j < i ==> EncodeChar(c)[j] == EncodeChar(d)[j]
  {
    var v, w := c as int, d as int;
    i := 0;
    if 0x80 <= v && w < 0x800 {
      SixBits(v, w);
      i := if v / 0x40 < w / 0x40 then 0 else 1;
    } else if 0x800 <= v && w < 0x1_0000 {
      i := ThreeBytesDiffer(v, w);
    } else if 0x1_0000 <= v {
      i := LongCharsDiffer(v, w);
    } else {
      LeadsDiffer(c, d);
    }
  }

  lemma ThreeBytesDiffer(v: nat, w: nat) returns (i: nat)
    requires 0x800 <= v < w < 0x1_0000
    ensures var p := [0xE0 + v / 0x1000, 0x80 + v / 0x40 % 0x40, 0x80 + v % 0x40];
            var q := [0xE0 + w / 0x1000, 0x80 + w / 0x40 % 0x40, 0x80 + w % 0x40];
            i < 3 && p[i] < q[i] && forall j :: 0 <= j < i ==> p[j] == q[j]
  {
    TwelveBits(v, w);
    i := if v / 0x1000 < w / 0x1000 then 0 else if v / 0x40 < w / 0x40 then 1 else 2;
  }

  lemma LongCharsDiffer(v: nat, w: nat) returns (i: nat)
    requires 0x1_0000 <= v < w < 0x11_0000
    ensures var p := [0xF0 + v / 0x4_0000, 0x80 + v / 0x1000 % 0x40, 0x80 + v / 0x40 % 0x40, 0x80 + v % 0x40];
            var q := [0xF0 + w / 0x4_0000, 0x80 + w / 0x1000 % 0x40, 0x80 + w / 0x40 % 0x40, 0x80 + w % 0x40];
            i < 4 && p[i] < q[i] && forall j :: 0 <= j < i ==> p[j] == q[j]
  {
    TwelveBits(v, w);
    assert v / 0x4_0000 == v / 0x1000 / 0x40 && w / 0x4_0000 == w / 0x1000 / 0x40;
    if v / 0x1000 < w / 0x1000 {
      SixBits(v / 0x1000, w / 0x1000);
      i := if v / 0x4_0000 < w / 0x4_0000 then 0 else 1;
    } else {
      i := if v / 0x40 < w / 0x40 then 2 else 3;
    }
  }

  /** A longer form starts with a larger byte. */
  lemma LeadsDiffer(c: char, d: char)
    requires c < d && (|EncodeChar(c)| != |EncodeChar(d)| || (d as int) < 0x80)
    ensures EncodeChar(c)[0] < EncodeChar(d)[0]
  {
  }

  lemma CharOrderIsByteOrder(c: char, d: char, x: seq<Byte>, y: seq<Byte>)
    requires c < d
    ensures BytesLess(EncodeChar(c) + x, EncodeChar(d) + y)
  {
    var i := CharsDiffer(c, d);
    FirstDifference(EncodeChar(c) + x, EncodeChar(d) + y, i);
  }

  lemma {:induction false} LessInBytes(a: string, b: string)
    requires Less(a, b)
    ensures BytesLess(Encode(a), Encode(b))
  {
    if a == [] {
      assert Encode(b) != [];
    } else if a[0] < b[0] {
      CharOrderIsByteOrder(a[0], b[0], Encode(a[1..]), Encode(b[1..]));
    } else {
      LessInBytes(a[1..], b[1..]);
      SameFrontBytes(EncodeChar(a[0]), Encode(a[1..]), Encode(b[1..]));
    }
  }

  /** The listing order is the order of the keys' UTF-8 bytes. */
  lemma LessIsByteOrder(a: string, b: string)
    ensures Less(a, b) <==> BytesLess(Encode(a), Encode(b))
  {
    LessIsTotal(a, b);
    LessIsStrict(a);
    if Less(a, b) {
      LessInBytes(a, b);
    }
    if BytesLess(Encode(a), Encode(b)) {
      BytesLessIsOneWay(Encode(a), Encode(b));
      if Less(b, a) {
        LessInBytes(b, a);
      }
    }
  }

  ghost predicate IsLeast(k: string, s: set<string>) {
    k in s && forall x :: x in s ==> x == k || Less(k, x)
  }

  /** Finds the least key of a non-empty set. */
  method LeastKey(s: set<string>) returns (k: string)
    requires s != {}
    ensures IsLeast(k, s)
  {
    k :| k in s;
    var rest := s - {k};
    while rest != {}
      invariant k in s && rest <= s
      invariant forall x :: x in s - rest ==> x == k || Less(k, x)
      decreases rest
    {
      var x :| x in rest;
      rest := rest - {x};
      LessIsTotal(x, k);
      if Less(x, k) {
        forall y | y in s - rest
          ensures y == x || Less(x, y)
        {
          if y != x && y != k {
            LessIsTransitive(x, k, y);
          }
        }
        k := x;
      }
    }
  }

  lemma {:induction false} HasLeast(s: set<string>)
    requires s != {}
    ensures exists k :: IsLeast(k, s)
    decreases |s|
  {
    var x :| x in s;
    if s == {x} {
      assert IsLeast(x, s);
    } else {
      HasLeast(s - {x});
      var k :| IsLeast(k, s - {x});
      LessIsTotal(x, k);
      if Less(x, k) {
        forall y | y in s
          ensures y == x || Less(x, y)
        {
          if y != x && y != k {
            LessIsTransitive(x, k, y);
          }
        }
        assert IsLeast(x, s);
      } else {
        assert IsLeast(k, s);
      }
    }
  }

  lemma OneLeast(k: string, k': string, s: set<string>)
    requires IsLeast(k, s) && IsLeast(k', s)
    ensures k == k'
  {
    if k != k' {
      LessIsTransitive(k, k', k);
      LessIsStrict(k);
    }
  }

  ghost function Least(s: set<string>): (k: string)
    requires s != {}
    ensures IsLeast(k, s)
  {
    HasLeast(s);
    var k :| IsLeast(k, s);
    k
  }

  /** A set of keys in listing order. */
  ghost function Sorted(s: set<string>): seq<string>
    decreases |s|
  {
    if s == {} then [] else [Least(s)] + Sorted(s - {Least(s)})
  }

  ghost predicate Increasing(q: seq<string>) {
    forall i, j :: 0 <= i < j < |q| ==> Less(q[i], q[j])
  }

  lemma IncreasingCons(k: string, q: seq<string>)
    requires Increasing(q) && forall x :: x in Members(q) ==> Less(k, x)
    ensures Increasing([k] + q)
    ensures Members([k] + q) == {k} + Members(q)
  {
    var r := [k] + q;
    forall i, j | 0 <= i < j < |r|
      ensures Less(r[i], r[j])
    {
      assert r[j] == q[j - 1] && q[j - 1] in Members(q);
      if i > 0 {
        assert r[i] == q[i - 1];
      }
    }
  }

  lemma {:induction false} SortedIsSorted(s: set<string>)
    ensures Members(Sorted(s)) == s && Increasing(Sorted(s)) && |Sorted(s)| == |s|
    decreases |s|
  {
    if s != {} {
      var k := Least(s);
      SortedIsSorted(s - {k});
      IncreasingCons(k, Sorted(s - {k}));
    }
  }

  /** There is only one increasing listing of a set. */
  lemma {:induction false} IncreasingIsSorted(q: seq<string>)
    requires Increasing(q)
    ensures Sorted(Members(q)) == q
  {
    if q != [] {
      var s, t := Members(q), q[1..];
      forall x | x in s
        ensures x == q[0] || Less(q[0], x)
      {
        var i :| 0 <= i < |q| && q[i] == x;
      }
      assert IsLeast(q[0], s);
      OneLeast(q[0], Least(s), s);
      if q[0] in t {
        var i :| 0 <= i < |t| && t[i] == q[0];
        assert Less(q[0], q[i + 1]);
        LessIsStrict(q[0]);
      }
      assert s - {q[0]} == Members(t);
      IncreasingSuffix(q, 1);
      IncreasingIsSorted(t);
    }
  }

  /** The keys a page that continues after `after` may show. */
  ghost function Beyond(s: set<string>, after: Option<string>): set<string> {
    set k | k in s && (after.None? || Less(after.value, k))
  }

  lemma IndexOrder(q: seq<string>, i: nat, j: nat)
    requires Increasing(q) && i < |q| && j < |q|
    ensures Less(q[i], q[j]) <==> i < j
  {
    LessIsStrict(q[i]);
    if j < i {
      if Less(q[i], q[j]) {
        LessIsTransitive(q[i], q[j], q[i]);
      }
    }
  }

  lemma BeyondIsSuffix(q: seq<string>, n: nat)
    requires Increasing(q) && 0 < n <= |q|
    ensures Beyond(Members(q), Some(q[n - 1])) == Members(q[n..])
  {
    var rest := Beyond(Members(q), Some(q[n - 1]));
    forall k | k in rest
      ensures k in Members(q[n..])
    {
      var i :| 0 <= i < |q| && q[i] == k;
      IndexOrder(q, n - 1, i);
      assert q[n..][i - n] == k;
    }
    forall k | k in Members(q[n..])
      ensures k in rest
    {
      var i :| 0 <= i < |q[n..]| && q[n..][i] == k;
      assert q[n + i] == k;
      IndexOrder(q, n - 1, n + i);
    }
  }

  /** What lies strictly beyond the first `n` keys of a listing is the rest of the listing. */
  lemma SortedBeyond(s: set<string>, n: nat)
    requires 0 < n <= |Sorted(s)|
    ensures Sorted(Beyond(s, Some(Sorted(s)[n - 1]))) == Sorted(s)[n..]
  {
    var q := Sorted(s);
    SortedIsSorted(s);
    BeyondIsSuffix(q, n);
    IncreasingSuffix(q, n);
    IncreasingIsSorted(q[n..]);
  }

  lemma IncreasingSuffix(q: seq<string>, n: nat)
    requires Increasing(q) && n <= |q|
    ensures Increasing(q[n..])
  {
    forall i, j | 0 <= i < j < |q[n..]|
      ensures Less(q[n..][i], q[n..][j])
    {
      assert q[n..][i] == q[n + i] && q[n..][j] == q[n + j];
    }
  }

  /** The first `n` keys of a set in listing order, and whether there are more. */
  method FirstKeys(s: set<string>, n: nat) returns (shown: seq<string>, more: bool)
    ensures more == (|Sorted(s)| > n)
    ensures shown == if more then Sorted(s)[..n] else Sorted(s)
  {
    var rest := s;
    shown := [];
    while |shown| < n && rest != {}
      invariant |shown| <= n
      invariant Sorted(s) == shown + Sorted(rest)
      decreases rest
    {
      var k := LeastKey(rest);
      OneLeast(k, Least(rest), rest);
      assert shown + ([k] + Sorted(rest - {k})) == (shown + [k]) + Sorted(rest - {k});
      shown, rest := shown + [k], rest - {k};
    }
    more := rest != {};
  }
}
