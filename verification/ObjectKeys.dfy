/**
 * What the server demands of an object key before the library sees it: at most 1024
 * bytes of UTF-8, and no control character.
 */
module ObjectKeys {
  import opened Utf
  import opened Truncation

  const MAX_KEY_BYTES: nat := 1024
  const LAST_CONTROL_CODE := 0x1F
  const DELETE_CODE := 0x7F

  predicate IsControl(code: int) {
    code <= LAST_CONTROL_CODE || code == DELETE_CODE
  }

  ghost predicate NoneIsControl(codes: seq<int>) {
    forall i :: 0 <= i < |codes| ==> !IsControl(codes[i])
  }

  /** Looks at the code units of the string; what it decides is a property of the bytes sent. */
  method HasNoControlCharacters(key: seq<CodeUnit>) returns (ok: bool)
    ensures ok <==> forall i :: 0 <= i < |Utf8Bytes(key)| ==> Utf8Bytes(key)[i] > 0x1F && Utf8Bytes(key)[i] != 0x7F
  {
    UnitsAndBytesAgree(key);
    var index := 0;
    while index < |key|
      invariant 0 <= index <= |key|
      invariant NoneIsControl(key[..index])
    {
      if IsControl(key[index]) {
        return false;
      }
      index := index + 1;
    }
    assert key[..|key|] == key;
    ok := true;
  }

  lemma NoneInConcat(a: seq<int>, b: seq<int>)
    ensures NoneIsControl(a + b) <==> NoneIsControl(a) && NoneIsControl(b)
  {
    var s := a + b;
    if NoneIsControl(s) {
      assert forall i :: 0 <= i < |a| ==> a[i] == s[i];
      assert forall i :: 0 <= i < |b| ==> b[i] == s[|a| + i];
    }
  }

  /** No unit of a string is a control code exactly when no byte of its UTF-8 form is, lone surrogates included. */
  lemma {:induction false} UnitsAndBytesAgree(u: seq<CodeUnit>)
    ensures NoneIsControl(u) <==> NoneIsControl(Utf8Bytes(u))
  {
    if u != [] {
      var d := ScalarAt(u);
      var front, t := u[..d.used], u[d.used..];
      UnitsAndBytesAgree(t);
      assert u == front + t;
      NoneInConcat(front, t);
      assert Utf8Bytes(u) == EncodeChar(d.c) + Utf8Bytes(t) by {
        assert ([d.c] + Scalars(t))[1..] == Scalars(t);
      }
      NoneInConcat(EncodeChar(d.c), Utf8Bytes(t));
      FirstAgrees(u);
    }
  }

  lemma FirstAgrees(u: seq<CodeUnit>)
    requires u != []
    ensures NoneIsControl(u[..ScalarAt(u).used]) <==> NoneIsControl(EncodeChar(ScalarAt(u).c))
  {
    var d := ScalarAt(u);
    if d.c as int < 0x80 {
      assert u[..d.used] == [u[0]] && EncodeChar(d.c) == [u[0]];
    } else {
      assert forall i :: 0 <= i < |EncodeChar(d.c)| ==> EncodeChar(d.c)[i] >= 0x80;
    }
  }

  predicate IsWithinKeyByteLimit(value: seq<CodeUnit>) {
    |Utf8Bytes(value)| <= MAX_KEY_BYTES
  }

  lemma {:induction false} BytesPerUnit(u: seq<CodeUnit>)
    ensures |u| <= |Utf8Bytes(u)| <= 3 * |u|
  {
    if u != [] {
      var d := ScalarAt(u);
      var t := u[d.used..];
      BytesPerUnit(t);
      assert Utf8Bytes(u) == EncodeChar(d.c) + Utf8Bytes(t) by {
        assert ([d.c] + Scalars(t))[1..] == Scalars(t);
      }
    }
  }

  function Euros(n: nat): seq<CodeUnit> {
    if n == 0 then [] else [0x20AC] + Euros(n - 1)
  }

  lemma {:induction false} EurosTakeThreeBytes(n: nat)
    ensures |Euros(n)| == n && |Utf8Bytes(Euros(n))| == 3 * n
  {
    if n > 0 {
      EurosTakeThreeBytes(n - 1);
      var u, t := Euros(n), Euros(n - 1);
      assert u[1..] == t;
      assert Scalars(u) == [0x20AC as char] + Scalars(t);
      assert ([0x20AC as char] + Scalars(t))[1..] == Scalars(t);
    }
  }

  /**
   * Counting code units decides the byte limit only up to 341 and beyond 1024 of them:
   * for every count above 341 there is a key of that many units that is too long.
   */
  lemma KeyLimitMeasuresBytes(value: seq<CodeUnit>, n: nat)
    ensures IsWithinKeyByteLimit(value) <==> |Utf8Bytes(value)| <= 1024
    ensures |value| <= 341 ==> IsWithinKeyByteLimit(value)
    ensures |value| > 1024 ==> !IsWithinKeyByteLimit(value)
    ensures n > 341 ==> |Euros(n)| == n && !IsWithinKeyByteLimit(Euros(n))
  {
    BytesPerUnit(value);
    EurosTakeThreeBytes(n);
  }

  /** What the request schemas admit as an object key, of a well-formed text. */
  ghost predicate IsObjectKey(key: string) {
    key != [] && |Encode(key)| <= MAX_KEY_BYTES && NoneIsControl(Encode(key))
  }

  /** Text bodies are cut in the browser with the measure the server limits keys by: cutting to the key limit would keep exactly the keys within it. */
  lemma KeyLimitAgreesWithTruncation(value: seq<CodeUnit>)
    ensures IsWithinKeyByteLimit(value) <==> Truncated(value, MAX_KEY_BYTES) == value
    ensures IsWithinKeyByteLimit(Truncated(value, MAX_KEY_BYTES))
  {
    ResultFits(value, MAX_KEY_BYTES);
  }
}
