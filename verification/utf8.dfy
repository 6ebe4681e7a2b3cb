/** UTF-8 well-formedness as RFC 3629 section 4 defines it: exactly the byte
    strings `std::str::from_utf8` accepts, and the invariant of Rust's `str`. */
module Utf8 {
  import opened ByteOrder

  /** A continuation byte, 10xxxxxx. */
  predicate Tail(b: byte) {
    0x80 <= b <= 0xBF
  }

  /** The length of the well-formed encoded scalar value at the start of `s`
      (one row of the RFC 3629 table), or 0 when `s` does not start with one:
      overlong forms, surrogates and values above U+10FFFF are all refused. */
  function ScalarWidth(s: seq<byte>): (n: nat)
    requires |s| > 0
    ensures n <= 4 && n <= |s|
  {
    var b := s[0];
    if b <= 0x7F then 1
    else if 0xC2 <= b <= 0xDF then
      if |s| >= 2 && Tail(s[1]) then 2 else 0
    else if b == 0xE0 then
      if |s| >= 3 && 0xA0 <= s[1] <= 0xBF && Tail(s[2]) then 3 else 0
    else if 0xE1 <= b <= 0xEC || 0xEE <= b <= 0xEF then
      if |s| >= 3 && Tail(s[1]) && Tail(s[2]) then 3 else 0
    else if b == 0xED then
      if |s| >= 3 && 0x80 <= s[1] <= 0x9F && Tail(s[2]) then 3 else 0
    else if b == 0xF0 then
      if |s| >= 4 && 0x90 <= s[1] <= 0xBF && Tail(s[2]) && Tail(s[3]) then 4 else 0
    else if 0xF1 <= b <= 0xF3 then
      if |s| >= 4 && Tail(s[1]) && Tail(s[2]) && Tail(s[3]) then 4 else 0
    else if b == 0xF4 then
      if |s| >= 4 && 0x80 <= s[1] <= 0x8F && Tail(s[2]) && Tail(s[3]) then 4 else 0
    else 0
  }

  /** `s` is a sequence of well-formed encoded scalar values. */
  predicate ValidUtf8(s: seq<byte>)
    decreases |s|
  {
    |s| == 0 || (ScalarWidth(s) > 0 && ValidUtf8(s[ScalarWidth(s)..]))
  }

  /** A Rust `String`/`str`: well-formed UTF-8 whose length fits `u64`. */
  type Text = s: seq<byte> | ValidUtf8(s) && |s| < TWO_64 witness []

  /** Every ASCII string is well-formed UTF-8. */
  lemma {:induction false} AsciiIsUtf8(s: seq<byte>)
    requires forall i :: 0 <= i < |s| ==> s[i] < 0x80
    ensures ValidUtf8(s)
  {
    if |s| > 0 {
      assert ScalarWidth(s) == 1;
      AsciiIsUtf8(s[1..]);
    }
  }

  /** Concatenating well-formed strings gives a well-formed string. */
  lemma {:induction false} ConcatIsUtf8(a: seq<byte>, b: seq<byte>)
    requires ValidUtf8(a) && ValidUtf8(b)
    ensures ValidUtf8(a + b)
    decreases |a|
  {
    if |a| > 0 {
      var n := ScalarWidth(a);
      assert ValidUtf8(a[n..]);
      assert (a + b)[..|a|] == a;
      ScalarWidthPrefix(a, a + b);
      assert (a + b)[n..] == a[n..] + b;
      ConcatIsUtf8(a[n..], b);
      assert ValidUtf8((a + b)[n..]);
    } else {
      assert a + b == b;
    }
  }

  /** The width of the first scalar only depends on the bytes it covers. */
  lemma ScalarWidthPrefix(a: seq<byte>, c: seq<byte>)
    requires |a| > 0 && ScalarWidth(a) > 0
    requires |c| >= |a| && c[..|a|] == a
    ensures ScalarWidth(c) == ScalarWidth(a)
  {
    assert forall i :: 0 <= i < |a| ==> c[i] == a[i];
  }

  /** Validation by a forward scan, one scalar value per step, the way a
      validator such as `from_utf8` walks its input. */
  method Validate(s: seq<byte>) returns (ok: bool)
    ensures ok <==> ValidUtf8(s)
  {
    var i := 0;
    while i < |s|
      invariant 0 <= i <= |s|
      invariant ValidUtf8(s) <==> ValidUtf8(s[i..])
    {
      var n := ScalarWidth(s[i..]);
      if n == 0 {
        return false;
      }
      assert s[i..][n..] == s[i + n..];
      i := i + n;
    }
    return true;
  }
}
