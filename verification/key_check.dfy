/** `read_key` of src/decode.rs against what `Encode for str` writes. The
    helper skips one byte, where it expects the text header, and compares the
    next `|key|` bytes with the key. A text header is one byte only for keys
    of up to 23 bytes; a longer key is written behind a header of two or more
    bytes, so the helper compares the key against the header's last byte and
    the key shifted by one, and refuses a key it should accept. `ReadKeyChecked`
    reads the header for what it is and accepts every key written by the
    encoder. */
module KeyCheck {
  import opened ByteOrder
  import opened Results
  import opened Utf8
  import opened Ipld
  import opened Reader
  import opened ScalarDecode
  import opened Encode
  import opened RoundTrip

  /** As written, a short key written by the encoder is read back. */
  lemma ShortKeyAccepted(key: Text, tail: seq<byte>)
    requires |key| <= 23
    ensures ReadKey(EncodeStr(key) + tail, key) == Ok(tail)
  {
    var s := EncodeStr(key) + tail;
    assert s[1..|key| + 1] == EncodeStr(key)[1..];
  }

  /** As written, a key of 24 to 255 bytes written by the encoder is refused
      unless every byte of it equals its length: the compared window starts at
      the header's length byte, so it is the key shifted by one behind that
      byte. A key of 24 bytes `a` is refused. */
  lemma LongKeyRefused(key: Text, tail: seq<byte>)
    requires 24 <= |key| < 256 && exists i :: 0 <= i < |key| && key[i] != |key|
    ensures ReadKey(EncodeStr(key) + tail, key) == Err(UnexpectedKey)
  {
    var s := EncodeStr(key) + tail;
    LongKeyWindow(key, tail);
    if s[1..|key| + 1] == key {
      var i :| 0 <= i < |key| && key[i] != |key|;
      ShiftedIsConstant(|key|, key, i);
    }
  }

  /** As written, a key of 24 to 255 bytes that all equal its length is
      accepted, and reading stops one byte short of the key's end. */
  lemma LongUniformKeyAccepted(key: Text, tail: seq<byte>)
    requires 24 <= |key| < 256 && forall i :: 0 <= i < |key| ==> key[i] == |key|
    ensures ReadKey(EncodeStr(key) + tail, key) == Ok([|key| as byte] + tail)
  {
    var s := EncodeStr(key) + tail;
    LongKeyWindow(key, tail);
    assert [|key| as byte] + key[..|key| - 1] == key;
    assert s[|key| + 1..] == [key[|key| - 1]] + tail;
  }

  /** Behind the encoder's two-byte header, the window `read_key` compares is
      the header's length byte followed by the key without its last byte. */
  lemma LongKeyWindow(key: Text, tail: seq<byte>)
    requires 24 <= |key| < 256
    ensures |EncodeStr(key) + tail| == |key| + 2 + |tail|
    ensures (EncodeStr(key) + tail)[1..|key| + 1] == [|key| as byte] + key[..|key| - 1]
    ensures (EncodeStr(key) + tail)[|key| + 1..] == [key[|key| - 1]] + tail
  {
    var e := EncodeStr(key);
    var h := e[..2];
    assert IsShortestHeader(h, 3, |key|);
    assert FromBE(h[1..]) == FromBE(h[1..][..0]) * 256 + h[1];
    assert e == h + key;
  }

  /** A sequence equal to itself shifted by one behind `c` holds only `c`. */
  lemma {:induction false} ShiftedIsConstant(c: byte, key: seq<byte>, i: nat)
    requires i < |key| && [c] + key[..|key| - 1] == key
    ensures key[i] == c
    decreases i
  {
    assert key[i] == ([c] + key[..|key| - 1])[i];
    if i > 0 {
      ShiftedIsConstant(c, key, i - 1);
    }
  }

  /** As written, the leading byte is not looked at: a byte string (major
      type 2) whose contents equal the key is taken for the key. */
  lemma ByteStringTakenForKey(key: Text, tail: seq<byte>)
    requires |key| <= 23
    ensures ReadKey([0x40 + |key|] + key + tail, key) == Ok(tail)
  {
    var s := [0x40 + |key|] + key + tail;
    assert s[1..|key| + 1] == key;
  }

  /** The corrected `read_key`: the key is read as a `String`, header
      included, and must equal the expected key. */
  function ReadKeyChecked(ext: Externals, s: seq<byte>, key: Text): (r: Result<seq<byte>>)
    ensures r.Ok? <==> ReadString(ext, s).Ok? && ReadString(ext, s).value.0 == key
    ensures r.Ok? ==> ReadString(ext, s) == Ok((key, r.value))
    ensures ReadString(ext, s).Ok? && ReadString(ext, s).value.0 != key ==> r == Err(UnexpectedKey)
  {
    var (t, rest) :- ReadString(ext, s);
    if t == key then Ok(rest) else Err(UnexpectedKey)
  }

  /** Every key the encoder writes, of any length, is read back by the
      corrected helper, which stops right after it. */
  lemma KeyRoundTrip(ext: Externals, key: Text, tail: seq<byte>)
    requires |key| <= ext.usizeMax
    ensures ReadKeyChecked(ext, EncodeStr(key) + tail, key) == Ok(tail)
  {
    TextRoundTrip(ext, key, tail);
  }

  /** The corrected helper refuses what the encoder writes for any other
      key. */
  lemma OtherKeyRefused(ext: Externals, key: Text, other: Text, tail: seq<byte>)
    requires |other| <= ext.usizeMax && other != key
    ensures ReadKeyChecked(ext, EncodeStr(other) + tail, key) == Err(UnexpectedKey)
  {
    TextRoundTrip(ext, other, tail);
  }
}
