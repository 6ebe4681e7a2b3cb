/** The byte-level readers of the decoder (src/decode.rs, `read_u8` to
    `read_key`) and the shared reading of a leading byte's argument. The
    byte source is the remaining input: a reader returns what it read and the
    input after it, and a short read is the I/O error. */
module Reader {
  import opened ByteOrder
  import opened Results
  import opened Utf8
  import opened Ipld

  /** `read_u8`: one byte. */
  function ReadU8(s: seq<byte>): (r: Parsed<byte>)
    ensures r.Err? <==> |s| == 0
    ensures r.Err? ==> r.error == Io
    ensures r.Ok? ==> s == [r.value.0] + r.value.1
  {
    if |s| == 0 then Err(Io)
    else
      assert s == [s[0]] + s[1..];
      Ok((s[0], s[1..]))
  }

  /** `read_u8`, `read_u16`, `read_u32`, `read_u64`: `width` bytes read as a
      big-endian unsigned integer. */
  function ReadUint(s: seq<byte>, width: nat): (r: Parsed<nat>)
    ensures r.Err? <==> |s| < width
    ensures r.Err? ==> r.error == Io
    ensures r.Ok? ==> r.value.0 < Pow256(width) && s == ToBE(r.value.0, width) + r.value.1
  {
    if |s| < width then Err(Io)
    else
      ToBEFromBE(s[..width]);
      assert s == s[..width] + s[width..];
      Ok((FromBE(s[..width]), s[width..]))
  }

  /** `read_f32`: the four bytes of an `f32` bit pattern. */
  function ReadF32(s: seq<byte>): (r: Parsed<F32>)
    ensures r.Err? <==> |s| < 4
    ensures r.Err? ==> r.error == Io
    ensures r.Ok? ==> s == r.value.0 + r.value.1
  {
    if |s| < 4 then Err(Io)
    else
      assert s == s[..4] + s[4..];
      Ok((s[..4], s[4..]))
  }

  /** `read_f64`: the eight bytes of an `f64` bit pattern. */
  function ReadF64(s: seq<byte>): (r: Parsed<F64>)
    ensures r.Err? <==> |s| < 8
    ensures r.Err? ==> r.error == Io
    ensures r.Ok? ==> s == r.value.0 + r.value.1
  {
    if |s| < 8 then Err(Io)
    else
      assert s == s[..8] + s[8..];
      Ok((s[..8], s[8..]))
  }

  /** `read_bytes`: exactly `len` bytes. */
  function ReadBytes(s: seq<byte>, len: nat): (r: Parsed<Vec<byte>>)
    requires len < TWO_64
    ensures r.Err? <==> |s| < len
    ensures r.Err? ==> r.error == Io
    ensures r.Ok? ==> |r.value.0| == len && s == r.value.0 + r.value.1
  {
    if |s| < len then Err(Io)
    else
      assert s == s[..len] + s[len..];
      Ok((s[..len], s[len..]))
  }

  /** `read_str`: exactly `len` bytes, which must be well-formed UTF-8. */
  function ReadStr(s: seq<byte>, len: nat): (r: Parsed<Text>)
    requires len < TWO_64
    ensures r == Err(Io) <==> |s| < len
    ensures r == Err(Utf8) <==> |s| >= len && !ValidUtf8(s[..len])
    ensures r.Err? ==> r.error == Io || r.error == Utf8
    ensures r.Ok? ==> |r.value.0| == len && s == r.value.0 + r.value.1
  {
    var (bytes, rest) :- ReadBytes(s, len);
    assert bytes == s[..len];
    if ValidUtf8(bytes) then Ok((bytes, rest)) else Err(Utf8)
  }

  /** `read_key`: reads `|key| + 1` bytes and accepts when all but the first
      equal `key`. The first byte, where a text header is expected, is not
      looked at. */
  function ReadKey(s: seq<byte>, key: seq<byte>): (r: Result<seq<byte>>)
    ensures r == Err(Io) <==> |s| < |key| + 1
    ensures r.Ok? <==> |s| >= |key| + 1 && s[1..|key| + 1] == key
    ensures r.Err? ==> r.error == Io || r.error == UnexpectedKey
    ensures r.Ok? ==> s == s[..1] + key + r.value
  {
    if |s| < |key| + 1 then Err(Io)
    else if s[1..|key| + 1] == key then
      assert s == s[..1] + s[1..|key| + 1] + s[|key| + 1..];
      Ok(s[|key| + 1..])
    else Err(UnexpectedKey)
  }

  /** The number of argument bytes the additional-information values 24, 25,
      26 and 27 announce (RFC 8949 section 3). */
  function ArgumentWidth(ai: nat): (w: nat)
    requires 24 <= ai <= 27
    ensures w == 1 || w == 2 || w == 4 || w == 8
  {
    if ai == 24 then 1 else if ai == 25 then 2 else if ai == 26 then 4 else 8
  }

  /** The argument of a leading byte whose additional information is `ai`:
      the value itself for 0..23, otherwise the 1, 2, 4 or 8 bytes that
      follow. A reader that handles only widths up to `maxAi` (24 for `u8`,
      25 for `u16`, 26 for `u32`, 27 for `u64`) declines the wider codes and
      codes 28..31, before reading anything. */
  function ReadArgument(ai: nat, maxAi: nat, s: seq<byte>): (r: Claim<nat>)
    requires ai < 32 && 24 <= maxAi <= 27
    ensures r == Ok(None) <==> ai > maxAi
    ensures r.Err? <==> 24 <= ai <= maxAi && |s| < ArgumentWidth(ai)
    ensures r.Err? ==> r.error == Io
    ensures r.Ok? && r.value.Some? && ai <= 23 ==> r.value.value == (ai, s)
    ensures r.Ok? && r.value.Some? && ai > 23 ==>
      && r.value.value.0 < Pow256(ArgumentWidth(ai))
      && s == ToBE(r.value.value.0, ArgumentWidth(ai)) + r.value.value.1
    ensures r.Ok? && r.value.Some? ==> SuffixOf(r.value.value.1, s)
  {
    if ai <= 23 then Ok(Some((ai, s)))
    else if ai > maxAi then Ok(None)
    else
      var (n, rest) :- ReadUint(s, ArgumentWidth(ai));
      SuffixOfConcat(ToBE(n, ArgumentWidth(ai)), rest);
      Ok(Some((n, rest)))
  }

  /** Every argument fits `u64`, and the one-, two- and four-byte forms fit `u32`. */
  lemma ArgumentBounds(ai: nat, maxAi: nat, s: seq<byte>)
    requires ai < 32 && 24 <= maxAi <= 27
    requires ReadArgument(ai, maxAi, s).Ok? && ReadArgument(ai, maxAi, s).value.Some?
    ensures ReadArgument(ai, maxAi, s).value.value.0 < TWO_64
    ensures ai < 27 ==> ReadArgument(ai, maxAi, s).value.value.0 < TWO_32
    ensures ai <= maxAi
  {
    Pow256Widths();
  }

  /** The length of a string or container: an argument, where only the
      eight-byte form is compared with `usize::MAX` (`LengthOutOfRange`). */
  function ReadLength(ext: Externals, ai: nat, s: seq<byte>): (r: Claim<nat>)
    requires ai < 32
    ensures r == Ok(None) <==> ai > 27
    ensures r.Err? && r.error == LengthOutOfRange ==>
      ai == 27 && |s| >= 8 && FromBE(s[..8]) > ext.usizeMax
    ensures r.Err? && r.error != LengthOutOfRange ==> r.error == Io && ReadArgument(ai, 27, s).Err?
    ensures r.Ok? && r.value.Some? ==>
      && r.value.value.0 <= ext.usizeMax
      && ReadArgument(ai, 27, s) == r
  {
    var arg := ReadArgument(ai, 27, s);
    if arg.Ok? && arg.value.Some? then
      ArgumentBounds(ai, 27, s);
      var (n, rest) := arg.value.value;
      if ai == 27 && n > ext.usizeMax then
        assert s[..8] == ToBE(n, 8);
        Err(LengthOutOfRange)
      else arg
    else arg
  }
}
