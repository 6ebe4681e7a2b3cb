/** The non-recursive decode rules of src/decode.rs: the `TryReadCbor` impls
    for `bool`, the fixed-width integers, `f32`/`f64`, `String`, `Box<[u8]>`
    and `Cid`, `read_link`, and the rules of the generic `Ipld` decoder for
    every kind that is not a container. Each rule looks at the leading byte
    `major` (already consumed) and either declines (`Ok(None)`, nothing more
    read), fails, or claims a value and returns the input after it. */
module ScalarDecode {
  import opened ByteOrder
  import opened Results
  import opened Utf8
  import opened Ipld
  import opened Reader

  /** The widest additional-information code a `w`-byte type reads: 0x18 for
      one byte, up to 0x1b for eight. */
  function MaxCode(w: IntSize): (ai: nat)
    ensures 24 <= ai <= 27 && ArgumentWidth(ai) == w
  {
    if w == 1 then 24 else if w == 2 then 25 else if w == 4 then 26 else 27
  }

  /** `bool`: 0xf4 and 0xf5, nothing else. */
  function TryReadBool(major: byte, s: seq<byte>): (r: Claim<bool>)
    ensures r.Ok?
    ensures r.value.Some? <==> major == 0xf4 || major == 0xf5
    ensures r.value.Some? ==> r.value.value == (major == 0xf5, s)
  {
    if major == 0xf4 then Ok(Some((false, s)))
    else if major == 0xf5 then Ok(Some((true, s)))
    else Ok(None)
  }

  /** `u8`, `u16`, `u32`, `u64`: major type 0 with an inline argument or one
      of the argument widths up to the type's own; every other code, wider
      ones included, is declined. */
  function TryReadUnsigned(w: IntSize, major: byte, s: seq<byte>): (r: Claim<nat>)
    ensures r == Ok(None) <==> major > MaxCode(w)
    ensures r.Err? ==> r.error == Io
    ensures r.Ok? && r.value.Some? ==> r.value.value.0 < Pow256(w)
    ensures major < 32 ==> r == ReadArgument(major, MaxCode(w), s)
  {
    if major < 32 then
      var c := ReadArgument(major, MaxCode(w), s);
      if c.Ok? && c.value.Some? then
        ArgumentBounds(major, MaxCode(w), s);
        assert c.value.value.0 < Pow256(w) by {
          Pow256Widths();
          if major <= 23 {
            assert c.value.value.0 <= 23;
          }
        }
        c
      else c
    else Ok(None)
  }

  /** `n as iN` for a `w`-byte `n`: the two's-complement reinterpretation. */
  function AsSigned(n: nat, w: IntSize): (x: int)
    requires n < Pow256(w)
    ensures -(Pow256(w) / 2) <= x < Pow256(w) / 2
    ensures x % Pow256(w) == n
  {
    if n < Pow256(w) / 2 then
      WrapInRange(n, Pow256(w));
      n
    else
      WrapNegative(n - Pow256(w), Pow256(w));
      n - Pow256(w)
  }

  /** `i8`, `i16`, `i32`, `i64`: major type 1 only, read as `-1 - (n as iN)`
      with the wrapping cast of the source, so the result always lies in the
      type's range. */
  function TryReadSigned(w: IntSize, major: byte, s: seq<byte>): (r: Claim<int>)
    ensures r == Ok(None) <==> !(0x20 <= major <= 0x20 + MaxCode(w))
    ensures r.Err? ==> r.error == Io
    ensures r.Ok? && r.value.Some? ==>
      -(Pow256(w) / 2) <= r.value.value.0 < Pow256(w) / 2
    ensures 0x20 <= major < 0x40 ==>
      var c := TryReadUnsigned(w, major - 0x20, s);
      && (c.Err? ==> r == Err(c.error))
      && (c.Ok? && c.value.Some? ==>
            r == Ok(Some((-1 - AsSigned(c.value.value.0, w), c.value.value.1))))
  {
    if 0x20 <= major < 0x40 then
      var c := TryReadUnsigned(w, major - 0x20, s);
      match c
      case Ok(Some((n, rest))) => Ok(Some((-1 - AsSigned(n, w), rest)))
      case Ok(None) => Ok(None)
      case Err(e) => Err(e)
    else Ok(None)
  }

  /** `f32`: only 0xfa. */
  function TryReadF32(major: byte, s: seq<byte>): (r: Claim<F32>)
    ensures r == Ok(None) <==> major != 0xfa
    ensures r.Err? ==> r.error == Io
    ensures r.Ok? && r.value.Some? ==> s == r.value.value.0 + r.value.value.1
    ensures r.Ok? && r.value.Some? ==> SuffixOf(r.value.value.1, s)
  {
    if major == 0xfa then
      var (f, rest) :- ReadF32(s);
      SuffixOfConcat(f, rest);
      Ok(Some((f, rest)))
    else Ok(None)
  }

  /** `f64`: 0xfa, widened with `as f64`, or 0xfb. */
  function TryReadF64(ext: Externals, major: byte, s: seq<byte>): (r: Claim<F64>)
    ensures r == Ok(None) <==> major != 0xfa && major != 0xfb
    ensures r.Err? ==> r.error == Io
    ensures r.Ok? && r.value.Some? && major == 0xfa ==>
      |s| >= 4 && r.value.value == (ext.widen(s[..4]), s[4..])
    ensures r.Ok? && r.value.Some? && major == 0xfb ==>
      |s| >= 8 && r.value.value == (s[..8], s[8..])
    ensures r.Ok? && r.value.Some? ==> SuffixOf(r.value.value.1, s)
  {
    if major == 0xfa then
      var (f, rest) :- ReadF32(s);
      SuffixOfConcat(f, rest);
      Ok(Some((ext.widen(f), rest)))
    else if major == 0xfb then
      var (f, rest) :- ReadF64(s);
      SuffixOfConcat(f, rest);
      Ok(Some((f, rest)))
    else Ok(None)
  }

  /** `Box<[u8]>`: a major type 2 header, then exactly that many bytes. */
  function TryReadByteBuf(ext: Externals, major: byte, s: seq<byte>): (r: Claim<Vec<byte>>)
    ensures r == Ok(None) <==> !(0x40 <= major <= 0x5b)
    ensures r.Ok? && r.value.Some? ==>
      var (b, rest) := r.value.value;
      && ReadLength(ext, major % 32, s) == Ok(Some((|b|, b + rest)))
      && |b| <= ext.usizeMax
    ensures r.Ok? && r.value.Some? ==> SuffixOf(r.value.value.1, s)
    ensures major / 32 == 2 ==>
      var l := ReadLength(ext, major % 32, s);
      && (l.Err? ==> r == Err(l.error))
      && (l.Ok? && l.value.Some? ==>
            var (n, rest) := l.value.value;
            r == if |rest| < n then Err(Io) else Ok(Some((rest[..n], rest[n..]))))
  {
    if major / 32 != 2 then Ok(None)
    else
      var len :- ReadLength(ext, major % 32, s);
      match len
      case None => Ok(None)
      case Some((n, rest)) =>
        var (b, rest') :- ReadBytes(rest, n);
        SuffixOfConcat(b, rest');
        SuffixOfTransitive(rest', rest, s);
        Ok(Some((b, rest')))
  }

  /** `String`: a major type 3 header, then exactly that many bytes, which
      must be well-formed UTF-8. */
  function TryReadString(ext: Externals, major: byte, s: seq<byte>): (r: Claim<Text>)
    ensures r == Ok(None) <==> !(0x60 <= major <= 0x7b)
    ensures r.Ok? && r.value.Some? ==>
      var (t, rest) := r.value.value;
      && ReadLength(ext, major % 32, s) == Ok(Some((|t|, t + rest)))
      && |t| <= ext.usizeMax
    ensures r.Ok? && r.value.Some? ==> SuffixOf(r.value.value.1, s)
    ensures major / 32 == 3 ==>
      var l := ReadLength(ext, major % 32, s);
      && (l.Err? ==> r == Err(l.error))
      && (l.Ok? && l.value.Some? ==>
            var (n, rest) := l.value.value;
            r == if |rest| < n then Err(Io)
                 else if !ValidUtf8(rest[..n]) then Err(Utf8)
                 else Ok(Some((rest[..n], rest[n..]))))
  {
    if major / 32 != 3 then Ok(None)
    else
      var len :- ReadLength(ext, major % 32, s);
      match len
      case None => Ok(None)
      case Some((n, rest)) =>
        var (t, rest') :- ReadStr(rest, n);
        SuffixOfConcat(t, rest');
        SuffixOfTransitive(rest', rest, s);
        Ok(Some((t, rest')))
  }

  /** `read::<String>`: a leading byte, then the `String` rule; a decline is
      `UnexpectedCode`. Map keys are read this way. */
  function ReadString(ext: Externals, s: seq<byte>): (r: Parsed<Text>)
    ensures r.Ok? ==> |r.value.1| < |s| && SuffixOf(r.value.1, s)
  {
    if |s| == 0 then Err(Io)
    else
      var r := Settle(TryReadString(ext, s[0], s[1..]));
      if r.Ok? then
        SuffixOfTransitive(r.value.1, s[1..], s);
        r
      else r
  }

  /** `read_link`, entered after the leading byte 0xd8 (a tag with a one-byte
      argument): the tag must be 42 and the byte string must use exactly the
      one-byte length form 0x58, with a non-zero length whose first payload
      byte is the 0x00 prefix; the rest of the payload is handed to
      `Cid::try_from`. */
  function ReadLink(ext: Externals, s: seq<byte>): (r: Parsed<Cid>)
    ensures |s| == 0 ==> r == Err(Io)
    ensures |s| >= 1 && s[0] != 42 ==> r == Err(UnknownTag)
    ensures |s| >= 2 && s[0] == 42 && s[1] != 0x58 ==> r == Err(UnknownTag)
    ensures |s| >= 3 && s[..2] == [42, 0x58] && s[2] == 0 ==> r == Err(LengthOutOfRange)
    ensures |s| >= 3 && s[..2] == [42, 0x58] && s[2] > 0 && |s| < 3 + s[2] as int ==> r == Err(Io)
    ensures |s| >= 4 && s[..2] == [42, 0x58] && s[2] > 0 && |s| >= 3 + s[2] as int && s[3] != 0 ==>
      r == Err(InvalidCidPrefix(s[3]))
    ensures r.Ok? ==>
      && |s| >= 4 && s[..2] == [42, 0x58] && s[2] > 0 && |s| >= 3 + s[2] as int && s[3] == 0
      && ext.parseCid(s[4..3 + s[2] as int]) == Some(r.value.0)
      && r.value.1 == s[3 + s[2] as int..]
    ensures |s| >= 4 && s[..2] == [42, 0x58] && s[2] > 0 && |s| >= 3 + s[2] as int && s[3] == 0 ==>
      var p := ext.parseCid(s[4..3 + s[2] as int]);
      && (p.None? ==> r == Err(CidParse))
      && (p.Some? ==> r == Ok((p.value, s[3 + s[2] as int..])))
    ensures r.Ok? ==> SuffixOf(r.value.1, s)
  {
    var (tag, s1) :- ReadU8(s);
    if tag != 42 then Err(UnknownTag)
    else
      var (ty, s2) :- ReadU8(s1);
      if ty != 0x58 then Err(UnknownTag)
      else
        var (len, s3) :- ReadU8(s2);
        if len == 0 then Err(LengthOutOfRange)
        else
          assert s == [42, 0x58, len] + s3;
          var r := ReadLinkPayload(ext, s3, len);
          assert |s3| >= len ==> s[4..3 + len] == s3[1..len] && s[3 + len..] == s3[len..];
          if r.Ok? then
            SuffixOfConcat([42, 0x58, len], s3);
            SuffixOfTransitive(r.value.1, s3, s);
            r
          else r
  }

  /** The payload of a link once its length byte `len` is read: `len`
      bytes, the 0x00 prefix, then the CID's bytes. */
  function ReadLinkPayload(ext: Externals, s: seq<byte>, len: nat): (r: Parsed<Cid>)
    requires 0 < len < 256
    ensures |s| < len ==> r == Err(Io)
    ensures |s| >= len && s[0] != 0 ==> r == Err(InvalidCidPrefix(s[0]))
    ensures r.Ok? ==>
      && |s| >= len && s[0] == 0
      && ext.parseCid(s[1..len]) == Some(r.value.0)
      && r.value.1 == s[len..]
    ensures |s| >= len && s[0] == 0 ==>
      var p := ext.parseCid(s[1..len]);
      && (p.None? ==> r == Err(CidParse))
      && (p.Some? ==> r == Ok((p.value, s[len..])))
    ensures r.Ok? ==> SuffixOf(r.value.1, s)
  {
    var (bytes, rest) :- ReadBytes(s, len);
    if bytes[0] != 0 then Err(InvalidCidPrefix(bytes[0]))
    else
      SuffixOfConcat(bytes, rest);
      assert bytes[1..] == s[1..len];
      match ext.parseCid(bytes[1..])
      case None => Err(CidParse)
      case Some(c) => Ok((c, rest))
  }

  /** `Cid`: only 0xd8, then `read_link`. */
  function TryReadCid(ext: Externals, major: byte, s: seq<byte>): (r: Claim<Cid>)
    ensures r == Ok(None) <==> major != 0xd8
    ensures major == 0xd8 ==> Settle(r) == ReadLink(ext, s)
  {
    if major == 0xd8 then
      var (c, rest) :- ReadLink(ext, s);
      Ok(Some((c, rest)))
    else Ok(None)
  }
}
