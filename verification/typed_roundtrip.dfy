/** The typed decoders of src/decode.rs against the encoders of
    src/encode.rs for the same Rust type: what `Encode for T` writes,
    `read::<T>` reads back. The fixed-width signed integers round-trip too,
    through the wrapping casts on both sides, although what they write is
    not how CBOR writes those numbers. */
module TypedRoundTrip {
  import opened ByteOrder
  import opened Results
  import opened Utf8
  import opened Ipld
  import opened Reader
  import opened ScalarDecode
  import opened IpldDecode
  import opened TypedDecode
  import opened Encode
  import opened Headers
  import opened RoundTrip

  /** `read::<T>` on a leading byte and what follows it is `T`'s rule
      applied to them, a decline becoming `UnexpectedCode`. */
  lemma LeadTyped(ext: Externals, ty: Ty, lead: byte, body: seq<byte>, r: Parsed<Typed>)
    requires Settle(TryReadTyped(ext, ty, lead, body)) == r
    ensures ReadTyped(ext, ty, [lead] + body) == r
  {
    assert ([lead] + body)[0] == lead && ([lead] + body)[1..] == body;
  }

  /** The shortest header of a value that fits `w` bytes uses a code that
      the `w`-byte reader handles, and that reader reads the value back. */
  lemma NarrowHeaderReads(r: seq<byte>, major: Major, w: IntSize, v: nat, tail: seq<byte>)
    requires IsShortestHeader(r, major, v) && v < Pow256(w)
    ensures r[0] % 32 <= MaxCode(w)
    ensures ReadArgument(r[0] % 32, MaxCode(w), r[1..] + tail) == Ok(Some((v, tail)))
  {
    Pow256Widths();
    ShortestHeaderReads(r, major, v, tail);
  }

  /** `u8`..`u64` read back what they write. */
  lemma UnsignedRoundTrip(ext: Externals, w: IntSize, v: nat, tail: seq<byte>)
    requires v < Pow256(w)
    ensures ReadTyped(ext, UintT(w), EncodeUnsigned(w, v) + tail) == Ok((TUint(v), tail))
  {
    var h := EncodeUnsigned(w, v);
    UnsignedClaim(w, h, v, tail);
    UnsignedArm(ext, w, h[0], h[1..] + tail, v, tail);
    SplitLead(h, tail);
  }

  lemma UnsignedClaim(w: IntSize, h: seq<byte>, v: nat, tail: seq<byte>)
    requires IsShortestHeader(h, 0, v) && v < Pow256(w)
    ensures TryReadUnsigned(w, h[0], h[1..] + tail) == Ok(Some((v, tail)))
  {
    NarrowHeaderReads(h, 0, w, v, tail);
  }

  lemma UnsignedArm(ext: Externals, w: IntSize, lead: byte, body: seq<byte>, v: nat, rest: seq<byte>)
    requires TryReadUnsigned(w, lead, body) == Ok(Some((v, rest)))
    ensures ReadTyped(ext, UintT(w), [lead] + body) == Ok((TUint(v), rest))
  {
    LeadTyped(ext, UintT(w), lead, body, Ok((TUint(v), rest)));
  }

  /** The argument `Encode for iN` writes for `x`, read back as `iN` and
      negated as the decoder does, is `x` again. */
  lemma SignedArgument(w: IntSize, x: int)
    requires -(Pow256(w) / 2) <= x < Pow256(w) / 2
    ensures -1 - AsSigned((-(x + 1)) % Pow256(w), w) == x
  {
    var p := Pow256(w);
    if x >= 0 {
      WrapNegative(-(x + 1), p);
    } else {
      WrapInRange(-(x + 1), p);
    }
  }

  /** `i8`..`i64` read back what they write, for every value of the type,
      `iN::MAX` included: the encoder's `-(x + 1) as uN` and the decoder's
      `-1 - (n as iN)` undo each other. */
  lemma SignedRoundTrip(ext: Externals, w: IntSize, x: int, tail: seq<byte>)
    requires -(Pow256(w) / 2) <= x < Pow256(w) / 2
    ensures ReadTyped(ext, IntT(w), EncodeSigned(w, x) + tail) == Ok((TInt(x), tail))
  {
    var h := EncodeSigned(w, x);
    SignedClaim(w, h, x, tail);
    SignedArm(ext, w, h[0], h[1..] + tail, x, tail);
    SplitLead(h, tail);
  }

  lemma SignedClaim(w: IntSize, h: seq<byte>, x: int, tail: seq<byte>)
    requires -(Pow256(w) / 2) <= x < Pow256(w) / 2
    requires IsShortestHeader(h, 1, (-(x + 1)) % Pow256(w))
    ensures TryReadSigned(w, h[0], h[1..] + tail) == Ok(Some((x, tail)))
  {
    var n := (-(x + 1)) % Pow256(w);
    NarrowHeaderReads(h, 1, w, n, tail);
    UnsignedCode(w, h[0] - 0x20, h[1..] + tail, n, tail);
    SignedFromUnsigned(w, h[0], h[1..] + tail, n, tail);
    SignedArgument(w, x);
  }

  /** The unsigned rule of width `w` on a code it handles is the argument
      reader. */
  lemma UnsignedCode(w: IntSize, ai: byte, body: seq<byte>, n: nat, rest: seq<byte>)
    requires ai <= MaxCode(w)
    requires ReadArgument(ai, MaxCode(w), body) == Ok(Some((n, rest)))
    ensures TryReadUnsigned(w, ai, body) == Ok(Some((n, rest)))
  {
  }

  /** The signed rule negates the unsigned one after the wrapping cast. */
  lemma SignedFromUnsigned(w: IntSize, lead: byte, body: seq<byte>, n: nat, rest: seq<byte>)
    requires 0x20 <= lead < 0x40 && n < Pow256(w)
    requires TryReadUnsigned(w, lead - 0x20, body) == Ok(Some((n, rest)))
    ensures TryReadSigned(w, lead, body) == Ok(Some((-1 - AsSigned(n, w), rest)))
  {
  }

  lemma SignedArm(ext: Externals, w: IntSize, lead: byte, body: seq<byte>, x: int, rest: seq<byte>)
    requires TryReadSigned(w, lead, body) == Ok(Some((x, rest)))
    ensures ReadTyped(ext, IntT(w), [lead] + body) == Ok((TInt(x), rest))
  {
    LeadTyped(ext, IntT(w), lead, body, Ok((TInt(x), rest)));
  }

  /** The generic decoder reads what `Encode for iN` writes for a
      non-negative `x` as the negative integer `x - 2^(8w)`: the encoder
      writes major type 1 for every sign. */
  lemma NonNegativeSignedReadAsNegative(ext: Externals, w: IntSize, x: int, tail: seq<byte>)
    requires 0 <= x < Pow256(w) / 2
    ensures ReadValue(ext, EncodeSigned(w, x) + tail) == Ok((Integer(x - Pow256(w)), tail))
  {
    var h := EncodeSigned(w, x);
    NegativeClaim(w, h, x, tail);
    IntegerArm(ext, h, x - Pow256(w), tail);
  }

  /** What the integer rule reads after a header's leading byte is what
      the generic decoder reads from the whole header. */
  lemma IntegerArm(ext: Externals, h: seq<byte>, y: I128, tail: seq<byte>)
    requires |h| > 0 && h[0] < 0x40
    requires TryReadInteger(h[0], h[1..] + tail) == Ok(Some((y, tail)))
    ensures ReadValue(ext, h + tail) == Ok((Integer(y), tail))
  {
    LeafValue(ext, h[0], h[1..] + tail, Ok((Integer(y), tail)));
    SplitLead(h, tail);
  }

  lemma NegativeClaim(w: IntSize, h: seq<byte>, x: int, tail: seq<byte>)
    requires 0 <= x < Pow256(w) / 2
    requires IsShortestHeader(h, 1, (-(x + 1)) % Pow256(w))
    ensures |h| > 0 && h[0] < 0x40 && -(TWO_64 as int) <= x - Pow256(w) < 0
    ensures TryReadInteger(h[0], h[1..] + tail) == Ok(Some((x - Pow256(w), tail)))
  {
    var n := (-(x + 1)) % Pow256(w);
    WrapNegative(-(x + 1), Pow256(w));
    Pow256Widths();
    ShortestHeaderReads(h, 1, n, tail);
  }

  /** `bool` reads back what it writes. */
  lemma BoolRoundTrip(ext: Externals, b: bool, tail: seq<byte>)
    ensures ReadTyped(ext, BoolT, EncodeBool(b) + tail) == Ok((TBool(b), tail))
  {
    var h := EncodeBool(b);
    LeadTyped(ext, BoolT, h[0], tail, Ok((TBool(b), tail)));
    assert h == [h[0]];
  }

  /** `String` reads back what `Encode for str` writes. */
  lemma StringRoundTrip(ext: Externals, t: Text, tail: seq<byte>)
    requires |t| <= ext.usizeMax
    ensures ReadTyped(ext, StringT, EncodeStr(t) + tail) == Ok((TString(t), tail))
  {
    var h := WriteU64(3, |t|);
    ShortestHeaderLength(ext, h, 3, |t|, t + tail);
    SplitAt(t, tail);
    assert TryReadString(ext, h[0], h[1..] + (t + tail)) == Ok(Some((t, tail)));
    LeadTyped(ext, StringT, h[0], h[1..] + (t + tail), Ok((TString(t), tail)));
    ConcatAssoc(h, t, tail);
    SplitLead(h, t + tail);
  }

  /** `Box<[u8]>` reads back what `Encode for [u8]` writes. */
  lemma BytesTypedRoundTrip(ext: Externals, b: Vec<byte>, tail: seq<byte>)
    requires |b| <= ext.usizeMax
    ensures ReadTyped(ext, BytesT, EncodeBytes(b) + tail) == Ok((TBytes(b), tail))
  {
    var h := WriteU64(2, |b|);
    ShortestHeaderLength(ext, h, 2, |b|, b + tail);
    SplitAt(b, tail);
    assert TryReadByteBuf(ext, h[0], h[1..] + (b + tail)) == Ok(Some((b, tail)));
    LeadTyped(ext, BytesT, h[0], h[1..] + (b + tail), Ok((TBytes(b), tail)));
    ConcatAssoc(h, b, tail);
    SplitLead(h, b + tail);
  }

  /** `f32` reads back a finite value it writes. */
  lemma F32RoundTrip(ext: Externals, f: F32, tail: seq<byte>)
    requires IsFinite32(f)
    ensures ReadTyped(ext, F32T, EncodeF32(f) + tail) == Ok((TF32(f), tail))
  {
    SplitAt(f, tail);
    assert TryReadF32(0xfa, f + tail) == Ok(Some((f, tail)));
    LeadTyped(ext, F32T, 0xfa, f + tail, Ok((TF32(f), tail)));
    ConcatAssoc([0xfa], f, tail);
  }

  /** `f64` reads back a finite value it writes, whichever width the
      encoder picked: the four-byte form is widened back to the value. */
  lemma F64RoundTrip(ext: Externals, f: F64, tail: seq<byte>)
    requires WideningKeepsNonFinite(ext)
    requires IsFinite64(f)
    ensures ReadTyped(ext, F64T, EncodeF64(ext, f) + tail) == Ok((TF64(f), tail))
  {
    if ext.widen(ext.narrow(f)) == f {
      var g := ext.narrow(f);
      assert IsFinite32(g);
      SplitAt(g, tail);
      assert TryReadF64(ext, 0xfa, g + tail) == Ok(Some((f, tail)));
      LeadTyped(ext, F64T, 0xfa, g + tail, Ok((TF64(f), tail)));
      ConcatAssoc([0xfa], g, tail);
    } else {
      SplitAt(f, tail);
      assert TryReadF64(ext, 0xfb, f + tail) == Ok(Some((f, tail)));
      LeadTyped(ext, F64T, 0xfb, f + tail, Ok((TF64(f), tail)));
      ConcatAssoc([0xfb], f, tail);
    }
  }

  /** `Cid` reads back a link it writes, inside the length window. */
  lemma CidRoundTrip(ext: Externals, c: Cid, tail: seq<byte>)
    requires CidBytesRoundTrip(ext)
    requires LinkInWindow(c)
    ensures ReadTyped(ext, CidT, EncodeCid(c) + tail) == Ok((TCid(c), tail))
  {
    var w := WriteU64(2, |c.bytes| + 1);
    LinkHeaderInWindow(c);
    ReadLinkBack(ext, c, w, tail);
    LeadTyped(ext, CidT, 0xd8, [42] + w + ([0] + c.bytes + tail), Ok((TCid(c), tail)));
    CidLayout(c, tail);
  }

  /** `Option<T>` reads back `None` from the null `Encode for Option`
      writes, whatever `T` is. */
  lemma NoneRoundTrip(ext: Externals, inner: Ty, tail: seq<byte>)
    ensures ReadTyped(ext, OptionT(inner), EncodeNone() + tail) == Ok((TNone, tail))
  {
    LeadTyped(ext, OptionT(inner), 0xf6, tail, Ok((TNone, tail)));
  }

  /** `Some(x)` is written as `x` alone; `Option<T>` reads it back as
      `Some(x)` wherever `T` reads `x` from something that does not start
      with null or undefined. */
  lemma SomeRoundTrip(ext: Externals, inner: Ty, s: seq<byte>, x: Typed, rest: seq<byte>)
    requires |s| > 0 && s[0] != 0xf6 && s[0] != 0xf7
    requires ReadTyped(ext, inner, s) == Ok((x, rest))
    ensures ReadTyped(ext, OptionT(inner), s) == Ok((TSome(x), rest))
  {
    assert s == [s[0]] + s[1..];
    OptionArm(ext, inner, s[0], s[1..], x, rest);
    LeadTyped(ext, OptionT(inner), s[0], s[1..], Ok((TSome(x), rest)));
  }

  lemma OptionArm(ext: Externals, inner: Ty, lead: byte, body: seq<byte>, x: Typed, rest: seq<byte>)
    requires lead != 0xf6 && lead != 0xf7
    requires TryReadTyped(ext, inner, lead, body) == Ok(Some((x, rest)))
    ensures TryReadTyped(ext, OptionT(inner), lead, body) == Ok(Some((TSome(x), rest)))
  {
  }
}
