/** The encoder of src/encode.rs. Every encoder returns the bytes it writes;
    only the `i128` encoder can fail. */
module Encode {
  import opened ByteOrder
  import opened Results
  import opened Utf8
  import opened SortedMap
  import opened Ipld
  import opened Reader

  /** A CBOR major type, the top three bits of a leading byte. */
  type Major = m: nat | m < 8

  /** The number of bytes the shortest header for argument `v` takes: one
      for 0..23, then one more byte of argument for up to `u8::MAX`, two for
      up to `u16::MAX`, four for up to `u32::MAX` and eight otherwise. */
  function ShortestHeader(v: nat): nat {
    if v <= 23 then 1
    else if v < 0x100 then 2
    else if v < 0x1_0000 then 3
    else if v < TWO_32 then 5
    else 9
  }

  /** `r` is the shortest header of major type `major` with argument `v`
      (RFC 8949 section 4.2.1): the major type in the top bits, the argument
      inline when it is at most 23, otherwise the code for the argument's
      width followed by the argument in big-endian order. */
  predicate IsShortestHeader(r: seq<byte>, major: Major, v: nat) {
    && |r| == ShortestHeader(v)
    && r[0] / 32 == major
    && (v <= 23 ==> r[0] % 32 == v)
    && (v > 23 ==>
          && 24 <= r[0] % 32 <= 27
          && ArgumentWidth(r[0] % 32) == |r| - 1
          && FromBE(r[1..]) == v)
  }

  /** `major << 5 | ai` for a major type and a 5-bit code. */
  function Lead(major: Major, ai: nat): (b: byte)
    requires ai < 32
    ensures b / 32 == major && b % 32 == ai
  {
    major * 32 + ai
  }

  /** `write_null`. */
  function WriteNull(): (r: seq<byte>)
    ensures r == [Lead(7, 22)]
  {
    [0xf6]
  }

  /** `write_u8`. */
  function WriteU8(major: Major, v: nat): (r: seq<byte>)
    requires v < 0x100
    ensures IsShortestHeader(r, major, v)
  {
    if v <= 0x17 then [Lead(major, v)]
    else
      assert [v][..0] == [];
      [Lead(major, 24), v]
  }

  /** `write_u16`: `write_u8` when the value fits a byte. */
  function WriteU16(major: Major, v: nat): (r: seq<byte>)
    requires v < 0x1_0000
    ensures IsShortestHeader(r, major, v)
  {
    if v <= 0xff then WriteU8(major, v)
    else
      Pow256Widths();
      [Lead(major, 25)] + ToBE(v, 2)
  }

  /** `write_u32`: `write_u16` when the value fits two bytes. */
  function WriteU32(major: Major, v: nat): (r: seq<byte>)
    requires v < TWO_32
    ensures IsShortestHeader(r, major, v)
  {
    if v <= 0xffff then WriteU16(major, v)
    else
      Pow256Widths();
      [Lead(major, 26)] + ToBE(v, 4)
  }

  /** `write_u64`: `write_u32` when the value fits four bytes. */
  function WriteU64(major: Major, v: nat): (r: seq<byte>)
    requires v < TWO_64
    ensures IsShortestHeader(r, major, v)
  {
    if v <= 0xffff_ffff then WriteU32(major, v)
    else
      Pow256Widths();
      [Lead(major, 27)] + ToBE(v, 8)
  }

  /** `write_tag`: a major type 6 header. */
  function WriteTag(tag: nat): (r: seq<byte>)
    requires tag < TWO_64
    ensures IsShortestHeader(r, 6, tag)
  {
    WriteU64(6, tag)
  }

  /** The `u8`..`u64` writer of the given width. */
  function WriteUint(w: IntSize, major: Major, v: nat): (r: seq<byte>)
    requires v < Pow256(w)
    ensures IsShortestHeader(r, major, v)
  {
    Pow256Widths();
    if w == 1 then WriteU8(major, v)
    else if w == 2 then WriteU16(major, v)
    else if w == 4 then WriteU32(major, v)
    else WriteU64(major, v)
  }

  /** `Encode for bool`. */
  function EncodeBool(b: bool): (r: seq<byte>)
    ensures |r| == 1 && r[0] / 32 == 7
    ensures r[0] % 32 == if b then 21 else 20
  {
    if b then [0xf5] else [0xf4]
  }

  /** `Encode for u8`..`u64`: major type 0. */
  function EncodeUnsigned(w: IntSize, v: nat): (r: seq<byte>)
    requires v < Pow256(w)
    ensures IsShortestHeader(r, 0, v)
  {
    WriteUint(w, 0, v)
  }

  /** `Encode for i8`..`i64`: always major type 1 with argument `-(x + 1)`
      cast to the unsigned type of the same width. The cast wraps, as the
      release build does, so every `x` of the type has an encoding. */
  function EncodeSigned(w: IntSize, x: int): (r: seq<byte>)
    requires -(Pow256(w) / 2) <= x < Pow256(w) / 2
    ensures IsShortestHeader(r, 1, (-(x + 1)) % Pow256(w))
  {
    WriteUint(w, 1, (-(x + 1)) % Pow256(w))
  }

  /** `Encode for i128`: major type 0 with `x` for `x >= 0`, major type 1
      with `-(x + 1)` below zero, and `NumberOutOfRange` when that argument
      does not fit `u64`. */
  function EncodeI128(x: int): (r: Result<seq<byte>>)
    ensures r.Err? <==> !InCborRange(x)
    ensures r.Err? ==> r.error == NumberOutOfRange
    ensures r.Ok? && x >= 0 ==> IsShortestHeader(r.value, 0, x)
    ensures r.Ok? && x < 0 ==> IsShortestHeader(r.value, 1, -(x + 1))
  {
    if x < 0 then
      if -(x + 1) > TWO_64 - 1 then Err(NumberOutOfRange)
      else Ok(WriteU64(1, -(x + 1)))
    else
      if x > TWO_64 - 1 then Err(NumberOutOfRange)
      else Ok(WriteU64(0, x))
  }

  /** `Encode for f32`: the infinities and NaN as the half-precision
      patterns `f9 7c 00`, `f9 fc 00` and `f9 7e 00` (whatever the NaN's
      payload or sign); every other value as 0xfa and its four bytes. */
  function EncodeF32(f: F32): (r: seq<byte>)
    ensures |r| == 3 || |r| == 5
    ensures IsFinite32(f) <==> r[0] == 0xfa
    ensures IsFinite32(f) ==> r == [0xfa] + f
    ensures !IsFinite32(f) ==> |r| == 3 && r[0] == 0xf9 && r[2] == 0
    ensures IsInfinite32(f) ==> r[1] == (if IsSignPositive32(f) then 0x7c else 0xfc)
    ensures IsNan32(f) ==> r[1] == 0x7e
  {
    if IsInfinite32(f) then
      if IsSignPositive32(f) then [0xf9, 0x7c, 0x00] else [0xf9, 0xfc, 0x00]
    else if IsNan32(f) then [0xf9, 0x7e, 0x00]
    else [0xfa] + f
  }

  /** `Encode for f64`: a value that is not finite, or that `as f32` keeps
      exactly, goes through the `f32` encoder; every other value is 0xfb and
      its eight bytes. */
  function EncodeF64(ext: Externals, f: F64): (r: seq<byte>)
    ensures IsFinite64(f) && ext.widen(ext.narrow(f)) != f ==> r == [0xfb] + f
    ensures !IsFinite64(f) || ext.widen(ext.narrow(f)) == f ==> r == EncodeF32(ext.narrow(f))
    ensures |r| > 0 && (r[0] == 0xf9 || r[0] == 0xfa || r[0] == 0xfb)
  {
    if !IsFinite64(f) || ext.widen(ext.narrow(f)) == f then EncodeF32(ext.narrow(f))
    else [0xfb] + f
  }

  /** `Encode for [u8]`: a major type 2 header with the length, then the bytes. */
  function EncodeBytes(b: Vec<byte>): (r: seq<byte>)
    ensures |r| == ShortestHeader(|b|) + |b|
    ensures IsShortestHeader(r[..ShortestHeader(|b|)], 2, |b|)
    ensures r[ShortestHeader(|b|)..] == b
  {
    var h := WriteU64(2, |b|);
    assert (h + b)[..|h|] == h;
    h + b
  }

  /** `Encode for str`: a major type 3 header with the byte length, then the
      UTF-8 bytes. */
  function EncodeStr(t: Text): (r: seq<byte>)
    ensures |r| == ShortestHeader(|t|) + |t|
    ensures IsShortestHeader(r[..ShortestHeader(|t|)], 3, |t|)
    ensures r[ShortestHeader(|t|)..] == t
  {
    var h := WriteU64(3, |t|);
    assert (h + t)[..|h|] == h;
    h + t
  }

  /** `Encode for Cid`: tag 42, then a byte string of the CID's binary form
      behind one 0x00 byte (the multibase identity prefix). */
  function EncodeCid(c: Cid): (r: seq<byte>)
    ensures |r| >= 2 && r[..2] == [0xd8, 42]
    ensures r[2..] == WriteU64(2, |c.bytes| + 1) + [0] + c.bytes
  {
    var r := WriteTag(42) + WriteU64(2, |c.bytes| + 1) + [0] + c.bytes;
    assert WriteTag(42) == [0xd8, 42];
    r
  }

  /** `Encode for Option<T>` when there is no value. */
  function EncodeNone(): (r: seq<byte>)
    ensures |r| == 1 && r[0] / 32 == 7 && r[0] % 32 == 22
    ensures r == [0xf6]
  {
    WriteNull()
  }

  /** `Encode for Ipld`. */
  function EncodeValue(ext: Externals, v: Value): (r: Result<seq<byte>>)
    ensures r.Ok? <==> IntegersInRange(v)
    ensures r.Err? ==> r.error == NumberOutOfRange
    decreases v
  {
    match v
    case Null => Ok(WriteNull())
    case Bool(b) => Ok(EncodeBool(b))
    case Integer(i) => EncodeI128(i)
    case Float(f) => Ok(EncodeF64(ext, f))
    case Bytes(b) => Ok(EncodeBytes(b))
    case String(t) => Ok(EncodeStr(t))
    case List(items) =>
      var body :- EncodeItems(ext, items);
      Ok(WriteU64(4, |items|) + body)
    case Map(entries) =>
      var body :- EncodeEntries(ext, entries);
      Ok(WriteU64(5, |entries|) + body)
    case Link(c) => Ok(EncodeCid(c))
  }

  /** The layout of a container: the shortest header of its length with
      major type 4 (list) or 5 (map), then its children in order. */
  lemma ContainerLayout(ext: Externals, v: Value)
    requires v.List? || v.Map?
    ensures v.List? && EncodeValue(ext, v).Ok? ==>
      && IsShortestHeader(WriteU64(4, |v.items|), 4, |v.items|)
      && EncodeValue(ext, v).value == WriteU64(4, |v.items|) + EncodeItems(ext, v.items).value
    ensures v.Map? && EncodeValue(ext, v).Ok? ==>
      && IsShortestHeader(WriteU64(5, |v.entries|), 5, |v.entries|)
      && EncodeValue(ext, v).value == WriteU64(5, |v.entries|) + EncodeEntries(ext, v.entries).value
  {
  }

  /** `Encode for Vec<Ipld>` after the header: the items in order. */
  function EncodeItems(ext: Externals, items: seq<Value>): (r: Result<seq<byte>>)
    ensures r.Ok? <==> forall i :: 0 <= i < |items| ==> IntegersInRange(items[i])
    ensures r.Err? ==> r.error == NumberOutOfRange
    decreases items
  {
    if |items| == 0 then Ok([])
    else
      var head :- EncodeValue(ext, items[0]);
      var tail :- EncodeItems(ext, items[1..]);
      assert forall i :: 1 <= i < |items| ==> items[i] == items[1..][i - 1];
      Ok(head + tail)
  }

  /** `Encode for BTreeMap<String, Ipld>` after the header: each key as a
      string, then its value, in the map's (ascending) key order. */
  function EncodeEntries(ext: Externals, entries: seq<(Text, Value)>): (r: Result<seq<byte>>)
    ensures r.Ok? <==> forall i :: 0 <= i < |entries| ==> IntegersInRange(entries[i].1)
    ensures r.Err? ==> r.error == NumberOutOfRange
    decreases entries
  {
    if |entries| == 0 then Ok([])
    else
      assert entries[0] in entries && entries[0].1 < entries[0];
      var value :- EncodeValue(ext, entries[0].1);
      var tail :- EncodeEntries(ext, entries[1..]);
      assert forall i :: 1 <= i < |entries| ==> entries[i] == entries[1..][i - 1];
      Ok(EncodeStr(entries[0].0) + value + tail)
  }

  /** `Encode for ()` and for tuples of up to four elements: a list header
      with the arity, written by `write_u8`, then the elements' encodings. */
  function EncodeTuple(parts: seq<seq<byte>>): (r: seq<byte>)
    requires |parts| <= 4
    ensures |r| >= 1 && r[0] == 0x80 + |parts|
    ensures r[1..] == Concat(parts)
  {
    WriteU8(4, |parts|) + Concat(parts)
  }

  /** The byte strings of `parts`, one after another. */
  function Concat(parts: seq<seq<byte>>): seq<byte> {
    if |parts| == 0 then [] else parts[0] + Concat(parts[1..])
  }
}
