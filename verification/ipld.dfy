/** The generic value the codec encodes and decodes (`Ipld` of libipld_core),
    the content identifier it carries as an opaque byte string, IEEE 754
    floats as their bit patterns, and the collaborators the codec calls but
    this model does not define. */
module Ipld {
  import opened ByteOrder
  import opened Results
  import opened Utf8
  import opened SortedMap

  /** An `f32` given by its IEEE 754 bit pattern, as four big-endian bytes
      (what `BigEndian::write_f32` emits and `read_f32` reads). */
  type F32 = b: seq<byte> | |b| == 4 witness [0, 0, 0, 0]

  /** An `f64` given by its IEEE 754 bit pattern, as eight big-endian bytes. */
  type F64 = b: seq<byte> | |b| == 8 witness [0, 0, 0, 0, 0, 0, 0, 0]

  /** Biased exponent (bits 30..23) and fraction (bits 22..0) of an `f32`. */
  function Exponent32(f: F32): nat {
    (f[0] as int % 128) * 2 + f[1] as int / 128
  }

  function Fraction32(f: F32): nat {
    (f[1] as int % 128) * 0x1_0000 + f[2] as int * 0x100 + f[3] as int
  }

  /** `f32::is_infinite`, `f32::is_nan`, `f32::is_sign_positive`. */
  predicate IsInfinite32(f: F32) {
    Exponent32(f) == 0xFF && Fraction32(f) == 0
  }

  predicate IsNan32(f: F32) {
    Exponent32(f) == 0xFF && Fraction32(f) != 0
  }

  predicate IsSignPositive32(f: F32) {
    f[0] < 0x80
  }

  predicate IsFinite32(f: F32) {
    Exponent32(f) != 0xFF
  }

  /** `f64::is_finite`: the biased exponent (bits 62..52) is not all ones. */
  predicate IsFinite64(f: F64) {
    (f[0] as int % 128) * 16 + f[1] as int / 16 != 0x7FF
  }

  /** The integer carried by `Ipld::Integer`: an `i128`. */
  type I128 = i: int | -0x8000_0000_0000_0000_0000_0000_0000_0000 <= i < 0x8000_0000_0000_0000_0000_0000_0000_0000

  /** The range CBOR major types 0 and 1 can carry: [-2^64, 2^64 - 1]. */
  predicate InCborRange(i: int) {
    -(TWO_64 as int) <= i < TWO_64
  }

  /** An in-memory sequence: its length is a `usize`, so it fits `u64`. */
  type Vec<T> = s: seq<T> | |s| < TWO_64 witness []

  /** A content identifier, known to this layer only through its binary form
      (`Cid::to_bytes`). The `+ 1` the link encoder adds to its length fits `u64`. */
  type CidBytes = b: seq<byte> | |b| < TWO_64 - 1 witness []

  datatype Cid = Cid(bytes: CidBytes)

  datatype Value =
    | Null
    | Bool(b: bool)
    | Integer(i: I128)
    | Float(f: F64)
    | Bytes(bytes: Vec<byte>)
    | String(text: Text)
    | List(items: Vec<Value>)
    | Map(entries: Vec<(Text, Value)>)
    | Link(cid: Cid)

  /** `usize::MAX` of the target: at least `u32::MAX`, at most `u64::MAX`. */
  type UsizeMax = n: nat | TWO_32 - 1 <= n < TWO_64 witness TWO_32 - 1

  /** What the codec takes from outside: the target's `usize::MAX`,
      `Cid::try_from(&[u8])` (`None` is its error), and the `f64 as f32` and
      `f32 as f64` conversions of IEEE 754 arithmetic. */
  datatype Externals = Externals(
    usizeMax: UsizeMax,
    parseCid: seq<byte> -> Option<Cid>,
    narrow: F64 -> F32,
    widen: F32 -> F64)

  /** The CID library reads back what it writes: `try_from(to_bytes(c)) == c`. */
  ghost predicate CidBytesRoundTrip(ext: Externals) {
    forall c: Cid :: ext.parseCid(c.bytes) == Some(c)
  }

  /** Widening an infinite or NaN `f32` gives an infinite or NaN `f64`. */
  ghost predicate WideningKeepsNonFinite(ext: Externals) {
    forall x: F32 :: !IsFinite32(x) ==> !IsFinite64(ext.widen(x))
  }

  /** Narrowing an infinite or NaN `f64` gives an infinite or NaN `f32`. */
  ghost predicate NarrowingKeepsNonFinite(ext: Externals) {
    forall f: F64 :: !IsFinite64(f) ==> !IsFinite32(ext.narrow(f))
  }

  /** Every map in `v` is strictly key-sorted: the `BTreeMap` invariant. */
  predicate Valid(v: Value) {
    match v
    case List(items) => forall i :: 0 <= i < |items| ==> Valid(items[i])
    case Map(entries) =>
      Sorted(entries) && forall i :: 0 <= i < |entries| ==> Valid(entries[i].1)
    case _ => true
  }

  /** Every integer in `v` lies in [-2^64, 2^64 - 1]. */
  predicate IntegersInRange(v: Value) {
    match v
    case Integer(i) => InCborRange(i)
    case List(items) => forall i :: 0 <= i < |items| ==> IntegersInRange(items[i])
    case Map(entries) => forall i :: 0 <= i < |entries| ==> IntegersInRange(entries[i].1)
    case _ => true
  }

  /** The link length window the link decoder accepts after the link encoder
      wrote it: the byte string `0x00 ++ bytes` must take the one-byte length
      form 0x58, so `24 <= |bytes| + 1 <= 255`. */
  predicate LinkInWindow(c: Cid) {
    23 <= |c.bytes| <= 254
  }

  /** The values the codec reads back exactly as it wrote them: maps sorted,
      integers in the CBOR range, floats finite, links in the length window,
      and every length within `usize::MAX`. */
  predicate RoundTrips(ext: Externals, v: Value) {
    match v
    case Integer(i) => InCborRange(i)
    case Float(f) => IsFinite64(f)
    case Bytes(b) => |b| <= ext.usizeMax
    case String(s) => |s| <= ext.usizeMax
    case List(items) =>
      |items| <= ext.usizeMax && forall i :: 0 <= i < |items| ==> RoundTrips(ext, items[i])
    case Map(entries) =>
      && |entries| <= ext.usizeMax
      && Sorted(entries)
      && (forall i :: 0 <= i < |entries| ==> |entries[i].0| <= ext.usizeMax)
      && (forall i :: 0 <= i < |entries| ==> RoundTrips(ext, entries[i].1))
    case Link(c) => LinkInWindow(c)
    case _ => true
  }

  /** The links embedded in `v`, in encoding order. */
  function LinksOf(v: Value): seq<Cid>
    decreases v
  {
    match v
    case Link(c) => [c]
    case List(items) => LinksOfItems(items)
    case Map(entries) => LinksOfEntries(entries)
    case _ => []
  }

  function LinksOfItems(items: seq<Value>): seq<Cid>
    decreases items
  {
    if |items| == 0 then [] else LinksOf(items[0]) + LinksOfItems(items[1..])
  }

  function LinksOfEntries(entries: seq<(Text, Value)>): seq<Cid>
    decreases entries
  {
    if |entries| == 0 then []
    else
      assert entries[0] in entries && entries[0].1 < entries[0];
      LinksOf(entries[0].1) + LinksOfEntries(entries[1..])
  }
}
