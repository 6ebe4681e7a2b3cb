/** Encoding then decoding an `Ipld` value gives it back, and the exact
    boundaries where it does not: non-finite floats (written as half
    floats, which the decoder declines) and links whose byte string does not
    take the one-byte length form 0x58. */
module RoundTrip {
  import opened ByteOrder
  import opened Results
  import opened Utf8
  import opened SortedMap
  import opened Ipld
  import opened Reader
  import opened ScalarDecode
  import opened IpldDecode
  import opened MapDecode
  import opened Encode
  import opened Headers

  /** A value the codec reads back has sorted maps and in-range integers. */
  lemma RoundTripsValid(ext: Externals, v: Value)
    requires RoundTrips(ext, v)
    ensures Valid(v) && IntegersInRange(v)
    decreases v
  {
    match v
    case List(items) =>
      forall i | 0 <= i < |items|
        ensures Valid(items[i]) && IntegersInRange(items[i])
      {
        RoundTripsValid(ext, items[i]);
      }
    case Map(entries) =>
      forall i | 0 <= i < |entries|
        ensures Valid(entries[i].1) && IntegersInRange(entries[i].1)
      {
        assert entries[i] in entries && entries[i].1 < entries[i];
        RoundTripsValid(ext, entries[i].1);
      }
    case _ =>
  }

  /** `read::<Ipld>` on a leading byte and what follows it is the `Ipld`
      rule applied to them, a decline becoming `UnexpectedCode`. */
  lemma LeadValue(ext: Externals, lead: byte, body: seq<byte>, r: Parsed<Value>)
    requires Settle(TryReadValue(ext, lead, body)) == r
    ensures ReadValue(ext, [lead] + body) == r
  {
    assert ([lead] + body)[0] == lead && ([lead] + body)[1..] == body;
  }

  /** The same for a leading byte that is neither a list nor a map header. */
  lemma LeafValue(ext: Externals, lead: byte, body: seq<byte>, r: Parsed<Value>)
    requires lead / 32 != 4 && lead / 32 != 5
    requires Settle(TryReadLeaf(ext, lead, body)) == r
    ensures ReadValue(ext, [lead] + body) == r
  {
    LeadValue(ext, lead, body, r);
  }

  /** Every `i128` in [-2^64, 2^64 - 1] is written and read back exactly,
      and the reader consumes exactly the bytes written. */
  lemma IntegerRoundTrip(ext: Externals, x: int, tail: seq<byte>)
    requires InCborRange(x)
    ensures EncodeI128(x).Ok?
    ensures ReadValue(ext, EncodeI128(x).value + tail) == Ok((Integer(x), tail))
  {
    var h := EncodeI128(x).value;
    if x >= 0 {
      ShortestHeaderReads(h, 0, x, tail);
    } else {
      ShortestHeaderReads(h, 1, -(x + 1), tail);
    }
    assert TryReadInteger(h[0], h[1..] + tail) == Ok(Some((x, tail)));
    LeafValue(ext, h[0], h[1..] + tail, Ok((Integer(x), tail)));
    SplitLead(h, tail);
  }

  /** A byte string within `usize::MAX` reads back exactly. */
  lemma BytesRoundTrip(ext: Externals, b: Vec<byte>, tail: seq<byte>)
    requires |b| <= ext.usizeMax
    ensures ReadValue(ext, EncodeBytes(b) + tail) == Ok((Bytes(b), tail))
  {
    var h := WriteU64(2, |b|);
    ShortestHeaderLength(ext, h, 2, |b|, b + tail);
    SplitAt(b, tail);
    assert TryReadByteBuf(ext, h[0], h[1..] + (b + tail)) == Ok(Some((b, tail)));
    LeafValue(ext, h[0], h[1..] + (b + tail), Ok((Bytes(b), tail)));
    ConcatAssoc(h, b, tail);
    SplitLead(h, b + tail);
  }

  /** A text string within `usize::MAX` reads back exactly, as a map key
      (`read::<String>`) as well as a value. */
  lemma TextRoundTrip(ext: Externals, t: Text, tail: seq<byte>)
    requires |t| <= ext.usizeMax
    ensures ReadString(ext, EncodeStr(t) + tail) == Ok((t, tail))
    ensures ReadValue(ext, EncodeStr(t) + tail) == Ok((String(t), tail))
  {
    var h := WriteU64(3, |t|);
    ShortestHeaderLength(ext, h, 3, |t|, t + tail);
    SplitAt(t, tail);
    assert TryReadString(ext, h[0], h[1..] + (t + tail)) == Ok(Some((t, tail)));
    LeafValue(ext, h[0], h[1..] + (t + tail), Ok((String(t), tail)));
    ConcatAssoc(h, t, tail);
    SplitLead(h, t + tail);
  }

  /** A four-byte float reads as its widening. */
  lemma F32Arm(ext: Externals, g: F32, tail: seq<byte>)
    ensures ReadValue(ext, [0xfa] + (g + tail)) == Ok((Float(ext.widen(g)), tail))
  {
    SplitAt(g, tail);
    assert TryReadF64(ext, 0xfa, g + tail) == Ok(Some((ext.widen(g), tail)));
    LeafValue(ext, 0xfa, g + tail, Ok((Float(ext.widen(g)), tail)));
  }

  /** An eight-byte float reads as itself. */
  lemma F64Arm(ext: Externals, f: F64, tail: seq<byte>)
    ensures ReadValue(ext, [0xfb] + (f + tail)) == Ok((Float(f), tail))
  {
    SplitAt(f, tail);
    assert TryReadF64(ext, 0xfb, f + tail) == Ok(Some((f, tail)));
    LeafValue(ext, 0xfb, f + tail, Ok((Float(f), tail)));
  }

  /** A finite `f64` reads back exactly, whichever width the encoder picked:
      when `as f32` keeps it, the four-byte form is widened back to it. */
  lemma FloatRoundTrip(ext: Externals, f: F64, tail: seq<byte>)
    requires WideningKeepsNonFinite(ext)
    requires IsFinite64(f)
    ensures ReadValue(ext, EncodeF64(ext, f) + tail) == Ok((Float(f), tail))
  {
    if ext.widen(ext.narrow(f)) == f {
      var g := ext.narrow(f);
      assert IsFinite32(g);
      F32Arm(ext, g, tail);
      ConcatAssoc([0xfa], g, tail);
    } else {
      F64Arm(ext, f, tail);
      ConcatAssoc([0xfb], f, tail);
    }
  }

  /** A non-finite float is written as a half float, whose leading byte
      0xf9 the decoder declines: it comes back as `UnexpectedCode`. */
  lemma NonFiniteFloatRejected(ext: Externals, f: F64, tail: seq<byte>)
    requires NarrowingKeepsNonFinite(ext)
    requires !IsFinite64(f)
    ensures EncodeF64(ext, f)[0] == 0xf9
    ensures ReadValue(ext, EncodeF64(ext, f) + tail) == Err(UnexpectedCode)
  {
    assert !IsFinite32(ext.narrow(f));
    assert (EncodeF64(ext, f) + tail)[0] == 0xf9;
  }

  /** The byte-string header of a link inside the window is `0x58 len`. */
  lemma LinkHeaderInWindow(c: Cid)
    requires LinkInWindow(c)
    ensures WriteU64(2, |c.bytes| + 1) == [0x58, |c.bytes| + 1]
  {
    var h := WriteU64(2, |c.bytes| + 1);
    assert h[0] % 32 == 24 && h[0] / 32 == 2;
    assert FromBE(h[1..]) == FromBE(h[1..][..0]) * 256 + h[1];
  }

  /** `read_link` accepts what `Encode for Cid` writes after 0xd8 when the
      binary form takes the one-byte length. */
  lemma ReadLinkBack(ext: Externals, c: Cid, w: seq<byte>, tail: seq<byte>)
    requires CidBytesRoundTrip(ext)
    requires LinkInWindow(c) && w == [0x58, |c.bytes| + 1]
    ensures ReadLink(ext, [42] + w + ([0] + c.bytes + tail)) == Ok((c, tail))
  {
    var n := |c.bytes| + 1;
    var s1 := [42] + w + ([0] + c.bytes + tail);
    assert s1[..2] == [42, 0x58] && s1[2] == n && s1[3] == 0;
    assert s1[4..3 + n] == c.bytes;
    assert s1[3 + n..] == tail;
    assert ext.parseCid(c.bytes) == Some(c);
    var s4 := s1[3..];
    assert s4 == [0] + c.bytes + tail;
    assert ReadBytes(s4, n) == Ok(([0] + c.bytes, tail));
  }

  /** A link whose binary form has 23 to 254 bytes reads back, given that
      the CID library parses what it serialises. */
  lemma LinkRoundTrip(ext: Externals, c: Cid, tail: seq<byte>)
    requires CidBytesRoundTrip(ext)
    requires LinkInWindow(c)
    ensures ReadValue(ext, EncodeCid(c) + tail) == Ok((Link(c), tail))
  {
    var w := WriteU64(2, |c.bytes| + 1);
    LinkHeaderInWindow(c);
    ReadLinkBack(ext, c, w, tail);
    LeafValue(ext, 0xd8, [42] + w + ([0] + c.bytes + tail), Ok((Link(c), tail)));
    CidLayout(c, tail);
  }

  /** `read_link` rejects a tag 42 whose byte string does not start with
      the one-byte length form 0x58. */
  lemma LinkLengthRejected(ext: Externals, h: seq<byte>, rest: seq<byte>)
    requires |h| > 0 && h[0] != 0x58
    ensures ReadLink(ext, [42] + h + rest) == Err(UnknownTag)
  {
    var s := [42] + h + rest;
    assert s[0] == 42 && s[1..][0] == h[0];
  }

  /** The bytes `Encode for Cid` writes: tag 42, the byte-string header,
      the multibase prefix 0 and the binary form. */
  lemma CidLayout(c: Cid, tail: seq<byte>)
    ensures EncodeCid(c) + tail
         == [0xd8] + ([42] + WriteU64(2, |c.bytes| + 1) + ([0] + c.bytes + tail))
  {
    assert WriteTag(42) == [0xd8, 42];
    Regroup(WriteTag(42), WriteU64(2, |c.bytes| + 1), c.bytes, tail);
  }

  lemma Regroup(t: seq<byte>, w: seq<byte>, b: seq<byte>, tail: seq<byte>)
    requires t == [0xd8, 42]
    ensures t + w + [0] + b + tail == [0xd8] + ([42] + w + ([0] + b + tail))
  {
    ConcatAssoc(t + w + [0], b, tail);
    ConcatAssoc(t + w, [0], b + tail);
    ConcatAssoc(t, w, [0] + (b + tail));
    ConcatAssoc([0], b, tail);
    ConcatAssoc([42], w, [0] + b + tail);
    ConcatAssoc([0xd8], [42], w + ([0] + b + tail));
    assert t == [0xd8] + [42];
  }

  /** A shortest header for an argument of 256 or more has a two-, four- or
      eight-byte argument, so its code is not 24. */
  lemma WideHeaderCode(h: seq<byte>, major: Major, v: nat)
    requires IsShortestHeader(h, major, v) && v >= 256
    ensures h[0] % 32 != 24
  {
  }

  /** A link whose binary form is shorter than 23 bytes gets an inline
      length, not 0x58, and the link decoder rejects it as an unknown tag. */
  lemma ShortLinkRejected(ext: Externals, c: Cid, tail: seq<byte>)
    requires |c.bytes| + 1 <= 23
    ensures ReadValue(ext, EncodeCid(c) + tail) == Err(UnknownTag)
  {
    var h := WriteU64(2, |c.bytes| + 1);
    var rest := [0] + c.bytes + tail;
    assert h[0] != 0x58;
    LinkLengthRejected(ext, h, rest);
    LeafValue(ext, 0xd8, [42] + h + rest, Err(UnknownTag));
    CidLayout(c, tail);
  }

  /** A link whose binary form has 255 bytes or more gets a two-, four- or
      eight-byte length (0x59..0x5b), and is rejected the same way. */
  lemma LongLinkRejected(ext: Externals, c: Cid, tail: seq<byte>)
    requires |c.bytes| + 1 >= 256
    ensures ReadValue(ext, EncodeCid(c) + tail) == Err(UnknownTag)
  {
    var h := WriteU64(2, |c.bytes| + 1);
    var rest := [0] + c.bytes + tail;
    WideHeaderCode(h, 2, |c.bytes| + 1);
    LinkLengthRejected(ext, h, rest);
    LeafValue(ext, 0xd8, [42] + h + rest, Err(UnknownTag));
    CidLayout(c, tail);
  }

  /** A list's leading byte and length, then its items, read as the list. */
  lemma ListArm(ext: Externals, lead: byte, s: seq<byte>, n: nat, body: seq<byte>,
                items: Vec<Value>, rest: seq<byte>)
    requires lead / 32 == 4 && ReadLength(ext, lead % 32, s) == Ok(Some((n, body)))
    requires ReadList(ext, body, n) == Ok((items, rest))
    ensures ReadValue(ext, [lead] + s) == Ok((List(items), rest))
  {
    LeadValue(ext, lead, s, Ok((List(items), rest)));
  }

  /** A map's leading byte and length, then its pairs, read as the map. */
  lemma MapArm(ext: Externals, lead: byte, s: seq<byte>, n: nat, body: seq<byte>,
               entries: Vec<(Text, Value)>, rest: seq<byte>)
    requires lead / 32 == 5 && ReadLength(ext, lead % 32, s) == Ok(Some((n, body)))
    requires ReadMap(ext, body, n, []) == Ok((entries, rest))
    ensures ReadValue(ext, [lead] + s) == Ok((Map(entries), rest))
  {
    LeadValue(ext, lead, s, Ok((Map(entries), rest)));
  }

  /** A list header followed by the items' bytes reads as the list. */
  lemma ReadListHeader(ext: Externals, n: nat, body: seq<byte>, items: Vec<Value>, rest: seq<byte>)
    requires n <= ext.usizeMax
    requires ReadList(ext, body, n) == Ok((items, rest))
    ensures ReadValue(ext, WriteU64(4, n) + body) == Ok((List(items), rest))
  {
    var h := WriteU64(4, n);
    ShortestHeaderLength(ext, h, 4, n, body);
    ListArm(ext, h[0], h[1..] + body, n, body, items, rest);
    SplitLead(h, body);
  }

  /** A map header followed by the pairs' bytes reads as the map. */
  lemma ReadMapHeader(ext: Externals, n: nat, body: seq<byte>, entries: Vec<(Text, Value)>, rest: seq<byte>)
    requires n <= ext.usizeMax
    requires ReadMap(ext, body, n, []) == Ok((entries, rest))
    ensures ReadValue(ext, WriteU64(5, n) + body) == Ok((Map(entries), rest))
  {
    var h := WriteU64(5, n);
    ShortestHeaderLength(ext, h, 5, n, body);
    MapArm(ext, h[0], h[1..] + body, n, body, entries, rest);
    SplitLead(h, body);
  }

  /** One step of `read_list`. */
  lemma ReadListStep(ext: Externals, s: seq<byte>, n: nat, v: Value, r1: seq<byte>, vs: seq<Value>, r2: seq<byte>)
    requires 0 < n
    requires ReadValue(ext, s) == Ok((v, r1))
    requires ReadList(ext, r1, n - 1) == Ok((vs, r2))
    ensures ReadList(ext, s, n) == Ok(([v] + vs, r2))
  {
  }

  /** One step of reading a map body: a key, its value, then the other pairs. */
  lemma ReadPairsStep(ext: Externals, s: seq<byte>, n: nat, k: Text, v: Value, r1: seq<byte>,
                      ps: seq<(Text, Value)>, r2: seq<byte>)
    requires 0 < n
    requires ReadEntry(ext, s) == Ok(((k, v), r1))
    requires ReadPairs(ext, r1, n - 1) == Ok((ps, r2))
    ensures ReadPairs(ext, s, n) == Ok(([(k, v)] + ps, r2))
  {
  }

  lemma EncodeEntriesCons(ext: Externals, entries: seq<(Text, Value)>, venc: seq<byte>, rest: seq<byte>)
    requires |entries| > 0
    requires EncodeValue(ext, entries[0].1) == Ok(venc)
    requires EncodeEntries(ext, entries[1..]) == Ok(rest)
    ensures EncodeEntries(ext, entries) == Ok(EncodeStr(entries[0].0) + venc + rest)
  {
  }

  lemma EncodeItemsCons(ext: Externals, items: seq<Value>, head: seq<byte>, rest: seq<byte>)
    requires |items| > 0
    requires EncodeValue(ext, items[0]) == Ok(head)
    requires EncodeItems(ext, items[1..]) == Ok(rest)
    ensures EncodeItems(ext, items) == Ok(head + rest)
  {
  }

  /** `decode(encode(v)) == v` for every value that has sorted maps, integers
      in the CBOR range, finite floats, links in the window and lengths
      within `usize::MAX`; the decoder stops exactly where the encoding ends. */
  lemma {:induction false} ValueRoundTrip(ext: Externals, v: Value, tail: seq<byte>)
    requires CidBytesRoundTrip(ext) && WideningKeepsNonFinite(ext)
    requires RoundTrips(ext, v)
    ensures EncodeValue(ext, v).Ok?
    ensures ReadValue(ext, EncodeValue(ext, v).value + tail) == Ok((v, tail))
    decreases v, 1
  {
    RoundTripsValid(ext, v);
    match v
    case Null =>
    case Bool(b) =>
    case Integer(i) => IntegerRoundTrip(ext, i, tail);
    case Float(f) => FloatRoundTrip(ext, f, tail);
    case Bytes(b) => BytesRoundTrip(ext, b, tail);
    case String(t) => TextRoundTrip(ext, t, tail);
    case Link(c) => LinkRoundTrip(ext, c, tail);
    case List(items) =>
      ItemsRoundTrip(ext, items, tail);
      var body := EncodeItems(ext, items).value;
      ReadListHeader(ext, |items|, body + tail, items, tail);
      assert EncodeValue(ext, v).value == WriteU64(4, |items|) + body;
      ConcatAssoc(WriteU64(4, |items|), body, tail);
    case Map(entries) =>
      PairsRoundTrip(ext, entries, tail);
      var body := EncodeEntries(ext, entries).value;
      MapRebuilds(ext, body + tail, entries, tail);
      ReadMapHeader(ext, |entries|, body + tail, entries, tail);
      assert EncodeValue(ext, v).value == WriteU64(5, |entries|) + body;
      ConcatAssoc(WriteU64(5, |entries|), body, tail);
  }

  /** The items of a list, one after another, read back as exactly those items. */
  lemma {:induction false} ItemsRoundTrip(ext: Externals, items: seq<Value>, tail: seq<byte>)
    requires CidBytesRoundTrip(ext) && WideningKeepsNonFinite(ext)
    requires forall i :: 0 <= i < |items| ==> RoundTrips(ext, items[i])
    ensures EncodeItems(ext, items).Ok?
    ensures ReadList(ext, EncodeItems(ext, items).value + tail, |items|) == Ok((items, tail))
    decreases items, 0
  {
    if |items| == 0 {
      ConcatEmpty(tail);
    } else {
      ItemsTail(ext, items);
      ItemsRoundTrip(ext, items[1..], tail);
      var rest := EncodeItems(ext, items[1..]).value;
      ValueRoundTrip(ext, items[0], rest + tail);
      ItemsStep(ext, items, tail, EncodeValue(ext, items[0]).value, rest);
    }
  }

  /** What `ItemsRoundTrip` asks of the items holds for the first and for
      the others. */
  lemma ItemsTail(ext: Externals, items: seq<Value>)
    requires |items| > 0
    requires forall i :: 0 <= i < |items| ==> RoundTrips(ext, items[i])
    ensures RoundTrips(ext, items[0])
    ensures forall i :: 0 <= i < |items[1..]| ==> RoundTrips(ext, items[1..][i])
  {
    assert forall i :: 0 <= i < |items[1..]| ==> items[1..][i] == items[i + 1];
  }

  /** The inductive step of `ItemsRoundTrip`. */
  lemma ItemsStep(ext: Externals, items: seq<Value>, tail: seq<byte>, head: seq<byte>, rest: seq<byte>)
    requires 0 < |items|
    requires EncodeValue(ext, items[0]) == Ok(head)
    requires EncodeItems(ext, items[1..]) == Ok(rest)
    requires ReadValue(ext, head + (rest + tail)) == Ok((items[0], rest + tail))
    requires ReadList(ext, rest + tail, |items| - 1) == Ok((items[1..], tail))
    ensures EncodeItems(ext, items).Ok?
    ensures ReadList(ext, EncodeItems(ext, items).value + tail, |items|) == Ok((items, tail))
  {
    EncodeItemsCons(ext, items, head, rest);
    ConcatAssoc(head, rest, tail);
    ReadListStep(ext, head + (rest + tail), |items|, items[0], rest + tail, items[1..], tail);
    HeadTail(items);
  }

  /** The pairs of a map, written one after another, read back as exactly
      those pairs, in the same order. */
  lemma {:induction false} PairsRoundTrip(ext: Externals, entries: seq<(Text, Value)>, tail: seq<byte>)
    requires CidBytesRoundTrip(ext) && WideningKeepsNonFinite(ext)
    requires forall i :: 0 <= i < |entries| ==> |entries[i].0| <= ext.usizeMax
    requires forall i :: 0 <= i < |entries| ==> RoundTrips(ext, entries[i].1)
    ensures EncodeEntries(ext, entries).Ok?
    ensures ReadPairs(ext, EncodeEntries(ext, entries).value + tail, |entries|) == Ok((entries, tail))
    decreases entries, 1
  {
    if |entries| == 0 {
      ConcatEmpty(tail);
    } else {
      EntriesTail(ext, entries);
      PairsRoundTrip(ext, entries[1..], tail);
      PairsCons(ext, entries, tail, EncodeEntries(ext, entries[1..]).value);
    }
  }

  /** What `PairsRoundTrip` asks of the pairs holds for the first pair and
      for the others. */
  lemma EntriesTail(ext: Externals, entries: seq<(Text, Value)>)
    requires |entries| > 0
    requires forall i :: 0 <= i < |entries| ==> |entries[i].0| <= ext.usizeMax
    requires forall i :: 0 <= i < |entries| ==> RoundTrips(ext, entries[i].1)
    ensures |entries[0].0| <= ext.usizeMax && RoundTrips(ext, entries[0].1)
    ensures forall i :: 0 <= i < |entries[1..]| ==> |entries[1..][i].0| <= ext.usizeMax
    ensures forall i :: 0 <= i < |entries[1..]| ==> RoundTrips(ext, entries[1..][i].1)
  {
    assert forall i :: 0 <= i < |entries[1..]| ==> entries[1..][i] == entries[i + 1];
  }

  /** The inductive step of `PairsRoundTrip`: the first pair in front of
      pairs that read back. */
  lemma {:induction false} PairsCons(ext: Externals, entries: seq<(Text, Value)>, tail: seq<byte>, rest: seq<byte>)
    requires CidBytesRoundTrip(ext) && WideningKeepsNonFinite(ext)
    requires |entries| > 0 && |entries[0].0| <= ext.usizeMax && RoundTrips(ext, entries[0].1)
    requires EncodeEntries(ext, entries[1..]) == Ok(rest)
    requires ReadPairs(ext, rest + tail, |entries| - 1) == Ok((entries[1..], tail))
    ensures EncodeEntries(ext, entries).Ok?
    ensures ReadPairs(ext, EncodeEntries(ext, entries).value + tail, |entries|) == Ok((entries, tail))
    decreases entries, 0
  {
    var (k, v) := entries[0];
    assert entries[0] in entries && v < entries[0];
    ValueRoundTrip(ext, v, rest + tail);
    EntryRoundTrip(ext, k, v, EncodeValue(ext, v).value, rest + tail);
    EntriesStep(ext, entries, tail, EncodeValue(ext, v).value, rest);
  }

  /** A key written as text and followed by its value's bytes reads back as
      that pair. */
  lemma EntryRoundTrip(ext: Externals, k: Text, v: Value, venc: seq<byte>, rest: seq<byte>)
    requires |k| <= ext.usizeMax
    requires ReadValue(ext, venc + rest) == Ok((v, rest))
    ensures ReadEntry(ext, EncodeStr(k) + (venc + rest)) == Ok(((k, v), rest))
  {
    TextRoundTrip(ext, k, venc + rest);
  }

  /** The inductive step of `PairsRoundTrip`. */
  lemma EntriesStep(ext: Externals, entries: seq<(Text, Value)>, tail: seq<byte>, venc: seq<byte>, rest: seq<byte>)
    requires |entries| > 0
    requires EncodeValue(ext, entries[0].1) == Ok(venc)
    requires EncodeEntries(ext, entries[1..]) == Ok(rest)
    requires ReadEntry(ext, EncodeStr(entries[0].0) + (venc + (rest + tail))) == Ok((entries[0], rest + tail))
    requires ReadPairs(ext, rest + tail, |entries| - 1) == Ok((entries[1..], tail))
    ensures EncodeEntries(ext, entries).Ok?
    ensures ReadPairs(ext, EncodeEntries(ext, entries).value + tail, |entries|) == Ok((entries, tail))
  {
    var k := entries[0].0;
    EncodeEntriesCons(ext, entries, venc, rest);
    ConcatAssoc(EncodeStr(k) + venc, rest, tail);
    ConcatAssoc(EncodeStr(k), venc, rest + tail);
    ReadPairsStep(ext, EncodeStr(k) + (venc + (rest + tail)), |entries|, k, entries[0].1,
                  rest + tail, entries[1..], tail);
    HeadTail(entries);
  }

  /** A sorted map's pairs, inserted in order into an empty map, give the
      map back. */
  lemma MapRebuilds(ext: Externals, body: seq<byte>, entries: Vec<(Text, Value)>, tail: seq<byte>)
    requires Sorted(entries)
    requires ReadPairs(ext, body, |entries|) == Ok((entries, tail))
    ensures ReadMap(ext, body, |entries|, []) == Ok((entries, tail))
  {
    ReadMapInsertsPairs(ext, body, |entries|, []);
    InsertAllAbove([], entries);
    ConcatEmpty(entries);
  }
}
