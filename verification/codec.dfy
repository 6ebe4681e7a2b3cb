/** The glue of src/lib.rs: the codec marker and its multicodec code, and
    the two end-to-end properties the crate checks on sample values, stated
    here for those samples and for every value. */
module Codec {
  import opened ByteOrder
  import opened Results
  import opened Utf8
  import opened SortedMap
  import opened Ipld
  import opened IpldDecode
  import opened Encode
  import opened RoundTrip

  /** `CborCodec`: a marker with a single value. */
  datatype CborCodec = CborCodec

  /** The multicodec code of DAG-CBOR. */
  const DAG_CBOR: nat := 0x51

  /** `From<CborCodec> for u64`. */
  function ToCode(c: CborCodec): (code: nat)
    ensures code == 0x51 && code < TWO_64
  {
    DAG_CBOR
  }

  /** `TryFrom<u64> for CborCodec`: every code is accepted, not only 0x51. */
  function FromCode(code: nat): (r: Result<CborCodec>)
    requires code < TWO_64
    ensures r.Ok?
  {
    Ok(CborCodec)
  }

  /** The codec's code is 0x51, and converting it back gives the codec. */
  lemma CodeRoundTrip(c: CborCodec)
    ensures ToCode(c) == 0x51 && ToCode(c) < TWO_64
    ensures FromCode(ToCode(c)) == Ok(c)
  {
  }

  /** `v` embeds the link `c` somewhere, at any depth. */
  predicate HasLink(v: Value, c: Cid)
    decreases v
  {
    match v
    case Link(d) => d == c
    case List(items) => exists i :: 0 <= i < |items| && HasLink(items[i], c)
    case Map(entries) => exists e :: e in entries && HasLink(e.1, c)
    case _ => false
  }

  /** `LinksOf` collects exactly the embedded links: the scan the codec's
      `references` performs finds every link and nothing else. */
  lemma {:induction false} LinksOfExact(v: Value, c: Cid)
    ensures c in LinksOf(v) <==> HasLink(v, c)
    decreases v, 1
  {
    match v
    case List(items) => ItemsLinksExact(items, c);
    case Map(entries) => EntriesLinksExact(entries, c);
    case _ =>
  }

  lemma {:induction false} ItemsLinksExact(items: seq<Value>, c: Cid)
    ensures c in LinksOfItems(items) <==> exists i :: 0 <= i < |items| && HasLink(items[i], c)
    decreases items, 0
  {
    if |items| > 0 {
      LinksOfExact(items[0], c);
      ItemsLinksExact(items[1..], c);
      if exists i :: 0 <= i < |items| && HasLink(items[i], c) {
        var i :| 0 <= i < |items| && HasLink(items[i], c);
        if i > 0 {
          assert items[1..][i - 1] == items[i];
        }
      }
      if exists i :: 0 <= i < |items[1..]| && HasLink(items[1..][i], c) {
        var i :| 0 <= i < |items[1..]| && HasLink(items[1..][i], c);
        assert items[i + 1] == items[1..][i];
      }
    }
  }

  lemma {:induction false} EntriesLinksExact(entries: seq<(Text, Value)>, c: Cid)
    ensures c in LinksOfEntries(entries) <==> exists e :: e in entries && HasLink(e.1, c)
    decreases entries, 0
  {
    if |entries| > 0 {
      assert entries[0] in entries && entries[0].1 < entries[0];
      LinksOfExact(entries[0].1, c);
      EntriesLinksExact(entries[1..], c);
      assert entries == [entries[0]] + entries[1..];
      if exists e :: e in entries && HasLink(e.1, c) {
        var e :| e in entries && HasLink(e.1, c);
        assert e == entries[0] || e in entries[1..];
      }
    }
  }

  /** Scanning what the codec writes for references finds every link the
      value embeds: decoding the bytes gives a value whose links include it. */
  lemma ReferencesFound(ext: Externals, v: Value, c: Cid)
    requires CidBytesRoundTrip(ext) && WideningKeepsNonFinite(ext)
    requires RoundTrips(ext, v) && HasLink(v, c)
    ensures EncodeValue(ext, v).Ok?
    ensures ReadValue(ext, EncodeValue(ext, v).value).Ok?
    ensures c in LinksOf(ReadValue(ext, EncodeValue(ext, v).value).value.0)
  {
    ValueRoundTrip(ext, v, []);
    assert EncodeValue(ext, v).value + [] == EncodeValue(ext, v).value;
    LinksOfExact(v, c);
  }

  /** An ASCII key. */
  function Key(s: seq<byte>): (t: Text)
    requires |s| < 256 && forall i :: 0 <= i < |s| ==> s[i] < 0x80
    ensures t == s
  {
    AsciiIsUtf8(s);
    s
  }

  const BYTES: Text := Key([0x62, 0x79, 0x74, 0x65, 0x73])
  const LINK: Text := Key([0x6c, 0x69, 0x6e, 0x6b])
  const LIST: Text := Key([0x6c, 0x69, 0x73, 0x74])
  const MAP: Text := Key([0x6d, 0x61, 0x70])
  const NUMBER: Text := Key([0x6e, 0x75, 0x6d, 0x62, 0x65, 0x72])
  const FLOAT: Text := Key([0x66, 0x6c, 0x6f, 0x61, 0x74])
  const STRING: Text := Key([0x73, 0x74, 0x72, 0x69, 0x6e, 0x67])
  const HELLO: Text := Key([0x68, 0x65, 0x6c, 0x6c, 0x6f])
  const ZERO: F64 := [0, 0, 0, 0, 0, 0, 0, 0]

  /** The keys of the round-trip test. */
  datatype SampleKeys = SampleKeys(
    bytesKey: Text, linkKey: Text, listKey: Text, mapKey: Text, numberKey: Text,
    floatKey: Text, stringKey: Text)

  const KEYS: SampleKeys := SampleKeys(BYTES, LINK, LIST, MAP, NUMBER, FLOAT, STRING)

  /** Keys in `BTreeMap` order, each short enough for any `usize`. */
  predicate KeysInOrder(k: SampleKeys) {
    && Below(k.bytesKey, k.linkKey) && Below(k.linkKey, k.listKey)
    && Below(k.listKey, k.mapKey) && Below(k.mapKey, k.numberKey)
    && Below(k.floatKey, k.stringKey)
    && |k.bytesKey| < 256 && |k.linkKey| < 256 && |k.listKey| < 256
    && |k.mapKey| < 256 && |k.numberKey| < 256
    && |k.floatKey| < 256 && |k.stringKey| < 256
  }

  /** The nested map of the round-trip test: `float` 0.0 and `string` "hello". */
  function SampleInner(k: SampleKeys, hello: Text): seq<(Text, Value)>
  {
    [(k.floatKey, Float(ZERO)), (k.stringKey, String(hello))]
  }

  /** The value of the round-trip test: `number`, `list`, `bytes`, `map`
      and `link`, in `BTreeMap` key order. */
  function SampleEntries(k: SampleKeys, hello: Text, c: Cid): seq<(Text, Value)>
  {
    [ (k.bytesKey, Bytes([0, 1, 2, 3])),
      (k.linkKey, Link(c)),
      (k.listKey, List([Bool(true), Null, Bool(false)])),
      (k.mapKey, Map(SampleInner(k, hello))),
      (k.numberKey, Integer(1)) ]
  }

  function Sample(c: Cid): Value
  {
    Map(SampleEntries(KEYS, HELLO, c))
  }

  /** The round-trip test: the sample, with a link in the window, is
      written and read back equal, with nothing left over. */
  lemma SampleRoundTrip(ext: Externals, c: Cid)
    requires CidBytesRoundTrip(ext) && WideningKeepsNonFinite(ext)
    requires LinkInWindow(c)
    ensures EncodeValue(ext, Sample(c)).Ok?
    ensures ReadValue(ext, EncodeValue(ext, Sample(c)).value) == Ok((Sample(c), []))
  {
    SampleKeysBelow();
    SampleRoundTrips(ext, KEYS, HELLO, c);
    ValueRoundTrip(ext, Sample(c), []);
    assert EncodeValue(ext, Sample(c)).value + [] == EncodeValue(ext, Sample(c)).value;
  }

  /** The sample round-trips for any keys in order. */
  lemma SampleRoundTrips(ext: Externals, k: SampleKeys, hello: Text, c: Cid)
    requires KeysInOrder(k) && |hello| < 256 && LinkInWindow(c)
    ensures RoundTrips(ext, Map(SampleEntries(k, hello, c)))
  {
    var m := SampleEntries(k, hello, c);
    SampleSorted(k, hello, c);
    InnerRoundTrips(ext, k, hello);
    assert RoundTrips(ext, m[2].1) by {
      assert m[2].1.items == [Bool(true), Null, Bool(false)];
    }
  }

  lemma InnerRoundTrips(ext: Externals, k: SampleKeys, hello: Text)
    requires KeysInOrder(k) && |hello| < 256
    ensures RoundTrips(ext, Map(SampleInner(k, hello)))
  {
    AdjacentSorted(SampleInner(k, hello));
  }

  /** The keys of the test, in byte-lexicographic order. */
  lemma SampleKeysBelow()
    ensures KeysInOrder(KEYS) && |HELLO| < 256
  {
    assert Below(LINK[2..], LIST[2..]);
  }

  lemma SampleSorted(k: SampleKeys, hello: Text, c: Cid)
    requires KeysInOrder(k)
    ensures Sorted(SampleEntries(k, hello, c))
  {
    AdjacentSorted(SampleEntries(k, hello, c));
  }

  /** Keys in order from each entry to the next make a sorted map. */
  lemma AdjacentSorted<V>(m: seq<(Text, V)>)
    requires forall k :: 0 <= k < |m| - 1 ==> Below(m[k].0, m[k + 1].0)
    ensures Sorted(m)
  {
    forall i, j | 0 <= i < j < |m|
      ensures Below(m[i].0, m[j].0)
    {
      ChainBelow(m, i, j);
    }
  }

  /** Adjacent keys in order make every later key greater. */
  lemma {:induction false} ChainBelow<V>(m: seq<(Text, V)>, i: nat, j: nat)
    requires i < j < |m|
    requires forall k :: 0 <= k < |m| - 1 ==> Below(m[k].0, m[k + 1].0)
    ensures Below(m[i].0, m[j].0)
    decreases j - i
  {
    if j > i + 1 {
      ChainBelow(m, i + 1, j);
      BelowTransitive(m[i].0, m[i + 1].0, m[j].0);
    }
  }

  /** The references test: a map holding a list with `true` and a link;
      scanning its encoding finds the link. */
  lemma SampleReferences(ext: Externals, c: Cid)
    requires CidBytesRoundTrip(ext) && WideningKeepsNonFinite(ext)
    requires LinkInWindow(c)
    ensures var v := Map([(LIST, List([Bool(true), Link(c)]))]);
      && EncodeValue(ext, v).Ok? && ReadValue(ext, EncodeValue(ext, v).value).Ok?
      && c in LinksOf(ReadValue(ext, EncodeValue(ext, v).value).value.0)
  {
    var v := Map([(LIST, List([Bool(true), Link(c)]))]);
    assert HasLink(v.entries[0].1, c) by {
      assert HasLink(v.entries[0].1.items[1], c);
    }
    assert v.entries[0] in v.entries;
    ReferencesFound(ext, v, c);
  }
}
