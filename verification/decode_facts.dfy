/** Consequences of the decoders of src/decode.rs that the code promises
    without spelling them out: how the items of a list compose, that the first
    item that fails ends the list, what a map does with a key that is not
    text, which leading bytes are refused, and that an integer read and
    written again never grows. */
module DecodeFacts {
  import opened ByteOrder
  import opened Results
  import opened Utf8
  import opened SortedMap
  import opened Ipld
  import opened Reader
  import opened ScalarDecode
  import opened IpldDecode
  import opened TypedDecode
  import opened Encode
  import opened Headers

  /** Reads `m` more items after a list prefix `p`; an error passes through. */
  function ThenItems(ext: Externals, p: Parsed<seq<Value>>, m: nat): Parsed<seq<Value>>
  {
    match p
    case Err(e) => Err(e)
    case Ok((xs, r)) =>
      match ReadList(ext, r, m)
      case Err(e) => Err(e)
      case Ok((ys, r')) => Ok((xs + ys, r'))
  }

  /** Reading `n + m` items is reading `n` items and then `m` more from where
      they stopped: the items come in wire order and none is skipped. */
  predicate SplitAgrees(ext: Externals, s: seq<byte>, n: nat, m: nat) {
    ReadList(ext, s, n + m) == ThenItems(ext, ReadList(ext, s, n), m)
  }

  lemma ReadListSplit(ext: Externals, s: seq<byte>, n: nat, m: nat)
    ensures ReadList(ext, s, n + m) == ThenItems(ext, ReadList(ext, s, n), m)
  {
    Splits(ext, s, n, m);
  }

  lemma {:induction false} Splits(ext: Externals, s: seq<byte>, n: nat, m: nat)
    ensures SplitAgrees(ext, s, n, m)
    decreases n, 1
  {
    if n == 0 {
      SplitNone(ext, s, m);
    } else {
      SplitsAfterFirst(ext, s, n, m);
    }
  }

  lemma {:induction false} SplitsAfterFirst(ext: Externals, s: seq<byte>, n: nat, m: nat)
    requires n > 0
    ensures SplitAgrees(ext, s, n, m)
    decreases n, 0
  {
    match ReadValue(ext, s)
    case Err(_) => SplitFails(ext, s, n, m);
    case Ok((v, r)) =>
      Splits(ext, r, n - 1, m);
      SplitStep(ext, s, n, m, v, r);
  }

  lemma SplitNone(ext: Externals, s: seq<byte>, m: nat)
    ensures SplitAgrees(ext, s, 0, m)
  {
    match ReadList(ext, s, m)
    case Err(_) =>
    case Ok((ys, _)) => assert [] + ys == ys;
  }

  lemma SplitFails(ext: Externals, s: seq<byte>, n: nat, m: nat)
    requires n > 0 && ReadValue(ext, s).Err?
    ensures SplitAgrees(ext, s, n, m)
  {
  }

  /** One item in front of a split list. */
  lemma SplitStep(ext: Externals, s: seq<byte>, n: nat, m: nat, v: Value, r: seq<byte>)
    requires n > 0 && ReadValue(ext, s) == Ok((v, r))
    requires SplitAgrees(ext, r, n - 1, m)
    ensures SplitAgrees(ext, s, n, m)
  {
    match ReadList(ext, r, n - 1)
    case Err(_) =>
    case Ok((xs, r1)) =>
      match ReadList(ext, r1, m)
      case Err(_) =>
      case Ok((ys, _)) => ConcatAssoc([v], xs, ys);
  }

  /** The first item that fails to read ends the whole list with its error. */
  lemma FirstErrorAborts(ext: Externals, s: seq<byte>, n: nat, k: nat,
                         xs: seq<Value>, r: seq<byte>, e: Error)
    requires k < n
    requires ReadList(ext, s, k) == Ok((xs, r))
    requires ReadValue(ext, r) == Err(e)
    ensures ReadList(ext, s, n) == Err(e)
  {
    ReadListSplit(ext, s, k, n - k);
  }

  /** What the list arm of the generic rule returns: the length's error,
      or else exactly what `read_list` returns, its error or its items. */
  lemma IpldListOutcome(ext: Externals, major: byte, s: seq<byte>)
    requires major / 32 == 4
    ensures ReadLength(ext, major % 32, s).Err? ==>
      TryReadIpldList(ext, major, s) == Err(ReadLength(ext, major % 32, s).error)
    ensures ReadLength(ext, major % 32, s).Ok? && ReadLength(ext, major % 32, s).value.Some? ==>
      var (n, rest) := ReadLength(ext, major % 32, s).value.value;
      TryReadIpldList(ext, major, s) ==
        match ReadList(ext, rest, n)
        case Err(e) => Err(e)
        case Ok((items, rest')) => Ok(Some((List(items), rest')))
  {
  }

  /** What the map arm of the generic rule returns: the length's error, or
      else exactly what `read_map` returns from an empty map. */
  lemma IpldMapOutcome(ext: Externals, major: byte, s: seq<byte>)
    requires major / 32 == 5
    ensures ReadLength(ext, major % 32, s).Err? ==>
      TryReadIpldMap(ext, major, s) == Err(ReadLength(ext, major % 32, s).error)
    ensures ReadLength(ext, major % 32, s).Ok? && ReadLength(ext, major % 32, s).value.Some? ==>
      var (n, rest) := ReadLength(ext, major % 32, s).value.value;
      TryReadIpldMap(ext, major, s) ==
        match ReadMap(ext, rest, n, [])
        case Err(e) => Err(e)
        case Ok((entries, rest')) => Ok(Some((Map(entries), rest')))
  {
  }

  /** The same for `Vec<T>`, with `read_list::<T>`. */
  lemma TypedVecOutcome(ext: Externals, elem: Ty, major: byte, s: seq<byte>)
    requires major / 32 == 4
    ensures ReadLength(ext, major % 32, s).Err? ==>
      TryReadTypedVec(ext, elem, major, s) == Err(ReadLength(ext, major % 32, s).error)
    ensures ReadLength(ext, major % 32, s).Ok? && ReadLength(ext, major % 32, s).value.Some? ==>
      var (n, rest) := ReadLength(ext, major % 32, s).value.value;
      TryReadTypedVec(ext, elem, major, s) ==
        match ReadTypedList(ext, elem, rest, n)
        case Err(e) => Err(e)
        case Ok((items, rest')) => Ok(Some((TVec(items), rest')))
  {
  }

  /** The same for `BTreeMap<String, T>`, with `read_map::<T>`. */
  lemma TypedMapOutcome(ext: Externals, val: Ty, major: byte, s: seq<byte>)
    requires major / 32 == 5
    ensures ReadLength(ext, major % 32, s).Err? ==>
      TryReadTypedMap(ext, val, major, s) == Err(ReadLength(ext, major % 32, s).error)
    ensures ReadLength(ext, major % 32, s).Ok? && ReadLength(ext, major % 32, s).value.Some? ==>
      var (n, rest) := ReadLength(ext, major % 32, s).value.value;
      TryReadTypedMap(ext, val, major, s) ==
        match ReadTypedMap(ext, val, rest, n, [])
        case Err(e) => Err(e)
        case Ok((entries, rest')) => Ok(Some((TMap(entries), rest')))
  {
  }

  /** `read` passes the rule's error on unchanged, for `Ipld` and for every
      typed rule. */
  lemma ReadPassesErrors(ext: Externals, ty: Ty, s: seq<byte>)
    requires |s| > 0
    ensures TryReadValue(ext, s[0], s[1..]).Err? ==>
      ReadValue(ext, s) == Err(TryReadValue(ext, s[0], s[1..]).error)
    ensures TryReadTyped(ext, ty, s[0], s[1..]).Err? ==>
      ReadTyped(ext, ty, s) == Err(TryReadTyped(ext, ty, s[0], s[1..]).error)
  {
  }

  /** A map whose next key is not a text string fails with `UnexpectedCode`,
      in the generic decoder and in `BTreeMap<String, T>` alike. */
  lemma NonTextKeyRejected(ext: Externals, s: seq<byte>, n: nat, acc: seq<(Text, Value)>)
    requires n > 0 && |s| > 0 && !(0x60 <= s[0] <= 0x7b)
    ensures ReadMap(ext, s, n, acc) == Err(UnexpectedCode)
  {
  }

  lemma TypedNonTextKeyRejected(ext: Externals, val: Ty, s: seq<byte>, n: nat, acc: Vec<(Text, Typed)>)
    requires |acc| + n < TWO_64
    requires Sorted(acc) && forall i :: 0 <= i < |acc| ==> HasType(acc[i].1, val)
    requires n > 0 && |s| > 0 && !(0x60 <= s[0] <= 0x7b)
    ensures ReadTypedMap(ext, val, s, n, acc) == Err(UnexpectedCode)
  {
  }

  /** The reserved integer codes 0x1c..0x1f and 0x3c..0x3f and the half
      float 0xf9 are declined by the generic rule, with nothing after the
      leading byte read, and `read` turns that into `UnexpectedCode`. */
  lemma ReservedCodesRejected(ext: Externals, lead: byte, s: seq<byte>)
    requires 0x1c <= lead <= 0x1f || 0x3c <= lead <= 0x3f || lead == 0xf9
    ensures TryReadValue(ext, lead, s) == Ok(None)
    ensures ReadValue(ext, [lead] + s) == Err(UnexpectedCode)
  {
    assert ([lead] + s)[0] == lead;
  }

  /** A fixed-width unsigned type declines an argument wider than itself
      (`u8` declines 0x19, 0x1a and 0x1b) even when the value would fit. */
  lemma NarrowUnsignedDeclines(ext: Externals, w: IntSize, lead: byte, s: seq<byte>)
    requires MaxCode(w) < lead <= 0x1b
    ensures TryReadTyped(ext, UintT(w), lead, s) == Ok(None)
    ensures ReadTyped(ext, UintT(w), [lead] + s) == Err(UnexpectedCode)
  {
    assert ([lead] + s)[0] == lead && ([lead] + s)[1..] == s;
  }

  /** `Option<T>` reads null (0xf6) and undefined (0xf7) as `None`, reading
      nothing more, whatever `T` is. */
  lemma OptionNullIsNone(ext: Externals, inner: Ty, lead: byte, s: seq<byte>)
    requires lead == 0xf6 || lead == 0xf7
    ensures ReadTyped(ext, OptionT(inner), [lead] + s) == Ok((TNone, s))
  {
    assert ([lead] + s)[0] == lead && ([lead] + s)[1..] == s;
  }

  /** What the generic decoder reads as an integer starts with a major type
      0 or 1 byte, and the integer rule read it. */
  lemma IntegerLead(ext: Externals, s: seq<byte>, x: I128, rest: seq<byte>)
    requires ReadValue(ext, s) == Ok((Integer(x), rest))
    ensures |s| > 0 && s[0] < 0x40
    ensures TryReadInteger(s[0], s[1..]) == Ok(Some((x, rest)))
  {
    var lead := s[0];
    ContainerNotInteger(ext, lead, s[1..]);
    assert TryReadValue(ext, lead, s[1..]) == TryReadLeaf(ext, lead, s[1..]);
  }

  /** The list and map arms read only lists and maps. */
  lemma ContainerNotInteger(ext: Externals, lead: byte, body: seq<byte>)
    ensures lead / 32 == 4 || lead / 32 == 5 ==>
      var c := TryReadValue(ext, lead, body);
      !(c.Ok? && c.value.Some? && c.value.value.0.Integer?)
  {
    if lead / 32 == 4 {
      assert TryReadValue(ext, lead, body) == TryReadIpldList(ext, lead, body);
    } else if lead / 32 == 5 {
      assert TryReadValue(ext, lead, body) == TryReadIpldMap(ext, lead, body);
    }
  }

  /** Decoding then encoding canonicalises integers: an integer the generic
      decoder reads, written again by `Encode for i128`, takes no more bytes
      than were read, and when it takes as many they are the same bytes. */
  lemma IntegerCanonical(ext: Externals, s: seq<byte>, x: I128, rest: seq<byte>)
    requires ReadValue(ext, s) == Ok((Integer(x), rest))
    ensures EncodeI128(x).Ok?
    ensures |EncodeI128(x).value| <= |s| - |rest|
    ensures |EncodeI128(x).value| == |s| - |rest| ==> EncodeI128(x).value == s[..|s| - |rest|]
  {
    IntegerLead(ext, s, x, rest);
    IntegerRuleCanonical(s, x, rest);
  }

  /** The same for what the integer rule reads after its leading byte. */
  lemma IntegerRuleCanonical(s: seq<byte>, x: int, rest: seq<byte>)
    requires |s| > 0 && s[0] < 0x40
    requires TryReadInteger(s[0], s[1..]) == Ok(Some((x, rest)))
    ensures EncodeI128(x).Ok?
    ensures |EncodeI128(x).value| <= |s| - |rest|
    ensures |EncodeI128(x).value| == |s| - |rest| ==> EncodeI128(x).value == s[..|s| - |rest|]
  {
    var major: Major := s[0] / 32;
    var arg := if major == 0 then x else -1 - x;
    assert EncodeI128(x) == Ok(WriteU64(major, arg));
    HeaderCanonical(s, major, arg, rest);
  }

  /** A header the argument reader accepts, with any width, is never shorter
      than the one `write_u64` emits for its argument, and is that one when
      it is as long. */
  lemma HeaderCanonical(s: seq<byte>, major: Major, v: nat, rest: seq<byte>)
    requires |s| > 0 && s[0] / 32 == major
    requires ReadArgument(s[0] % 32, 27, s[1..]) == Ok(Some((v, rest)))
    ensures v < TWO_64
    ensures |WriteU64(major, v)| <= |s| - |rest|
    ensures |WriteU64(major, v)| == |s| - |rest| ==> WriteU64(major, v) == s[..|s| - |rest|]
  {
    var ai := s[0] % 32;
    HeaderMinimal(major, ai, s[1..], v, rest);
    assert Lead(major, ai) == s[0];
    PrefixLead(s, |s| - |rest|);
  }
}
