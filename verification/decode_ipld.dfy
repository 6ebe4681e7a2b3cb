/** The generic decoder of src/decode.rs: `TryReadCbor for Ipld`, with
    `read`, `read_list` and `read_map` instantiated at `Ipld`. The four
    functions are mutually recursive; every step consumes at least one byte,
    which is what makes the recursion terminate. */
module IpldDecode {
  import opened ByteOrder
  import opened Results
  import opened Utf8
  import opened SortedMap
  import opened Ipld
  import opened Reader
  import opened ScalarDecode

  /** The leading bytes the `Ipld` rule claims: the five argument forms of
      major types 0 to 5, the one-byte tag 0xd8, false, true, null,
      undefined, and the four- and eight-byte floats. */
  predicate IpldClaims(major: byte) {
    || 0x00 <= major <= 0x1b
    || 0x20 <= major <= 0x3b
    || 0x40 <= major <= 0x5b
    || 0x60 <= major <= 0x7b
    || 0x80 <= major <= 0x9b
    || 0xa0 <= major <= 0xbb
    || major == 0xd8
    || 0xf4 <= major <= 0xf7
    || major == 0xfa || major == 0xfb
  }

  /** The integer part of the `Ipld` rule: major type 0 reads as `n` and
      major type 1 as `-1 - n`, both as `i128`, for every argument width; the
      reserved codes 0x1c..0x1f and 0x3c..0x3f are declined. */
  function TryReadInteger(major: byte, s: seq<byte>): (r: Claim<int>)
    requires major < 0x40
    ensures r == Ok(None) <==> major % 32 > 27
    ensures r.Err? ==> r.error == Io
    ensures r.Ok? && r.value.Some? ==> SuffixOf(r.value.value.1, s)
    ensures r.Ok? && r.value.Some? ==>
      var (x, rest) := r.value.value;
      ReadArgument(major % 32, 27, s) == Ok(Some((if major < 0x20 then x else -1 - x, rest)))
    ensures r.Ok? && r.value.Some? && major < 0x20 ==> 0 <= r.value.value.0 < TWO_64
    ensures r.Ok? && r.value.Some? && major >= 0x20 ==> -(TWO_64 as int) <= r.value.value.0 < 0
  {
    var arg :- ReadArgument(major % 32, 27, s);
    match arg
    case None => Ok(None)
    case Some((n, rest)) =>
      ArgumentBounds(major % 32, 27, s);
      if major < 0x20 then Ok(Some((n, rest))) else Ok(Some((-1 - n, rest)))
  }

  /** The `Ipld` rule for everything but lists and maps. 0xf7 (undefined)
      reads as `Null` like 0xf6, and a four-byte float is widened. */
  function TryReadLeaf(ext: Externals, major: byte, s: seq<byte>): (r: Claim<Value>)
    requires major / 32 != 4 && major / 32 != 5
    ensures r == Ok(None) <==> !IpldClaims(major)
    ensures r.Ok? && r.value.Some? ==> SuffixOf(r.value.value.1, s)
    ensures r.Ok? && r.value.Some? ==> Valid(r.value.value.0)
    ensures major == 0xf4 || major == 0xf5 ==> r == Ok(Some((Bool(major == 0xf5), s)))
    ensures major == 0xf6 || major == 0xf7 ==> r == Ok(Some((Null, s)))
    ensures major < 0x40 ==>
      r == match TryReadInteger(major, s)
           case Err(e) => Err(e)
           case Ok(None) => Ok(None)
           case Ok(Some((i, rest))) => Ok(Some((Integer(i), rest)))
    ensures major / 32 == 2 ==>
      r == match TryReadByteBuf(ext, major, s)
           case Err(e) => Err(e)
           case Ok(None) => Ok(None)
           case Ok(Some((b, rest))) => Ok(Some((Bytes(b), rest)))
    ensures major / 32 == 3 ==>
      r == match TryReadString(ext, major, s)
           case Err(e) => Err(e)
           case Ok(None) => Ok(None)
           case Ok(Some((t, rest))) => Ok(Some((String(t), rest)))
    ensures major == 0xd8 ==>
      var l := ReadLink(ext, s);
      r == if l.Ok? then Ok(Some((Link(l.value.0), l.value.1))) else Err(l.error)
    ensures major == 0xfa || major == 0xfb ==>
      r == match TryReadF64(ext, major, s)
           case Err(e) => Err(e)
           case Ok(None) => Ok(None)
           case Ok(Some((f, rest))) => Ok(Some((Float(f), rest)))
  {
    if major < 0x40 then
      var n :- TryReadInteger(major, s);
      match n
      case Some((n, rest)) => Ok(Some((Integer(n), rest)))
      case None => Ok(None)
    else if major / 32 == 2 then
      var b :- TryReadByteBuf(ext, major, s);
      match b
      case Some((b, rest)) => Ok(Some((Bytes(b), rest)))
      case None => Ok(None)
    else if major / 32 == 3 then
      var t :- TryReadString(ext, major, s);
      match t
      case Some((t, rest)) => Ok(Some((String(t), rest)))
      case None => Ok(None)
    else if major == 0xd8 then
      var (c, rest) :- ReadLink(ext, s);
      Ok(Some((Link(c), rest)))
    else if major == 0xf4 || major == 0xf5 then
      Ok(Some((Bool(major == 0xf5), s)))
    else if major == 0xf6 || major == 0xf7 then
      Ok(Some((Null, s)))
    else if major == 0xfa || major == 0xfb then
      var f :- TryReadF64(ext, major, s);
      match f
      case Some((f, rest)) => Ok(Some((Float(f), rest)))
      case None => Ok(None)
    else Ok(None)
  }

  /** `read::<Ipld>`: one leading byte, then the `Ipld` rule; a leading byte
      the rule declines is `UnexpectedCode`. What is read is valid (its maps
      are key-sorted) and at least one byte is consumed. */
  function ReadValue(ext: Externals, s: seq<byte>): (r: Parsed<Value>)
    ensures r.Ok? ==> |r.value.1| < |s| && SuffixOf(r.value.1, s)
    ensures r.Ok? ==> Valid(r.value.0)
    ensures |s| > 0 && !IpldClaims(s[0]) ==> r == Err(UnexpectedCode)
    ensures |s| == 0 ==> r == Err(Io)
    decreases |s|, 0
  {
    if |s| == 0 then Err(Io)
    else Settle(TryReadValue(ext, s[0], s[1..]))
  }

  /** `TryReadCbor for Ipld`: lists and maps in their own functions,
      everything else in `TryReadLeaf`. */
  function TryReadValue(ext: Externals, major: byte, s: seq<byte>): (r: Claim<Value>)
    ensures r == Ok(None) <==> !IpldClaims(major)
    ensures r.Ok? && r.value.Some? ==> |r.value.value.1| <= |s| && SuffixOf(r.value.value.1, s)
    ensures r.Ok? && r.value.Some? ==> Valid(r.value.value.0)
    decreases |s|, 3
  {
    if major / 32 == 4 then TryReadIpldList(ext, major, s)
    else if major / 32 == 5 then TryReadIpldMap(ext, major, s)
    else TryReadLeaf(ext, major, s)
  }

  /** The list arm of the `Ipld` rule: a length, then that many values. */
  function TryReadIpldList(ext: Externals, major: byte, s: seq<byte>): (r: Claim<Value>)
    requires major / 32 == 4
    ensures r == Ok(None) <==> major % 32 > 27
    ensures r.Ok? && r.value.Some? ==> |r.value.value.1| <= |s| && SuffixOf(r.value.value.1, s)
    ensures r.Ok? && r.value.Some? ==> Valid(r.value.value.0)
    decreases |s|, 2
  {
    var len :- ReadLength(ext, major % 32, s);
    match len
    case None => Ok(None)
    case Some((n, rest)) =>
      var (items, rest') :- ReadList(ext, rest, n);
      ListArmFacts(items, rest', rest, s);
      Ok(Some((List(items), rest')))
  }

  /** The map arm of the `Ipld` rule: a length, then that many pairs read
      into an initially empty map. */
  function TryReadIpldMap(ext: Externals, major: byte, s: seq<byte>): (r: Claim<Value>)
    requires major / 32 == 5
    ensures r == Ok(None) <==> major % 32 > 27
    ensures r.Ok? && r.value.Some? ==> |r.value.value.1| <= |s| && SuffixOf(r.value.value.1, s)
    ensures r.Ok? && r.value.Some? ==> Valid(r.value.value.0)
    decreases |s|, 2
  {
    var len :- ReadLength(ext, major % 32, s);
    match len
    case None => Ok(None)
    case Some((n, rest)) =>
      var (entries, rest') :- ReadMap(ext, rest, n, []);
      MapArmFacts(entries, rest', rest, s);
      Ok(Some((Map(entries), rest')))
  }

  /** `read_list::<Ipld>`: exactly `n` values, one after another. */
  function ReadList(ext: Externals, s: seq<byte>, n: nat): (r: Parsed<seq<Value>>)
    ensures r.Ok? ==> |r.value.0| == n && |r.value.1| <= |s| && SuffixOf(r.value.1, s)
    ensures r.Ok? ==> forall i :: 0 <= i < |r.value.0| ==> Valid(r.value.0[i])
    decreases |s|, 1
  {
    if n == 0 then Ok(([], s))
    else
      var (v, rest) :- ReadValue(ext, s);
      var (vs, rest') :- ReadList(ext, rest, n - 1);
      SuffixOfTransitive(rest', rest, s);
      AllValidCons(v, vs);
      Ok(([v] + vs, rest'))
  }

  /** One pass of the loop of `read_map::<Ipld>`: the key, read as a
      `String`, then its value. */
  function ReadEntry(ext: Externals, s: seq<byte>): (r: Parsed<(Text, Value)>)
    ensures r.Ok? ==> |r.value.1| < |s| && SuffixOf(r.value.1, s)
    ensures r.Ok? ==> Valid(r.value.0.1)
    decreases |s|, 0
  {
    var (k, rest) :- ReadString(ext, s);
    var (v, rest') :- ReadValue(ext, rest);
    SuffixOfTransitive(rest', rest, s);
    Ok(((k, v), rest'))
  }

  /** `read_map::<Ipld>`: `n` key/value pairs, each inserted into the map
      built so far, so that a repeated key keeps its last value. Started
      from a key-sorted map of valid values, it builds one. */
  function ReadMap(ext: Externals, s: seq<byte>, n: nat, acc: seq<(Text, Value)>)
    : (r: Parsed<seq<(Text, Value)>>)
    ensures r.Ok? ==> |r.value.0| <= |acc| + n && |r.value.1| <= |s| && SuffixOf(r.value.1, s)
    ensures r.Ok? && ValidEntries(acc) ==> ValidEntries(r.value.0)
    decreases |s|, 1
  {
    if n == 0 then Ok((acc, s))
    else
      var ((k, v), rest) :- ReadEntry(ext, s);
      InsertKeepsValid(acc, k, v);
      var r := ReadMap(ext, rest, n - 1, Insert(acc, k, v));
      if r.Ok? then
        SuffixOfTransitive(r.value.1, rest, s);
        r
      else r
  }

  /** The entries of a valid map: key-sorted, with valid values. */
  predicate ValidEntries(m: seq<(Text, Value)>) {
    Sorted(m) && forall i :: 0 <= i < |m| ==> Valid(m[i].1)
  }

  /** What the list arm needs from a successful `read_list`: the list of
      valid items is a valid value, and what is left is a suffix of the
      arm's input. */
  lemma ListArmFacts(items: Vec<Value>, rest': seq<byte>, rest: seq<byte>, s: seq<byte>)
    requires forall i :: 0 <= i < |items| ==> Valid(items[i])
    requires SuffixOf(rest', rest) && SuffixOf(rest, s)
    ensures Valid(List(items)) && SuffixOf(rest', s)
  {
    SuffixOfTransitive(rest', rest, s);
  }

  /** What the map arm needs from a successful `read_map`: the map it built
      is a valid value, and what is left is a suffix of the arm's input. */
  lemma MapArmFacts(entries: Vec<(Text, Value)>, rest': seq<byte>, rest: seq<byte>, s: seq<byte>)
    requires ValidEntries([]) ==> ValidEntries(entries)
    requires SuffixOf(rest', rest) && SuffixOf(rest, s)
    ensures Valid(Map(entries)) && SuffixOf(rest', s)
  {
    assert ValidEntries([]);
    SuffixOfTransitive(rest', rest, s);
  }

  lemma InsertKeepsValid(m: seq<(Text, Value)>, k: Text, v: Value)
    requires Valid(v)
    ensures ValidEntries(m) ==> ValidEntries(Insert(m, k, v))
  {
    if ValidEntries(m) {
      InsertSorted(m, k, v);
      InsertKeepsValues(m, k, v, Valid);
    }
  }

  lemma AllValidCons(v: Value, vs: seq<Value>)
    requires Valid(v) && forall i :: 0 <= i < |vs| ==> Valid(vs[i])
    ensures forall i :: 0 <= i < |[v] + vs| ==> Valid(([v] + vs)[i])
  {
    forall i | 0 <= i < |[v] + vs|
      ensures Valid(([v] + vs)[i])
    {
      if i > 0 {
        assert ([v] + vs)[i] == vs[i - 1];
      }
    }
  }

  /** Insertion keeps a property that every stored value has, when the new
      value has it too. */
  lemma InsertKeepsValues<V>(m: seq<(Text, V)>, k: Text, v: V, P: V -> bool)
    requires P(v) && forall i :: 0 <= i < |m| ==> P(m[i].1)
    ensures forall i :: 0 <= i < |Insert(m, k, v)| ==> P(Insert(m, k, v)[i].1)
  {
    if |m| > 0 && m[0].0 != k && !Below(k, m[0].0) {
      InsertKeepsValues(m[1..], k, v, P);
    }
  }
}
