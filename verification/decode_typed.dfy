/** The typed decoders of src/decode.rs. Rust picks a `TryReadCbor` impl by
    the static type; here the type is a descriptor `Ty`, and one family of
    functions decodes any of them, so that `Option<T>`, `Vec<T>` and
    `BTreeMap<String, T>` can nest to any depth like their Rust generics. */
module TypedDecode {
  import opened ByteOrder
  import opened Results
  import opened Utf8
  import opened SortedMap
  import opened Ipld
  import opened Reader
  import opened ScalarDecode
  import opened IpldDecode

  /** The types with a `TryReadCbor` impl. */
  datatype Ty =
    | BoolT
    | UintT(uw: IntSize)
    | IntT(iw: IntSize)
    | F32T
    | F64T
    | StringT
    | BytesT
    | CidT
    | OptionT(inner: Ty)
    | VecT(elem: Ty)
    | MapT(val: Ty)
    | IpldT

  /** A decoded value of one of those types. */
  datatype Typed =
    | TBool(b: bool)
    | TUint(n: nat)
    | TInt(i: int)
    | TF32(f32: F32)
    | TF64(f64: F64)
    | TString(text: Text)
    | TBytes(bytes: Vec<byte>)
    | TCid(cid: Cid)
    | TNone
    | TSome(some: Typed)
    | TVec(items: Vec<Typed>)
    | TMap(entries: Vec<(Text, Typed)>)
    | TIpld(value: Value)

  /** `x` is a value of the Rust type `ty`: integers within their width,
      maps key-sorted, generic values valid. */
  predicate HasType(x: Typed, ty: Ty) {
    match ty
    case BoolT => x.TBool?
    case UintT(w) => x.TUint? && x.n < Pow256(w)
    case IntT(w) => x.TInt? && -(Pow256(w) / 2) <= x.i < Pow256(w) / 2
    case F32T => x.TF32?
    case F64T => x.TF64?
    case StringT => x.TString?
    case BytesT => x.TBytes?
    case CidT => x.TCid?
    case OptionT(inner) => x.TNone? || (x.TSome? && HasType(x.some, inner))
    case VecT(elem) =>
      x.TVec? && forall i :: 0 <= i < |x.items| ==> HasType(x.items[i], elem)
    case MapT(val) =>
      && x.TMap? && Sorted(x.entries)
      && forall i :: 0 <= i < |x.entries| ==> HasType(x.entries[i].1, val)
    case IpldT => x.TIpld? && Valid(x.value)
  }

  /** The leading bytes the impl for `ty` claims. `Option<T>` claims null and
      undefined on top of what `T` claims. */
  predicate Claims(ty: Ty, major: byte) {
    match ty
    case BoolT => major == 0xf4 || major == 0xf5
    case UintT(w) => major <= MaxCode(w)
    case IntT(w) => 0x20 <= major <= 0x20 + MaxCode(w)
    case F32T => major == 0xfa
    case F64T => major == 0xfa || major == 0xfb
    case StringT => 0x60 <= major <= 0x7b
    case BytesT => 0x40 <= major <= 0x5b
    case CidT => major == 0xd8
    case OptionT(inner) => major == 0xf6 || major == 0xf7 || Claims(inner, major)
    case VecT(_) => 0x80 <= major <= 0x9b
    case MapT(_) => 0xa0 <= major <= 0xbb
    case IpldT => IpldClaims(major)
  }

  /** Lifts a claim into `Typed`. */
  function Wrap<T>(c: Claim<T>, f: T -> Typed): (r: Claim<Typed>)
    ensures r.Err? <==> c.Err?
    ensures r.Err? ==> r.error == c.error
    ensures r == Ok(None) <==> c == Ok(None)
    ensures r.Ok? && r.value.Some? ==> r.value.value == (f(c.value.value.0), c.value.value.1)
  {
    match c
    case Err(e) => Err(e)
    case Ok(None) => Ok(None)
    case Ok(Some((x, rest))) => Ok(Some((f(x), rest)))
  }

  /** `read::<T>` for the type `ty`. */
  function ReadTyped(ext: Externals, ty: Ty, s: seq<byte>): (r: Parsed<Typed>)
    ensures r.Ok? ==> |r.value.1| < |s| && SuffixOf(r.value.1, s)
    ensures r.Ok? ==> HasType(r.value.0, ty)
    ensures |s| > 0 && !Claims(ty, s[0]) ==> r == Err(UnexpectedCode)
    ensures |s| == 0 ==> r == Err(Io)
    decreases |s|, 0, ty
  {
    if |s| == 0 then Err(Io)
    else Settle(TryReadTyped(ext, ty, s[0], s[1..]))
  }

  /** `T::try_read_cbor` for the type `ty`: declines exactly the leading
      bytes `ty` does not claim, and what it reads has type `ty`. */
  function TryReadTyped(ext: Externals, ty: Ty, major: byte, s: seq<byte>): (r: Claim<Typed>)
    ensures r == Ok(None) <==> !Claims(ty, major)
    ensures r.Ok? && r.value.Some? ==> SuffixOf(r.value.value.1, s)
    ensures r.Ok? && r.value.Some? ==> HasType(r.value.value.0, ty)
    decreases |s|, 3, ty
  {
    match ty
    case BoolT => Wrap(TryReadBool(major, s), (b: bool) => TBool(b))
    case UintT(w) => Wrap(TryReadUnsigned(w, major, s), (n: nat) => TUint(n))
    case IntT(w) => Wrap(TryReadSigned(w, major, s), (i: int) => TInt(i))
    case F32T => Wrap(TryReadF32(major, s), (f: F32) => TF32(f))
    case F64T => Wrap(TryReadF64(ext, major, s), (f: F64) => TF64(f))
    case StringT => Wrap(TryReadString(ext, major, s), (t: Text) => TString(t))
    case BytesT => Wrap(TryReadByteBuf(ext, major, s), (b: Vec<byte>) => TBytes(b))
    case CidT => Wrap(TryReadCid(ext, major, s), (c: Cid) => TCid(c))
    case IpldT => Wrap(TryReadValue(ext, major, s), (v: Value) => TIpld(v))
    case OptionT(inner) =>
      if major == 0xf6 || major == 0xf7 then Ok(Some((TNone, s)))
      else Wrap(TryReadTyped(ext, inner, major, s), (x: Typed) => TSome(x))
    case VecT(elem) => if major / 32 != 4 then Ok(None) else TryReadTypedVec(ext, elem, major, s)
    case MapT(val) => if major / 32 != 5 then Ok(None) else TryReadTypedMap(ext, val, major, s)
  }

  /** `Vec<T>::try_read_cbor` after the major type check: a length, then
      that many values of type `elem`. */
  function TryReadTypedVec(ext: Externals, elem: Ty, major: byte, s: seq<byte>): (r: Claim<Typed>)
    requires major / 32 == 4
    ensures r == Ok(None) <==> major % 32 > 27
    ensures r.Ok? && r.value.Some? ==> SuffixOf(r.value.value.1, s)
    ensures r.Ok? && r.value.Some? ==> HasType(r.value.value.0, VecT(elem))
    decreases |s|, 2, VecT(elem)
  {
    var len :- ReadLength(ext, major % 32, s);
    if len.None? then Ok(None)
    else
      var (n, rest) := len.value;
      var (items, rest') :- ReadTypedList(ext, elem, rest, n);
      SuffixOfTransitive(rest', rest, s);
      Ok(Some((TVec(items), rest')))
  }

  /** `BTreeMap<String, T>::try_read_cbor` after the major type check: a
      length, then that many pairs read into an initially empty map. */
  function TryReadTypedMap(ext: Externals, val: Ty, major: byte, s: seq<byte>): (r: Claim<Typed>)
    requires major / 32 == 5
    ensures r == Ok(None) <==> major % 32 > 27
    ensures r.Ok? && r.value.Some? ==> SuffixOf(r.value.value.1, s)
    ensures r.Ok? && r.value.Some? ==> HasType(r.value.value.0, MapT(val))
    decreases |s|, 2, MapT(val)
  {
    var len :- ReadLength(ext, major % 32, s);
    if len.None? then Ok(None)
    else
      var (n, rest) := len.value;
      var (entries, rest') :- ReadTypedMap(ext, val, rest, n, []);
      SuffixOfTransitive(rest', rest, s);
      Ok(Some((TMap(entries), rest')))
  }

  /** `read_list::<T>`: exactly `n` values of type `elem`. */
  function ReadTypedList(ext: Externals, elem: Ty, s: seq<byte>, n: nat): (r: Parsed<Vec<Typed>>)
    requires n < TWO_64
    ensures r.Ok? ==> |r.value.0| == n && SuffixOf(r.value.1, s)
    ensures r.Ok? ==> forall i :: 0 <= i < |r.value.0| ==> HasType(r.value.0[i], elem)
    decreases |s|, 1, elem
  {
    if n == 0 then Ok(([], s))
    else
      var (x, rest) :- ReadTyped(ext, elem, s);
      var (xs, rest') :- ReadTypedList(ext, elem, rest, n - 1);
      SuffixOfTransitive(rest', rest, s);
      AllTypedCons(x, xs, elem);
      Ok(([x] + xs, rest'))
  }

  /** `read_map::<T>`: `n` pairs of a `String` key and a value of type
      `val`, inserted in order so a repeated key keeps its last value. */
  function ReadTypedMap(ext: Externals, val: Ty, s: seq<byte>, n: nat, acc: Vec<(Text, Typed)>)
    : (r: Parsed<Vec<(Text, Typed)>>)
    requires |acc| + n < TWO_64
    requires Sorted(acc) && forall i :: 0 <= i < |acc| ==> HasType(acc[i].1, val)
    ensures r.Ok? ==> |r.value.0| <= |acc| + n && SuffixOf(r.value.1, s)
    ensures r.Ok? ==> Sorted(r.value.0) && forall i :: 0 <= i < |r.value.0| ==> HasType(r.value.0[i].1, val)
    decreases |s|, 1, val
  {
    if n == 0 then Ok((acc, s))
    else
      var (k, rest) :- ReadString(ext, s);
      var (x, rest') :- ReadTyped(ext, val, rest);
      InsertSorted(acc, k, x);
      InsertKeepsValues(acc, k, x, (y: Typed) => HasType(y, val));
      var r := ReadTypedMap(ext, val, rest', n - 1, Insert(acc, k, x));
      if r.Ok? then
        SuffixOfTransitive(r.value.1, rest', rest);
        SuffixOfTransitive(r.value.1, rest, s);
        r
      else r
  }

  lemma AllTypedCons(x: Typed, xs: seq<Typed>, ty: Ty)
    requires HasType(x, ty) && forall i :: 0 <= i < |xs| ==> HasType(xs[i], ty)
    ensures forall i :: 0 <= i < |[x] + xs| ==> HasType(([x] + xs)[i], ty)
  {
    forall i | 0 <= i < |[x] + xs|
      ensures HasType(([x] + xs)[i], ty)
    {
      if i > 0 {
        assert ([x] + xs)[i] == xs[i - 1];
      }
    }
  }
}
