/** The typed readers `read_list::<T>` and `read_map::<T>` of src/decode.rs,
    stated without their recursion: a list is its elements read one after
    another in wire order, the first element that fails ends it, and a map
    is its pairs inserted in order into the accumulator, so a repeated key
    keeps the value of its last occurrence. */
module TypedFacts {
  import opened ByteOrder
  import opened Results
  import opened Utf8
  import opened SortedMap
  import opened Ipld
  import opened ScalarDecode
  import opened IpldDecode
  import opened TypedDecode
  import opened Encode

  /** Reading `n + m` elements is reading `n`, then `m` more from where they
      stopped; an error of either part is the error of the whole. */
  predicate TypedSplitAgree(ext: Externals, elem: Ty, s: seq<byte>, n: nat, m: nat)
    requires n + m < TWO_64
  {
    var whole := ReadTypedList(ext, elem, s, n + m);
    match ReadTypedList(ext, elem, s, n)
    case Err(e) => whole == Err(e)
    case Ok((xs, r)) =>
      match ReadTypedList(ext, elem, r, m)
      case Err(e) => whole == Err(e)
      case Ok((ys, r')) => whole.Ok? && whole.value.0 == xs + ys && whole.value.1 == r'
  }

  lemma TypedListSplit(ext: Externals, elem: Ty, s: seq<byte>, n: nat, m: nat)
    requires n + m < TWO_64
    ensures TypedSplitAgree(ext, elem, s, n, m)
  {
    TypedSplits(ext, elem, s, n, m);
  }

  lemma {:induction false} TypedSplits(ext: Externals, elem: Ty, s: seq<byte>, n: nat, m: nat)
    requires n + m < TWO_64
    ensures TypedSplitAgree(ext, elem, s, n, m)
    decreases n, 1
  {
    if n == 0 {
      TypedSplitNone(ext, elem, s, m);
    } else {
      TypedSplitsAfterFirst(ext, elem, s, n, m);
    }
  }

  lemma {:induction false} TypedSplitsAfterFirst(ext: Externals, elem: Ty, s: seq<byte>, n: nat, m: nat)
    requires 0 < n && n + m < TWO_64
    ensures TypedSplitAgree(ext, elem, s, n, m)
    decreases n, 0
  {
    match ReadTyped(ext, elem, s)
    case Err(_) => TypedSplitFails(ext, elem, s, n, m);
    case Ok((x, r)) =>
      TypedSplits(ext, elem, r, n - 1, m);
      TypedSplitStep(ext, elem, s, n, m, x, r);
  }

  lemma TypedSplitNone(ext: Externals, elem: Ty, s: seq<byte>, m: nat)
    requires m < TWO_64
    ensures TypedSplitAgree(ext, elem, s, 0, m)
  {
    match ReadTypedList(ext, elem, s, m)
    case Err(_) =>
    case Ok((ys, _)) => assert [] + ys == ys;
  }

  lemma TypedSplitFails(ext: Externals, elem: Ty, s: seq<byte>, n: nat, m: nat)
    requires 0 < n && n + m < TWO_64 && ReadTyped(ext, elem, s).Err?
    ensures TypedSplitAgree(ext, elem, s, n, m)
  {
  }

  /** One element in front of a split list. */
  lemma TypedSplitStep(ext: Externals, elem: Ty, s: seq<byte>, n: nat, m: nat, x: Typed, r: seq<byte>)
    requires 0 < n && n + m < TWO_64 && ReadTyped(ext, elem, s) == Ok((x, r))
    requires TypedSplitAgree(ext, elem, r, n - 1, m)
    ensures TypedSplitAgree(ext, elem, s, n, m)
  {
    match ReadTypedList(ext, elem, r, n - 1)
    case Err(e) => TypedStepFirstFails(ext, elem, s, n, m, x, r, e);
    case Ok((xs, r1)) =>
      match ReadTypedList(ext, elem, r1, m)
      case Err(e) => TypedStepSecondFails(ext, elem, s, n, m, x, r, xs, r1, e);
      case Ok((ys, r2)) => TypedStepBoth(ext, elem, s, n, m, x, r, xs, r1, ys, r2);
  }

  lemma TypedStepFirstFails(ext: Externals, elem: Ty, s: seq<byte>, n: nat, m: nat, x: Typed, r: seq<byte>, e: Error)
    requires 0 < n && n + m < TWO_64 && ReadTyped(ext, elem, s) == Ok((x, r))
    requires ReadTypedList(ext, elem, r, n - 1) == Err(e)
    requires ReadTypedList(ext, elem, r, n - 1 + m) == Err(e)
    ensures TypedSplitAgree(ext, elem, s, n, m)
  {
    TypedListConsErr(ext, elem, s, n, x, r, e);
    TypedListConsErr(ext, elem, s, n + m, x, r, e);
  }

  lemma TypedStepSecondFails(ext: Externals, elem: Ty, s: seq<byte>, n: nat, m: nat, x: Typed, r: seq<byte>,
                             xs: seq<Typed>, r1: seq<byte>, e: Error)
    requires 0 < n && n + m < TWO_64 && ReadTyped(ext, elem, s) == Ok((x, r))
    requires ReadTypedList(ext, elem, r, n - 1) == Ok((xs, r1))
    requires ReadTypedList(ext, elem, r1, m) == Err(e)
    requires ReadTypedList(ext, elem, r, n - 1 + m) == Err(e)
    ensures TypedSplitAgree(ext, elem, s, n, m)
  {
    TypedListCons(ext, elem, s, n, x, r, xs, r1);
    TypedListConsErr(ext, elem, s, n + m, x, r, e);
  }

  lemma TypedStepBoth(ext: Externals, elem: Ty, s: seq<byte>, n: nat, m: nat, x: Typed, r: seq<byte>,
                      xs: seq<Typed>, r1: seq<byte>, ys: seq<Typed>, r2: seq<byte>)
    requires 0 < n && n + m < TWO_64 && ReadTyped(ext, elem, s) == Ok((x, r))
    requires ReadTypedList(ext, elem, r, n - 1) == Ok((xs, r1))
    requires ReadTypedList(ext, elem, r1, m) == Ok((ys, r2))
    requires ReadTypedList(ext, elem, r, n - 1 + m) == Ok((xs + ys, r2))
    ensures TypedSplitAgree(ext, elem, s, n, m)
  {
    TypedListCons(ext, elem, s, n, x, r, xs, r1);
    TypedListCons(ext, elem, s, n + m, x, r, xs + ys, r2);
    ConcatAssoc([x], xs, ys);
  }

  /** One element, then the other `n - 1`. */
  lemma TypedListCons(ext: Externals, elem: Ty, s: seq<byte>, n: nat, x: Typed, r1: seq<byte>,
                      xs: seq<Typed>, r2: seq<byte>)
    requires 0 < n < TWO_64
    requires ReadTyped(ext, elem, s) == Ok((x, r1))
    requires ReadTypedList(ext, elem, r1, n - 1) == Ok((xs, r2))
    ensures ReadTypedList(ext, elem, s, n) == Ok(([x] + xs, r2))
  {
  }

  /** One element, then an error among the other `n - 1`. */
  lemma TypedListConsErr(ext: Externals, elem: Ty, s: seq<byte>, n: nat, x: Typed, r1: seq<byte>, e: Error)
    requires 0 < n < TWO_64
    requires ReadTyped(ext, elem, s) == Ok((x, r1))
    requires ReadTypedList(ext, elem, r1, n - 1) == Err(e)
    ensures ReadTypedList(ext, elem, s, n) == Err(e)
  {
  }

  /** The first element that fails to read ends `read_list::<T>` with its
      error. */
  lemma TypedFirstErrorAborts(ext: Externals, elem: Ty, s: seq<byte>, n: nat, k: nat,
                              xs: seq<Typed>, r: seq<byte>, e: Error)
    requires k < n < TWO_64
    requires ReadTypedList(ext, elem, s, k) == Ok((xs, r))
    requires ReadTyped(ext, elem, r) == Err(e)
    ensures ReadTypedList(ext, elem, s, n) == Err(e)
  {
    TypedSplits(ext, elem, s, k, n - k);
  }

  /** `read::<T>` reads `x` from `enc`, whatever follows it. */
  ghost predicate ReadsBack(ext: Externals, elem: Ty, enc: seq<byte>, x: Typed) {
    forall t :: ReadTyped(ext, elem, enc + t) == Ok((x, t))
  }

  /** Elements written one after another, each of which `read::<T>` reads
      back in front of any tail, read back as exactly those elements, in the
      same order, leaving the tail. */
  lemma {:induction false} TypedListRoundTrip(ext: Externals, elem: Ty, encs: seq<seq<byte>>,
                                              xs: Vec<Typed>, tail: seq<byte>)
    requires |xs| == |encs|
    requires forall i :: 0 <= i < |encs| ==> ReadsBack(ext, elem, encs[i], xs[i])
    ensures ReadTypedList(ext, elem, Concat(encs) + tail, |xs|) == Ok((xs, tail))
    decreases |encs|
  {
    var whole := Concat(encs) + tail;
    if |encs| == 0 {
      assert whole == tail && xs == [];
    } else {
      var rest := Concat(encs[1..]) + tail;
      ConcatAssoc(encs[0], Concat(encs[1..]), tail);
      assert whole == encs[0] + rest;
      assert ReadsBack(ext, elem, encs[0], xs[0]);
      assert ReadTyped(ext, elem, whole) == Ok((xs[0], rest));
      assert forall i :: 0 <= i < |encs[1..]| ==> encs[1..][i] == encs[i + 1] && xs[1..][i] == xs[i + 1];
      TypedListRoundTrip(ext, elem, encs[1..], xs[1..], tail);
      TypedListCons(ext, elem, whole, |xs|, xs[0], rest, xs[1..], tail);
      HeadTail(xs);
    }
  }

  /** The `n` key/value pairs of a `BTreeMap<String, T>` body, in the order
      they are written: a `String` key, then a value of type `val`. */
  function ReadTypedPairs(ext: Externals, val: Ty, s: seq<byte>, n: nat): (r: Parsed<seq<(Text, Typed)>>)
    ensures r.Ok? ==> |r.value.0| == n
    decreases n
  {
    if n == 0 then Ok(([], s))
    else
      var (k, rest) :- ReadString(ext, s);
      var (x, rest') :- ReadTyped(ext, val, rest);
      var (ps, rest'') :- ReadTypedPairs(ext, val, rest', n - 1);
      Ok(([(k, x)] + ps, rest''))
  }

  /** The preconditions of `read_map::<T>` on an accumulator. */
  predicate MapStart(val: Ty, n: nat, acc: seq<(Text, Typed)>) {
    |acc| + n < TWO_64 && Sorted(acc) && forall i :: 0 <= i < |acc| ==> HasType(acc[i].1, val)
  }

  /** `read_map::<T>` fails exactly when reading the pairs fails, with the
      same error, and otherwise returns the accumulator with the pairs
      inserted in order, stopping at the same place. */
  predicate TypedAgree(ext: Externals, val: Ty, s: seq<byte>, n: nat, acc: seq<(Text, Typed)>)
    requires MapStart(val, n, acc)
  {
    var whole := ReadTypedMap(ext, val, s, n, acc);
    match ReadTypedPairs(ext, val, s, n)
    case Err(e) => whole == Err(e)
    case Ok((ps, r)) => whole.Ok? && whole.value.0 == InsertAll(acc, ps) && whole.value.1 == r
  }

  lemma TypedMapInsertsPairs(ext: Externals, val: Ty, s: seq<byte>, n: nat, acc: seq<(Text, Typed)>)
    requires MapStart(val, n, acc)
    ensures TypedAgree(ext, val, s, n, acc)
  {
    TypedAgrees(ext, val, s, n, acc);
  }

  lemma {:induction false} TypedAgrees(ext: Externals, val: Ty, s: seq<byte>, n: nat, acc: seq<(Text, Typed)>)
    requires MapStart(val, n, acc)
    ensures TypedAgree(ext, val, s, n, acc)
    decreases n, 1
  {
    if n > 0 && ReadString(ext, s).Ok? && ReadTyped(ext, val, ReadString(ext, s).value.1).Ok? {
      var (k, r1) := ReadString(ext, s).value;
      var (x, r2) := ReadTyped(ext, val, r1).value;
      TypedAgreesStep(ext, val, s, n, acc, k, r1, x, r2);
    } else {
      TypedMapStops(ext, val, s, n, acc);
    }
  }

  lemma {:induction false} TypedAgreesStep(ext: Externals, val: Ty, s: seq<byte>, n: nat,
                                           acc: seq<(Text, Typed)>, k: Text, r1: seq<byte>,
                                           x: Typed, r2: seq<byte>)
    requires 0 < n && MapStart(val, n, acc)
    requires ReadString(ext, s) == Ok((k, r1)) && ReadTyped(ext, val, r1) == Ok((x, r2))
    ensures TypedAgree(ext, val, s, n, acc)
    decreases n, 0
  {
    InsertSorted(acc, k, x);
    InsertKeepsValues(acc, k, x, (y: Typed) => HasType(y, val));
    TypedAgrees(ext, val, r2, n - 1, Insert(acc, k, x));
    TypedStep(ext, val, s, n, acc, k, r1, x, r2);
  }

  /** Where `read_map::<T>` stops early, reading the pairs stops with it. */
  lemma TypedMapStops(ext: Externals, val: Ty, s: seq<byte>, n: nat, acc: seq<(Text, Typed)>)
    requires MapStart(val, n, acc)
    requires !(n > 0 && ReadString(ext, s).Ok? && ReadTyped(ext, val, ReadString(ext, s).value.1).Ok?)
    ensures TypedAgree(ext, val, s, n, acc)
  {
  }

  /** One step of `read_map::<T>` and of `ReadTypedPairs` once a key and a
      value have been read. */
  lemma TypedStep(ext: Externals, val: Ty, s: seq<byte>, n: nat, acc: seq<(Text, Typed)>,
                  k: Text, r1: seq<byte>, x: Typed, r2: seq<byte>)
    requires 0 < n && MapStart(val, n, acc) && MapStart(val, n - 1, Insert(acc, k, x))
    requires ReadString(ext, s) == Ok((k, r1)) && ReadTyped(ext, val, r1) == Ok((x, r2))
    ensures TypedAgree(ext, val, r2, n - 1, Insert(acc, k, x)) ==> TypedAgree(ext, val, s, n, acc)
  {
    TypedMapCons(ext, val, s, n, acc, k, r1, x, r2);
    TypedPairsCons(ext, val, s, n, k, r1, x, r2);
    var p := ReadTypedPairs(ext, val, r2, n - 1);
    if p.Ok? {
      TailOfCons((k, x), p.value.0);
    }
  }

  /** `read_map::<T>` after one pair is `read_map::<T>` of the rest into the
      accumulator with that pair inserted. */
  lemma TypedMapCons(ext: Externals, val: Ty, s: seq<byte>, n: nat, acc: seq<(Text, Typed)>,
                     k: Text, r1: seq<byte>, x: Typed, r2: seq<byte>)
    requires 0 < n && MapStart(val, n, acc) && MapStart(val, n - 1, Insert(acc, k, x))
    requires ReadString(ext, s) == Ok((k, r1)) && ReadTyped(ext, val, r1) == Ok((x, r2))
    ensures ReadTypedMap(ext, val, s, n, acc) == ReadTypedMap(ext, val, r2, n - 1, Insert(acc, k, x))
  {
  }

  /** `ReadTypedPairs` after one pair is that pair in front of the rest. */
  lemma TypedPairsCons(ext: Externals, val: Ty, s: seq<byte>, n: nat,
                       k: Text, r1: seq<byte>, x: Typed, r2: seq<byte>)
    requires 0 < n
    requires ReadString(ext, s) == Ok((k, r1)) && ReadTyped(ext, val, r1) == Ok((x, r2))
    ensures ReadTypedPairs(ext, val, s, n) == match ReadTypedPairs(ext, val, r2, n - 1)
                                             case Err(e) => Err(e)
                                             case Ok((ps, r)) => Ok(([(k, x)] + ps, r))
  {
  }

  /** Last write wins for `BTreeMap<String, T>`: a key has the value of its
      last pair in the body, and a key that is not among them is absent. */
  lemma TypedReadMapLastWins(ext: Externals, val: Ty, s: seq<byte>, n: nat,
                             m: seq<(Text, Typed)>, rest: seq<byte>, k: Text)
    requires n < TWO_64
    requires ReadTypedMap(ext, val, s, n, []) == Ok((m, rest))
    ensures ReadTypedPairs(ext, val, s, n).Ok?
    ensures Lookup(m, k) == LastValue(ReadTypedPairs(ext, val, s, n).value.0, k)
  {
    TypedAgrees(ext, val, s, n, []);
    InsertAllLookup([], ReadTypedPairs(ext, val, s, n).value.0, k);
  }
}
