/** What `read_map` builds, stated without its accumulator: the pairs of a
    map body are read one after another, and the map is what inserting them
    in order into the accumulator gives. A repeated key therefore keeps the
    value of its last occurrence. */
module MapDecode {
  import opened ByteOrder
  import opened Results
  import opened Utf8
  import opened SortedMap
  import opened Ipld
  import opened ScalarDecode
  import opened IpldDecode

  /** The `n` key/value pairs of a map body, in the order they are written. */
  function ReadPairs(ext: Externals, s: seq<byte>, n: nat): (r: Parsed<seq<(Text, Value)>>)
    ensures r.Ok? ==> |r.value.0| == n && SuffixOf(r.value.1, s)
    ensures r.Ok? ==> forall i :: 0 <= i < |r.value.0| ==> Valid(r.value.0[i].1)
    decreases n
  {
    if n == 0 then Ok(([], s))
    else
      var ((k, v), rest) :- ReadEntry(ext, s);
      var (ps, rest') :- ReadPairs(ext, rest, n - 1);
      SuffixOfTransitive(rest', rest, s);
      PairValidCons(k, v, ps);
      Ok(([(k, v)] + ps, rest'))
  }

  /** Inserts the pairs read, in order, into `acc`; an error passes through. */
  function InsertPairs(acc: seq<(Text, Value)>, p: Parsed<seq<(Text, Value)>>): Parsed<seq<(Text, Value)>>
  {
    match p
    case Err(e) => Err(e)
    case Ok((ps, rest)) => Ok((InsertAll(acc, ps), rest))
  }

  lemma PairValidCons(k: Text, v: Value, ps: seq<(Text, Value)>)
    requires Valid(v) && forall i :: 0 <= i < |ps| ==> Valid(ps[i].1)
    ensures forall i :: 0 <= i < |[(k, v)] + ps| ==> Valid(([(k, v)] + ps)[i].1)
  {
    forall i | 0 <= i < |[(k, v)] + ps|
      ensures Valid(([(k, v)] + ps)[i].1)
    {
      if i > 0 {
        assert ([(k, v)] + ps)[i] == ps[i - 1];
      }
    }
  }

  /** `read_map` fails exactly when reading the pairs fails, with the same
      error, and otherwise returns the accumulator with the pairs inserted in
      order, stopping at the same place. */
  predicate Agree(ext: Externals, s: seq<byte>, n: nat, acc: seq<(Text, Value)>) {
    ReadMap(ext, s, n, acc) == InsertPairs(acc, ReadPairs(ext, s, n))
  }

  lemma ReadMapInsertsPairs(ext: Externals, s: seq<byte>, n: nat, acc: seq<(Text, Value)>)
    ensures ReadMap(ext, s, n, acc) == InsertPairs(acc, ReadPairs(ext, s, n))
  {
    Agrees(ext, s, n, acc);
  }

  lemma {:induction false} Agrees(ext: Externals, s: seq<byte>, n: nat, acc: seq<(Text, Value)>)
    ensures Agree(ext, s, n, acc)
    decreases n, 1
  {
    if n > 0 && ReadEntry(ext, s).Ok? {
      var ((k, v), r) := ReadEntry(ext, s).value;
      AgreesStep(ext, s, n, acc, k, v, r);
    } else {
      MapStops(ext, s, n, acc);
    }
  }

  lemma {:induction false} AgreesStep(ext: Externals, s: seq<byte>, n: nat, acc: seq<(Text, Value)>,
                                      k: Text, v: Value, r: seq<byte>)
    requires 0 < n && ReadEntry(ext, s) == Ok(((k, v), r))
    ensures Agree(ext, s, n, acc)
    decreases n, 0
  {
    Agrees(ext, r, n - 1, Insert(acc, k, v));
    Step(ext, s, n, acc, k, v, r);
  }

  /** Where `read_map` stops early, reading the pairs stops with it. */
  lemma MapStops(ext: Externals, s: seq<byte>, n: nat, acc: seq<(Text, Value)>)
    requires !(n > 0 && ReadEntry(ext, s).Ok?)
    ensures Agree(ext, s, n, acc)
  {
  }

  /** One step of `read_map` and of `ReadPairs` once a key and a value have
      been read. */
  lemma Step(ext: Externals, s: seq<byte>, n: nat, acc: seq<(Text, Value)>,
             k: Text, v: Value, r: seq<byte>)
    requires 0 < n && ReadEntry(ext, s) == Ok(((k, v), r))
    ensures Agree(ext, r, n - 1, Insert(acc, k, v)) ==> Agree(ext, s, n, acc)
  {
    var p := ReadPairs(ext, r, n - 1);
    if p.Ok? {
      TailOfCons((k, v), p.value.0);
    }
  }

  /** Last write wins: in a map read from a body whose pairs are `ps`, a key
      has the value of its last pair in `ps`, and a key that is not among
      them is absent. */
  lemma ReadMapLastWins(ext: Externals, s: seq<byte>, n: nat, m: seq<(Text, Value)>,
                        rest: seq<byte>, k: Text)
    requires ReadMap(ext, s, n, []) == Ok((m, rest))
    ensures ReadPairs(ext, s, n).Ok?
    ensures Lookup(m, k) == LastValue(ReadPairs(ext, s, n).value.0, k)
  {
    ReadMapInsertsPairs(ext, s, n, []);
    InsertAllLookup([], ReadPairs(ext, s, n).value.0, k);
  }
}
