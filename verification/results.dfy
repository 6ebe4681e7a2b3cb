/** The codec's error kinds and the result shapes every reader returns. */
module Results {
  import opened ByteOrder

  /** The error kinds of the codec's `Error` type that the core produces. */
  datatype Error =
    | Io                          // a short read: the source ran out of bytes
    | Utf8                        // a text string that is not well-formed UTF-8
    | LengthOutOfRange            // a length that does not fit `usize`, or a zero link length
    | NumberOutOfRange            // an integer outside [-2^64, 2^64-1] at encode time
    | UnexpectedCode              // a leading byte the requested type declines
    | UnknownTag                  // a link whose tag or byte-string code is not the expected one
    | InvalidCidPrefix(prefix: byte) // a link payload whose first byte is not 0x00
    | CidParse                    // the CID collaborator rejected the link payload
    | UnexpectedKey               // a fixed-schema key that does not match

  datatype Option<+T> = None | Some(value: T)

  /** Success with a value, or one of the error kinds above. Usable with `:-`. */
  datatype Result<+T> = Ok(value: T) | Err(error: Error) {
    predicate IsFailure() {
      Err?
    }

    function PropagateFailure<U>(): Result<U>
      requires Err?
    {
      Err(error)
    }

    function Extract(): T
      requires Ok?
    {
      value
    }
  }

  /** A reader's outcome: an error, or a value with the input left after it. */
  type Parsed<T> = Result<(T, seq<byte>)>

  /** A decode rule's outcome (`Result<Option<T>>` in the source): an error,
      a decline (`Ok(None)`: the leading byte is not one this type handles),
      or a claimed value with the input left after it. */
  type Claim<T> = Result<Option<(T, seq<byte>)>>

  /** The generic `read` of the source: a decline becomes `UnexpectedCode`. */
  function Settle<T>(c: Claim<T>): (r: Parsed<T>)
    ensures c == Ok(None) ==> r == Err(UnexpectedCode)
    ensures c.Err? ==> r == Err(c.error)
    ensures c.Ok? && c.value.Some? ==> r == Ok(c.value.value)
  {
    match c
    case Err(e) => Err(e)
    case Ok(None) => Err(UnexpectedCode)
    case Ok(Some(p)) => Ok(p)
  }

  /** `rest` is what is left of `s` after a reader consumed a prefix. */
  predicate SuffixOf(rest: seq<byte>, s: seq<byte>) {
    |rest| <= |s| && DropsTo(s, rest)
  }

  /** `rest` is reached from `s` by dropping leading bytes one at a time. */
  predicate DropsTo(s: seq<byte>, rest: seq<byte>)
    decreases |s|
  {
    s == rest || (|s| > 0 && DropsTo(s[1..], rest))
  }

  lemma {:induction false} SuffixOfConcat(p: seq<byte>, rest: seq<byte>)
    ensures SuffixOf(rest, p + rest)
    decreases |p|
  {
    if p == [] {
      assert p + rest == rest;
    } else {
      assert (p + rest)[1..] == p[1..] + rest;
      SuffixOfConcat(p[1..], rest);
    }
  }

  /** The leading byte of `h + body` and what follows it. */
  lemma SplitLead(h: seq<byte>, body: seq<byte>)
    requires |h| > 0
    ensures (h + body)[0] == h[0] && (h + body)[1..] == h[1..] + body
    ensures h + body == [h[0]] + (h[1..] + body)
  {
    assert h == [h[0]] + h[1..];
  }

  /** A prefix of `s` is its first byte followed by a prefix of the rest. */
  lemma PrefixLead(s: seq<byte>, k: nat)
    requires 0 < k <= |s|
    ensures s[..k] == [s[0]] + s[1..][..k - 1]
  {
  }

  /** Concatenation is associative; stated once so that proofs over the
      decoder need not re-derive it by extensionality. */
  lemma ConcatAssoc<T>(a: seq<T>, b: seq<T>, c: seq<T>)
    ensures (a + b) + c == a + (b + c)
  {
  }

  /** The two halves of a concatenation. */
  lemma SplitAt<T>(a: seq<T>, b: seq<T>)
    ensures (a + b)[..|a|] == a && (a + b)[|a|..] == b
  {
  }

  /** A non-empty sequence is its head followed by its tail. */
  lemma HeadTail<T>(s: seq<T>)
    requires |s| > 0
    ensures [s[0]] + s[1..] == s
  {
  }

  lemma TailOfCons<T>(x: T, s: seq<T>)
    ensures ([x] + s)[1..] == s && ([x] + s)[0] == x
  {
  }

  lemma ConcatEmpty<T>(s: seq<T>)
    ensures [] + s == s && s + [] == s
  {
  }

  lemma {:induction false} SuffixOfTransitive(a: seq<byte>, b: seq<byte>, c: seq<byte>)
    requires SuffixOf(a, b) && SuffixOf(b, c)
    ensures SuffixOf(a, c)
    decreases |c|
  {
    if b != c {
      DropsToShorter(c[1..], b);
      SuffixOfTransitive(a, b, c[1..]);
    }
  }

  lemma {:induction false} DropsToShorter(s: seq<byte>, rest: seq<byte>)
    requires DropsTo(s, rest)
    ensures |rest| <= |s|
    decreases |s|
  {
    if s != rest {
      DropsToShorter(s[1..], rest);
    }
  }
}
