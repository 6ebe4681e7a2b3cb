/** Properties of the width cascade `write_u8`..`write_u64` against the
    decoder's argument reader: what the encoder writes reads back, and it is
    the shortest, and the only shortest, header the decoder accepts. */
module Headers {
  import opened ByteOrder
  import opened Results
  import opened Ipld
  import opened Reader
  import opened Encode

  /** A shortest header followed by anything reads back as its argument, and
      the argument reader stops exactly at the end of the header. */
  lemma ShortestHeaderReads(r: seq<byte>, major: Major, v: nat, tail: seq<byte>)
    requires IsShortestHeader(r, major, v)
    ensures ReadArgument(r[0] % 32, 27, r[1..] + tail) == Ok(Some((v, tail)))
  {
    if v > 23 {
      var w := ArgumentWidth(r[0] % 32);
      var s := r[1..] + tail;
      assert s[..w] == r[1..];
      assert s[w..] == tail;
      assert ReadUint(s, w) == Ok((v, tail));
    } else {
      assert r[1..] + tail == tail;
    }
  }

  /** The same, through the length reader, when the length fits `usize`. */
  lemma ShortestHeaderLength(ext: Externals, r: seq<byte>, major: Major, v: nat, tail: seq<byte>)
    requires IsShortestHeader(r, major, v) && v <= ext.usizeMax
    ensures ReadLength(ext, r[0] % 32, r[1..] + tail) == Ok(Some((v, tail)))
  {
    ShortestHeaderReads(r, major, v, tail);
  }

  /** The canonical header of a major type and argument is unique; in
      particular `write_u8`, `write_u16` and `write_u32` write what
      `write_u64` writes for every value they accept. */
  lemma ShortestHeaderUnique(r1: seq<byte>, r2: seq<byte>, major: Major, v: nat)
    requires IsShortestHeader(r1, major, v) && IsShortestHeader(r2, major, v)
    ensures r1 == r2
  {
    assert r1[0] == r2[0] by {
      assert r1[0] == 32 * (r1[0] / 32) + r1[0] % 32;
      assert r2[0] == 32 * (r2[0] / 32) + r2[0] % 32;
      if v > 23 {
        assert ArgumentWidth(r1[0] % 32) == ArgumentWidth(r2[0] % 32);
      }
    }
    if v > 23 {
      ToBEFromBE(r1[1..]);
      ToBEFromBE(r2[1..]);
      assert r1 == [r1[0]] + r1[1..];
      assert r2 == [r2[0]] + r2[1..];
    }
  }

  lemma CascadeAgrees(w: IntSize, major: Major, v: nat)
    requires v < Pow256(w)
    ensures WriteUint(w, major, v) == WriteU64(major, v)
  {
    Pow256Widths();
    ShortestHeaderUnique(WriteUint(w, major, v), WriteU64(major, v), major, v);
  }

  /** Minimality: for every leading byte `Lead(major, ai)` and argument bytes
      the decoder accepts as the value `v`, the header `write_u64` emits for
      `v` is no longer; when it is as long, it is the same bytes. A width is
      used only when the next smaller one cannot hold the value. */
  lemma HeaderMinimal(major: Major, ai: nat, s: seq<byte>, v: nat, rest: seq<byte>)
    requires ai < 32
    requires ReadArgument(ai, 27, s) == Ok(Some((v, rest)))
    ensures v < TWO_64
    ensures |WriteU64(major, v)| <= 1 + |s| - |rest|
    ensures |WriteU64(major, v)| == 1 + |s| - |rest| ==>
      WriteU64(major, v) == [Lead(major, ai)] + s[..|s| - |rest|]
  {
    ArgumentBounds(ai, 27, s);
    Pow256Widths();
    var r := WriteU64(major, v);
    if ai > 23 {
      var w := ArgumentWidth(ai);
      assert s[..w] == ToBE(v, w);
      if |r| == 1 + w {
        assert v > 23;
        assert r[0] % 32 == ai by {
          assert ArgumentWidth(r[0] % 32) == w;
        }
        assert r[0] == Lead(major, ai) by {
          assert r[0] == 32 * (r[0] / 32) + r[0] % 32;
        }
        ToBEFromBE(r[1..]);
        assert r == [r[0]] + r[1..];
      }
    } else {
      assert r[0] == 32 * (r[0] / 32) + r[0] % 32;
    }
  }
}
