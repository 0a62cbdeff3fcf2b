/**
 * Splitting a sequence into consecutive pieces of a fixed size, the last one possibly
 * shorter: the batches of dumpUsersToPostgres and the pages of loadUsersToRedis.
 */
module Batching {

  /** `s` cut into pieces of `k` elements, front to back, the last piece holding the rest. */
  function Chunks<T>(s: seq<T>, k: nat): seq<seq<T>>
    requires k > 0
    decreases |s|
  {
    if |s| == 0 then [] else if |s| <= k then [s] else [s[..k]] + Chunks(s[k..], k)
  }

  /** The pieces, glued back together. */
  function Flatten<T>(ss: seq<seq<T>>): seq<T> {
    if ss == [] then [] else ss[0] + Flatten(ss[1..])
  }

  /** Every piece but the last has exactly `k` elements; the last has between 1 and `k`. */
  ghost predicate WellChunked<T>(ss: seq<seq<T>>, k: nat) {
    && (forall i :: 0 <= i < |ss| - 1 ==> |ss[i]| == k)
    && (ss != [] ==> 0 < |ss[|ss| - 1]| <= k)
  }

  /** Growing a slice by one element at its end. */
  lemma SliceExtend<T>(s: seq<T>, lo: nat, hi: nat)
    requires lo <= hi < |s|
    ensures s[lo..hi + 1] == s[lo..hi] + [s[hi]]
  {
  }

  lemma {:induction false} FlattenAppend<T>(ss: seq<seq<T>>, t: seq<T>)
    ensures Flatten(ss + [t]) == Flatten(ss) + t
  {
    if ss == [] {
      assert ss + [t] == [t];
    } else {
      assert (ss + [t])[1..] == ss[1..] + [t];
      FlattenAppend(ss[1..], t);
    }
  }

  /** The pieces concatenate back to the input, in order. */
  lemma {:induction false} FlattenChunks<T>(s: seq<T>, k: nat)
    requires k > 0
    ensures Flatten(Chunks(s, k)) == s
    decreases |s|
  {
    if |s| > k {
      FlattenChunks(s[k..], k);
      assert ([s[..k]] + Chunks(s[k..], k))[1..] == Chunks(s[k..], k);
      assert s[..k] + s[k..] == s;
    } else if |s| > 0 {
      assert [s][1..] == [];
    }
  }

  /** All pieces are full except the last, which is non-empty. */
  lemma {:induction false} ChunksWellChunked<T>(s: seq<T>, k: nat)
    requires k > 0
    ensures WellChunked(Chunks(s, k), k)
    decreases |s|
  {
    if |s| > k {
      ChunksWellChunked(s[k..], k);
      var rest := Chunks(s[k..], k);
      assert |s[k..]| > 0;
      assert rest != [];
    }
  }

  /**
   * The chunking is the only way to cut `s` into full pieces plus one shorter non-empty
   * tail: any well-chunked split that glues back to `s` is `Chunks(s, k)`.
   */
  lemma {:induction false} ChunksUnique<T>(ss: seq<seq<T>>, s: seq<T>, k: nat)
    requires k > 0 && WellChunked(ss, k) && Flatten(ss) == s
    ensures ss == Chunks(s, k)
    decreases |ss|
  {
    if ss == [] {
    } else if |ss| == 1 {
      assert Flatten(ss) == ss[0] + Flatten(ss[1..]);
      assert ss[1..] == [];
      assert s == ss[0];
    } else {
      var rest := ss[1..];
      assert |ss[0]| == k;
      assert WellChunked(rest, k) by {
        forall i | 0 <= i < |rest| - 1 ensures |rest[i]| == k {
          assert rest[i] == ss[i + 1];
        }
        assert rest[|rest| - 1] == ss[|ss| - 1];
      }
      var t := Flatten(rest);
      ChunksUnique(rest, t, k);
      assert t == rest[0] + Flatten(rest[1..]);
      assert |rest[0]| > 0 by {
        if |rest| > 1 {
          assert |rest[0]| == k;
        }
      }
      assert s == ss[0] + t;
      assert |s| > k;
      assert s[..k] == ss[0] && s[k..] == t;
      assert Chunks(s, k) == [s[..k]] + Chunks(s[k..], k);
      assert ss == [ss[0]] + rest;
    }
  }

  /**
   * Counting `k` elements per piece overshoots |s| by exactly what the last piece lacks
   * of `k`: less than `k`, and nothing when the last piece is full.
   */
  lemma {:induction false} ChunksCount<T>(s: seq<T>, k: nat)
    requires k > 0
    ensures var cs := Chunks(s, k);
      k * |cs| - |s| == (if cs == [] then 0 else k - |cs[|cs| - 1]|)
    ensures |s| <= k * |Chunks(s, k)| < |s| + k
    decreases |s|
  {
    if |s| > k {
      ChunksCount(s[k..], k);
      var rest := Chunks(s[k..], k);
      var m := |rest|;
      assert Chunks(s, k) == [s[..k]] + rest;
      assert k * (m + 1) == k * m + k;
      assert rest != [];
      assert Chunks(s, k)[m] == rest[m - 1];
    }
  }
}
