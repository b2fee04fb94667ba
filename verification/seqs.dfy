/** Facts about slices of concatenated sequences, stated once so that larger proofs can cite them. */
module Seqs {
  import opened Arith

  lemma PrefixSnoc<T>(s: seq<T>, k: nat)
    requires k < |s|
    ensures s[..k + 1] == s[..k] + [s[k]]
  {
  }

  lemma ConcatAssoc<T>(a: seq<T>, b: seq<T>, c: seq<T>)
    ensures (a + b) + c == a + (b + c)
  {
  }

  /** The five parts of a concatenation are its consecutive slices. */
  lemma Parts5<T>(s: seq<T>, a: seq<T>, b: seq<T>, c: seq<T>, d: seq<T>, e: seq<T>)
    requires s == a + b + c + d + e
    ensures |s| == |a| + |b| + |c| + |d| + |e|
    ensures s[..|a|] == a
    ensures s[|a|..|a| + |b|] == b
    ensures s[|a| + |b|..|a| + |b| + |c|] == c
    ensures s[|a| + |b| + |c|..|a| + |b| + |c| + |d|] == d
    ensures s[|a| + |b| + |c| + |d|..] == e
  {
    assert s == a + (b + (c + (d + e)));
  }

  lemma PrefixOfPrefix<T>(s: seq<T>, k: nat)
    requires 0 < k <= |s|
    ensures s[..k][..k - 1] == s[..k - 1] && s[..k][k - 1] == s[k - 1]
  {
  }

  lemma SliceSplit<T>(s: seq<T>, a: nat, b: nat, c: nat)
    requires a <= b <= c <= |s|
    ensures s[a..c] == s[a..b] + s[b..c]
  {
  }

  lemma ConcatLeft<T>(a: seq<T>, b: seq<T>, x: nat, y: nat)
    requires x <= y <= |a|
    ensures (a + b)[x..y] == a[x..y]
  {
  }

  lemma ConcatRight<T>(a: seq<T>, b: seq<T>)
    ensures (a + b)[|a|..|a| + |b|] == b
  {
  }

  lemma SliceOfPrefix<T>(s: seq<T>, k: nat, a: nat, b: nat)
    requires a <= b <= k <= |s|
    ensures s[..k][a..b] == s[a..b]
  {
  }

  lemma SliceOfSuffix<T>(s: seq<T>, k: nat, a: nat, b: nat)
    requires k + b <= |s| && a <= b
    ensures s[k..][a..b] == s[k + a..k + b]
  {
  }

  lemma SuffixStep<T>(s: seq<T>, lo: nat, r: nat)
    requires lo + r <= |s|
    ensures s[lo..][..r] == s[lo..lo + r] && s[lo..][r..] == s[lo + r..]
  {
  }

  lemma SuffixHead<T>(s: seq<T>, k: nat)
    requires k < |s|
    ensures s[k..][0] == s[k] && s[k..][1..] == s[k + 1..]
  {
  }

  /** The chunks written one after the other. */
  function Concat<T>(chunks: seq<seq<T>>): seq<T>
  {
    if chunks == [] then [] else chunks[0] + Concat(chunks[1..])
  }

  /** `chunks` cut `body` into consecutive windows of `r` elements. */
  ghost predicate Tiles<T>(body: seq<T>, r: nat, chunks: seq<seq<T>>)
    decreases |chunks|
  {
    if chunks == [] then body == []
    else r <= |body| && chunks[0] == body[..r] && Tiles(body[r..], r, chunks[1..])
  }

  /** One more window in front of a tiling. */
  lemma TilesCons<T>(body: seq<T>, lo: nat, hi: nat, r: nat, chunks: seq<seq<T>>, k: nat)
    requires hi == lo + r <= |body| && k < |chunks| && chunks[k] == body[lo..hi]
    requires Tiles(body[hi..], r, chunks[k + 1..])
    ensures Tiles(body[lo..], r, chunks[k..])
  {
    SuffixStep(body, lo, r);
    SuffixHead(chunks, k);
  }

  /** Chunks that tile a body, concatenated, give that body. */
  lemma {:induction false} TilesConcat<T>(body: seq<T>, r: nat, chunks: seq<seq<T>>)
    requires Tiles(body, r, chunks)
    ensures Concat(chunks) == body
    decreases |chunks|
  {
    if chunks != [] {
      TilesConcat(body[r..], r, chunks[1..]);
      assert body == body[..r] + body[r..];
    }
  }

  /** Chunks of one length `r`, concatenated, are tiled by themselves, `r * |chunks|` elements in all. */
  lemma {:induction false} ConcatTiles<T>(chunks: seq<seq<T>>, r: nat)
    requires forall i :: 0 <= i < |chunks| ==> |chunks[i]| == r
    ensures |Concat(chunks)| == |chunks| * r
    ensures Tiles(Concat(chunks), r, chunks)
    decreases |chunks|
  {
    if chunks != [] {
      var rest := chunks[1..];
      assert forall i :: 0 <= i < |rest| ==> |rest[i]| == r by {
        forall i | 0 <= i < |rest| ensures |rest[i]| == r {
          assert rest[i] == chunks[i + 1];
        }
      }
      ConcatTiles(rest, r);
      MulSucc(|rest|, r);
      var all := Concat(chunks);
      assert all == chunks[0] + Concat(rest);
      assert all[..r] == chunks[0] && all[r..] == Concat(rest);
    }
  }

  /** A body has at most one tiling with a given width. */
  lemma {:induction false} TilesUnique<T>(body: seq<T>, r: nat, a: seq<seq<T>>, b: seq<seq<T>>)
    requires r > 0 && Tiles(body, r, a) && Tiles(body, r, b)
    ensures a == b
    decreases |a|
  {
    if a != [] && b != [] {
      TilesUnique(body[r..], r, a[1..], b[1..]);
      assert a == [a[0]] + a[1..] && b == [b[0]] + b[1..];
    }
  }
}
