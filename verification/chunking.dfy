/** `chunked`: split a sequence into consecutive chunks of at most `size`
    items. A `size` below 1 behaves like 1, since the length test
    `len(chunk) >= size` then holds after every append. */
module Chunking {

  /** The chunk length actually used for a requested `size`. */
  function Width(size: int): (w: nat)
    ensures w >= 1
    ensures size >= 1 ==> w == size
  {
    if size < 1 then 1 else size
  }

  /** The chunks, as a specification. */
  function Chunks<T>(xs: seq<T>, size: int): seq<seq<T>>
    decreases |xs|
  {
    if xs == [] then []
    else
      var n := if |xs| < Width(size) then |xs| else Width(size);
      [xs[..n]] + Chunks(xs[n..], size)
  }

  /** `n` items make a whole number of chunks of width `w`. */
  predicate Whole(n: nat, w: nat)
    requires w >= 1
    decreases n
  {
    n == 0 || (n >= w && Whole(n - w, w))
  }

  lemma WholeStep(n: nat, w: nat)
    requires w >= 1 && Whole(n, w)
    ensures Whole(n + w, w)
    decreases n
  {
  }

  /** Concatenation of a sequence of chunks. */
  function Flatten<T>(chunks: seq<seq<T>>): seq<T> {
    if chunks == [] then [] else chunks[0] + Flatten(chunks[1..])
  }

  /** Adding one more chunk of at most `Width(size)` items after a prefix
      made of whole chunks adds exactly that chunk. */
  lemma {:induction false} ChunksAppend<T>(p: seq<T>, c: seq<T>, size: int)
    requires Whole(|p|, Width(size))
    requires 1 <= |c| <= Width(size)
    ensures Chunks(p + c, size) == Chunks(p, size) + [c]
    decreases |p|
  {
    var w := Width(size);
    if p == [] {
      assert p + c == c;
      assert c[..|c|] == c;
      assert Chunks(c[|c|..], size) == [];
    } else {
      assert |p| >= w;
      assert (p + c)[..w] == p[..w];
      assert (p + c)[w..] == p[w..] + c;
      ChunksAppend(p[w..], c, size);
    }
  }

  /** Concatenating the chunks gives back the input. */
  lemma {:induction false} FlattenChunks<T>(xs: seq<T>, size: int)
    ensures Flatten(Chunks(xs, size)) == xs
    decreases |xs|
  {
    if xs != [] {
      var n := if |xs| < Width(size) then |xs| else Width(size);
      FlattenChunks(xs[n..], size);
      assert xs[..n] + xs[n..] == xs;
    }
  }

  /** Every chunk is non-empty and holds at most `Width(size)` items; every
      chunk but the last holds exactly `Width(size)`; the empty input gives
      no chunk. */
  lemma {:induction false} ChunkSizes<T>(xs: seq<T>, size: int)
    ensures xs == [] <==> Chunks(xs, size) == []
    ensures forall k :: 0 <= k < |Chunks(xs, size)| ==> 1 <= |Chunks(xs, size)[k]| <= Width(size)
    ensures forall k :: 0 <= k < |Chunks(xs, size)| - 1 ==> |Chunks(xs, size)[k]| == Width(size)
    decreases |xs|
  {
    if xs != [] {
      var n := if |xs| < Width(size) then |xs| else Width(size);
      ChunkSizes(xs[n..], size);
      var rest := Chunks(xs[n..], size);
      assert Chunks(xs, size) == [xs[..n]] + rest;
      if rest != [] {
        assert xs[n..] != [];
        assert n == Width(size);
      }
    }
  }

  /** The generator, collecting what it yields. */
  method Chunked<T>(xs: seq<T>, size: int) returns (chunks: seq<seq<T>>)
    ensures chunks == Chunks(xs, size)
  {
    chunks := [];
    var chunk: seq<T> := [];
    ghost var start := 0;
    for i := 0 to |xs|
      invariant start + |chunk| == i
      invariant |chunk| < Width(size)
      invariant xs[..start] + chunk == xs[..i]
      invariant Whole(start, Width(size))
      invariant chunks == Chunks(xs[..start], size)
    {
      assert xs[..i + 1] == xs[..i] + [xs[i]];
      chunk := chunk + [xs[i]];
      if |chunk| >= size {
        WholeStep(start, Width(size));
        ChunksAppend(xs[..start], chunk, size);
        assert xs[..start] + chunk == xs[..i + 1];
        chunks := chunks + [chunk];
        start := i + 1;
        chunk := [];
      }
    }
    assert xs[..|xs|] == xs;
    if chunk != [] {
      ChunksAppend(xs[..start], chunk, size);
      chunks := chunks + [chunk];
    }
  }
}
