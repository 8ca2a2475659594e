/** Splitting a row list into consecutive slices of at most `size` rows, as
    `rows[i:i + size] for i in range(0, len(rows), size)` does. */
module Batching {

  function Min(a: int, b: int): int {
    if a <= b then a else b
  }

  /** The slices in order; the last one holds the remainder. */
  function Chunks<T>(xs: seq<T>, size: nat): seq<seq<T>>
    requires size > 0
    decreases |xs|
  {
    if xs == [] then []
    else
      var k := Min(size, |xs|);
      [xs[..k]] + Chunks(xs[k..], size)
  }

  function Flatten<T>(xss: seq<seq<T>>): seq<T>
  {
    if xss == [] then [] else xss[0] + Flatten(xss[1..])
  }

  lemma {:induction false} FlattenAppend<T>(a: seq<seq<T>>, b: seq<seq<T>>)
    ensures Flatten(a + b) == Flatten(a) + Flatten(b)
  {
    if a == [] {
      assert a + b == b;
    } else {
      assert (a + b)[1..] == a[1..] + b;
      FlattenAppend(a[1..], b);
    }
  }

  /** Concatenating the slices in order gives back the rows exactly. */
  lemma {:induction false} FlattenChunks<T>(xs: seq<T>, size: nat)
    requires size > 0
    ensures Flatten(Chunks(xs, size)) == xs
  {
    if xs != [] {
      var k := Min(size, |xs|);
      FlattenChunks(xs[k..], size);
      assert xs[..k] + xs[k..] == xs;
    }
  }

  /** Every slice is non-empty and holds at most `size` rows. */
  lemma {:induction false} ChunkSizes<T>(xs: seq<T>, size: nat)
    requires size > 0
    ensures forall c :: c in Chunks(xs, size) ==> 0 < |c| <= size
  {
    if xs != [] {
      ChunkSizes(xs[Min(size, |xs|)..], size);
    }
  }

  /** There are ceil(|xs| / size) slices: none for no rows. */
  lemma {:induction false} ChunkCount<T>(xs: seq<T>, size: nat)
    requires size > 0
    ensures |Chunks(xs, size)| == (|xs| + size - 1) / size
  {
    if xs != [] {
      var k := Min(size, |xs|);
      ChunkCount(xs[k..], size);
      if |xs| <= size {
        DivUnique(|xs| + size - 1, size, 1, |xs| - 1);
        DivUnique(size - 1, size, 0, size - 1);
      } else {
        assert |xs[k..]| + size - 1 == (|xs| + size - 1) - size;
        DivStep(|xs| + size - 1, size);
      }
    }
  }

  lemma DivStep(a: nat, size: nat)
    requires size > 0 && a >= size
    ensures (a - size) / size == a / size - 1
  {
    var q, r := a / size, a % size;
    assert a == q * size + r;
    MulStep(q, size);
    DivUnique(a - size, size, q - 1, r);
  }

  lemma MulStep(k: int, size: int)
    ensures k * size == (k - 1) * size + size
  {
  }

  /** Euclidean division is determined by quotient and remainder. */
  lemma DivUnique(a: int, size: int, q: int, r: int)
    requires size > 0 && 0 <= r < size && a == q * size + r
    ensures a / size == q
  {
    var q', r' := a / size, a % size;
    assert a == q' * size + r';
    if q' < q {
      MulLess(q', q - 1, size);
      MulStep(q, size);
    } else if q' > q {
      MulLess(q, q' - 1, size);
      MulStep(q', size);
    }
  }

  lemma MulLess(a: int, b: int, size: int)
    requires size > 0 && a <= b
    ensures a * size <= b * size
  {
  }

  /** Slice k is `xs[k*size : k*size + size]`, clamped at the end of the rows. */
  lemma ChunkAt<T>(xs: seq<T>, size: nat, k: nat)
    requires size > 0 && k < |Chunks(xs, size)|
    ensures k * size < |xs|
    ensures Chunks(xs, size)[k] == xs[k * size .. Min(k * size + size, |xs|)]
  {
    ChunkAtOffset(xs, size, k, k * size);
  }

  /** ChunkAt with the offset `start == k * size` named, so that the induction
      step stays linear. */
  lemma {:induction false} ChunkAtOffset<T>(xs: seq<T>, size: nat, k: nat, start: nat)
    requires size > 0 && k < |Chunks(xs, size)| && start == k * size
    ensures start < |xs|
    ensures Chunks(xs, size)[k] == xs[start .. Min(start + size, |xs|)]
  {
    var m := Min(size, |xs|);
    if k > 0 {
      MulStep(k, size);
      ChunkAtOffset(xs[m..], size, k - 1, start - size);
      assert m == size;
      assert xs[m..][start - size .. Min(start, |xs| - m)] == xs[start .. Min(start + size, |xs|)];
    }
  }

  /** How many of n rows the first k slices of `size` hold: min(k * size, n). */
  function RowsBefore(n: nat, size: nat, k: nat): (m: nat)
    ensures m <= n
  {
    Min(k * size, n)
  }

  /** The first k slices together are the first k*size rows (all of them once k
      reaches the slice count). */
  lemma {:induction false} FlattenChunksPrefix<T>(xs: seq<T>, size: nat, k: nat)
    requires size > 0 && k <= |Chunks(xs, size)|
    ensures Flatten(Chunks(xs, size)[..k]) == xs[..RowsBefore(|xs|, size, k)]
  {
    if k > 0 {
      var m := Min(size, |xs|);
      var cs := Chunks(xs, size);
      assert cs[..k] == [xs[..m]] + Chunks(xs[m..], size)[..k - 1];
      FlattenChunksPrefix(xs[m..], size, k - 1);
      FlattenAppend([xs[..m]], Chunks(xs[m..], size)[..k - 1]);
      MulStep(k, size);
      if k > 1 {
        assert m == size;
      }
      assert xs[..m] + xs[m..][..Min((k - 1) * size, |xs| - m)] == xs[..Min(k * size, |xs|)];
    }
  }
}
