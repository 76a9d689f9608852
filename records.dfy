/**
  Fixed-size records. An IDX body is a run of records of one size laid end
  to end: record `i` occupies bytes `[i*size, (i+1)*size)`. `Chunks` splits a
  byte run into every complete record it holds, `Remainder` is what is left
  over (a partial record), and `Flatten` lays records end to end again.
 */
module Records {
  import opened Bytes

  /** The records laid end to end, in order, with nothing between them (`Buffer.concat`). */
  function Flatten<T>(xs: seq<seq<T>>): seq<T> {
    if |xs| == 0 then [] else xs[0] + Flatten(xs[1..])
  }

  predicate Uniform<T>(xs: seq<seq<T>>, size: nat) {
    forall i :: 0 <= i < |xs| ==> |xs[i]| == size
  }

  /** Every complete `size`-long record at the front of `s`, in order. */
  function Chunks<T>(s: seq<T>, size: nat): (r: seq<seq<T>>)
    requires size > 0
    ensures Uniform(r, size)
    decreases |s|
  {
    if |s| < size then [] else [s[..size]] + Chunks(s[size..], size)
  }

  /** The bytes after the last complete record: always fewer than one record. */
  function Remainder<T>(s: seq<T>, size: nat): (r: seq<T>)
    requires size > 0
    ensures |r| < size && |r| <= |s|
    decreases |s|
  {
    if |s| < size then s else Remainder(s[size..], size)
  }

  lemma {:induction false} FlattenAppend<T>(xs: seq<seq<T>>, x: seq<T>)
    ensures Flatten(xs + [x]) == Flatten(xs) + x
  {
    if |xs| > 0 {
      assert (xs + [x])[1..] == xs[1..] + [x];
      FlattenAppend(xs[1..], x);
    }
  }

  lemma {:induction false} FlattenConcat<T>(xs: seq<seq<T>>, ys: seq<seq<T>>)
    ensures Flatten(xs + ys) == Flatten(xs) + Flatten(ys)
  {
    if |xs| > 0 {
      assert (xs + ys)[1..] == xs[1..] + ys;
      FlattenConcat(xs[1..], ys);
    } else {
      assert xs + ys == ys;
    }
  }

  /** No byte is lost or repeated: the records and the leftover put back together are the input. */
  lemma {:induction false} ChunksConserve<T>(s: seq<T>, size: nat)
    requires size > 0
    ensures Flatten(Chunks(s, size)) + Remainder(s, size) == s
    decreases |s|
  {
    if |s| >= size {
      ChunksConserve(s[size..], size);
      var c := Chunks(s, size);
      assert c[0] == s[..size] && c[1..] == Chunks(s[size..], size);
      assert Flatten(c) == s[..size] + Flatten(Chunks(s[size..], size));
      assert Remainder(s, size) == Remainder(s[size..], size);
      assert s[..size] + s[size..] == s;
    }
  }

  /** There are exactly `|s| / size` records and `|s| % size` leftover bytes. */
  lemma {:induction false} ChunksCount<T>(s: seq<T>, size: nat)
    requires size > 0
    ensures |Chunks(s, size)| == |s| / size
    ensures |Remainder(s, size)| == |s| % size
    decreases |s|
  {
    if |s| >= size {
      ChunksCount(s[size..], size);
      DivStep(|s|, size);
    }
  }

  lemma DivStep(n: nat, d: nat)
    requires 0 < d <= n
    ensures (n - d) / d == n / d - 1 && (n - d) % d == n % d
  {
    var q, r := (n - d) / d, (n - d) % d;
    assert n - d == q * d + r && 0 <= r < d;
    assert n == (q + 1) * d + r;
    DivUnique(n, d, q + 1, r);
  }

  /** Record `i` is bytes `[i*size, (i+1)*size)` of the input. */
  lemma {:induction false} ChunkAt<T>(s: seq<T>, size: nat, i: nat)
    requires size > 0 && i < |Chunks(s, size)|
    ensures (i + 1) * size <= |s|
    ensures Chunks(s, size)[i] == s[i * size..(i + 1) * size]
    decreases |s|
  {
    if i > 0 {
      ChunkAt(s[size..], size, i - 1);
      assert (i - 1 + 1) * size == i * size;
      assert (i + 1) * size == i * size + size;
      assert s[size..][(i - 1) * size..i * size] == s[size + (i - 1) * size..size + i * size];
      assert size + (i - 1) * size == i * size;
    }
  }

  /**
    Splitting `s + t` is splitting `s`, then splitting what `s` left over
    together with `t`: the record sequence does not depend on where the
    input was cut in two.
   */
  lemma {:induction false} ChunksAppend<T>(s: seq<T>, t: seq<T>, size: nat)
    requires size > 0
    ensures Chunks(s + t, size) == Chunks(s, size) + Chunks(Remainder(s, size) + t, size)
    ensures Remainder(s + t, size) == Remainder(Remainder(s, size) + t, size)
    decreases |s|
  {
    if |s| >= size {
      ChunksAppend(s[size..], t, size);
      assert (s + t)[..size] == s[..size];
      assert (s + t)[size..] == s[size..] + t;
      assert Chunks(s + t, size) == [s[..size]] + Chunks(s[size..] + t, size);
      assert Chunks(s, size) == [s[..size]] + Chunks(s[size..], size);
      assert Remainder(s, size) == Remainder(s[size..], size);
    } else {
      assert Remainder(s, size) == s;
      assert Chunks(s, size) == [];
    }
  }

  /** Cutting the first record off leaves the remaining records and the same remainder. */
  lemma CutFront<T>(s: seq<T>, size: nat)
    requires 0 < size <= |s|
    ensures Chunks(s, size) == [s[..size]] + Chunks(s[size..], size)
    ensures Remainder(s, size) == Remainder(s[size..], size)
  {
  }

  /** One more whole record after a whole number of records is one more chunk. */
  lemma ChunksSnoc<T>(s: seq<T>, r: seq<T>, size: nat)
    requires size > 0 && |s| % size == 0 && |r| == size
    ensures Chunks(s + r, size) == Chunks(s, size) + [r]
  {
    ChunksCount(s, size);
    ChunksAppend(s, r, size);
    assert Remainder(s, size) == [];
    assert Remainder(s, size) + r == r;
    assert Chunks(r, size) == [r[..size]] + Chunks(r[size..], size);
    assert r[..size] == r;
  }

  /** Splitting records laid end to end gives the same records back, with nothing left over. */
  lemma {:induction false} ChunksOfFlatten<T>(xs: seq<seq<T>>, size: nat)
    requires size > 0 && Uniform(xs, size)
    ensures Chunks(Flatten(xs), size) == xs
    ensures Remainder(Flatten(xs), size) == []
    ensures |Flatten(xs)| == |xs| * size
  {
    if |xs| > 0 {
      ChunksOfFlatten(xs[1..], size);
      var f := Flatten(xs);
      assert f[..size] == xs[0];
      assert f[size..] == Flatten(xs[1..]);
      assert |xs| * size == size + (|xs| - 1) * size;
    }
  }

  /** Slot `i` of records laid end to end holds record `i`. */
  lemma FlattenSlot<T>(xs: seq<seq<T>>, size: nat, i: nat)
    requires size > 0 && Uniform(xs, size) && i < |xs|
    ensures (i + 1) * size <= |Flatten(xs)|
    ensures Flatten(xs)[i * size..(i + 1) * size] == xs[i]
  {
    ChunksOfFlatten(xs, size);
    ChunkAt(Flatten(xs), size, i);
  }

  /** After copying `src` in at `offset`, the array's front is the old front followed by `src`. */
  lemma PrefixAfterCopy<T>(was: seq<T>, now: seq<T>, offset: nat, src: seq<T>, front: seq<T>)
    requires offset + |src| <= |was| && was[..offset] == front
    requires now == was[..offset] + src + was[offset + |src|..]
    ensures now[..offset + |src|] == front + src
  {
  }

  /** `target.set(src, offset)` on a typed array: copies `src` into place, nothing else changes. */
  method CopyInto<T>(dst: array<T>, src: seq<T>, offset: nat)
    requires offset + |src| <= dst.Length
    modifies dst
    ensures dst[..] == old(dst[..])[..offset] + src + old(dst[..])[offset + |src|..]
  {
    for k := 0 to |src|
      invariant forall p :: 0 <= p < offset ==> dst[p] == old(dst[p])
      invariant forall p :: 0 <= p < k ==> dst[offset + p] == src[p]
      invariant forall p :: offset + k <= p < dst.Length ==> dst[p] == old(dst[p])
    {
      dst[offset + k] := src[k];
    }
    ghost var was := old(dst[..]);
    assert dst[..] == was[..offset] + src + was[offset + |src|..] by {
      forall p | 0 <= p < dst.Length
        ensures dst[..][p] == (was[..offset] + src + was[offset + |src|..])[p]
      {
        if p >= offset && p < offset + |src| {
          assert dst[offset + (p - offset)] == src[p - offset];
        }
      }
    }
  }
}
