/** A long sequence read as consecutive pieces of equal size: the rows of an image, the
    samples of a row. */
module Chunks {

  /** Piece k, or nothing when s does not hold all of it. */
  function Chunk<T>(s: seq<T>, size: nat, k: nat): (c: seq<T>) {
    if (k + 1) * size <= |s| then MulMono(k, k + 1, size); s[k * size..(k + 1) * size] else []
  }

  lemma {:induction false} MulMono(a: nat, b: nat, size: nat)
    requires a <= b
    ensures a * size <= b * size
    ensures a < b ==> a * size + size <= b * size
    decreases b
  {
    if a < b {
      MulMono(a, b - 1, size);
      assert b * size == (b - 1) * size + size;
    }
  }

  lemma ChunkSlice<T>(s: seq<T>, size: nat, k: nat, n: nat)
    requires k < n && n * size <= |s|
    ensures (k + 1) * size <= |s| && k * size + size <= |s|
    ensures Chunk(s, size, k) == s[k * size..k * size + size]
  {
    MulMono(k + 1, n, size);
    MulMono(k, k + 1, size);
    assert (k + 1) * size == k * size + size;
  }

  lemma SliceOfSlice<T>(s: seq<T>, a: nat, n: nat, c: nat, m: nat)
    requires a + n <= |s| && c + m <= n
    ensures s[a..a + n][c..c + m] == s[a + c..a + c + m]
  {
    var outer := s[a..a + n];
    var inner, direct := outer[c..c + m], s[a + c..a + c + m];
    assert forall i :: 0 <= i < m ==> inner[i] == outer[c + i];
    assert forall i :: 0 <= i < m ==> direct[i] == s[a + (c + i)];
    assert inner == direct;
  }

  /** A whole piece does not change when more follows. */
  lemma ChunkExtend<T>(s: seq<T>, more: seq<T>, size: nat, k: nat)
    requires (k + 1) * size <= |s|
    ensures Chunk(s + more, size, k) == Chunk(s, size, k)
  {
    MulMono(k, k + 1, size);
    assert (s + more)[k * size..(k + 1) * size] == s[k * size..(k + 1) * size];
  }

  /** Overwriting piece d leaves every other piece alone. */
  lemma ChunkFrame<T>(s: seq<T>, t: seq<T>, size: nat, d: nat, k: nat)
    requires |s| == |t| && k != d
    requires forall i :: 0 <= i < |s| && !(d * size <= i < (d + 1) * size) ==> s[i] == t[i]
    ensures Chunk(t, size, k) == Chunk(s, size, k)
  {
    if (k + 1) * size <= |s| {
      if k < d { MulMono(k + 1, d, size); } else { MulMono(d + 1, k, size); }
      MulMono(k, k + 1, size);
      assert s[k * size..(k + 1) * size] == t[k * size..(k + 1) * size];
    }
  }

  lemma ChunkFrameAll<T>(s: seq<T>, t: seq<T>, size: nat, d: nat)
    requires |s| == |t|
    requires forall i :: 0 <= i < |s| && !(d * size <= i < d * size + size) ==> s[i] == t[i]
    ensures forall k: nat :: k != d ==> Chunk(t, size, k) == Chunk(s, size, k)
  {
    hide Chunk;
    assert (d + 1) * size == d * size + size;
    forall k: nat | k != d
      ensures Chunk(t, size, k) == Chunk(s, size, k)
    {
      ChunkFrame(s, t, size, d, k);
    }
  }

  /** The pieces determine the whole. */
  lemma {:induction false} ChunksDetermine<T>(s: seq<T>, t: seq<T>, size: nat, n: nat)
    requires n * size <= |s| && n * size <= |t|
    requires forall k :: 0 <= k < n ==> Chunk(s, size, k) == Chunk(t, size, k)
    ensures s[..n * size] == t[..n * size]
  {
    if n == 0 {
      assert n * size == 0;
    } else {
      MulMono(n - 1, n, size);
      ChunksDetermine(s, t, size, n - 1);
      var a := (n - 1) * size;
      assert n * size == a + size;
      assert s[..n * size] == s[..a] + Chunk(s, size, n - 1);
      assert t[..n * size] == t[..a] + Chunk(t, size, n - 1);
    }
  }

  /** Element k * size + x of the whole is element x of piece k. */
  lemma ChunkAt<T>(s: seq<T>, size: nat, k: nat, x: nat)
    requires (k + 1) * size <= |s| && x < size
    ensures 0 <= k * size + x < |s|
    ensures |Chunk(s, size, k)| == size && Chunk(s, size, k)[x] == s[k * size + x]
  {
    MulMono(k, k + 1, size);
    assert (k + 1) * size == k * size + size;
  }
}
