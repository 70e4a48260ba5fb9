/** chunkStrings: a list cut into consecutive pieces of bounded size. */
module Chunks {

  /** Where piece i starts in a list of n elements. */
  function Cut(i: nat, size: nat, n: nat): (c: nat)
    ensures c <= n
  {
    if i * size < n then i * size else n
  }

  lemma CutMonotone(i: nat, size: nat, n: nat)
    ensures Cut(i, size, n) <= Cut(i + 1, size, n) <= Cut(i, size, n) + size
  {
    assert (i + 1) * size == i * size + size;
  }

  function Piece<T>(s: seq<T>, size: nat, i: nat): seq<T> {
    CutMonotone(i, size, |s|);
    s[Cut(i, size, |s|)..Cut(i + 1, size, |s|)]
  }

  /** The pieces are consecutive slices of `size` elements, the last one shorter but not empty, and
      together they are the whole list. */
  method ChunkStrings<T>(s: seq<T>, size: nat) returns (chunks: seq<seq<T>>)
    requires size > 0
    ensures forall i :: 0 <= i < |chunks| ==> chunks[i] == Piece(s, size, i) && 0 < |chunks[i]| <= size
    ensures Cut(|chunks|, size, |s|) == |s|
  {
    chunks := [];
    var i := 0;
    while i < |s|
      invariant i == |chunks| * size
      invariant forall j :: 0 <= j < |chunks| ==> chunks[j] == Piece(s, size, j) && 0 < |chunks[j]| <= size
      decreases |s| - i
    {
      var end := i + size;
      if end > |s| { end := |s|; }
      assert (|chunks| + 1) * size == i + size;
      chunks := chunks + [s[i..end]];
      i := i + size;
    }
  }

  lemma SliceAt<T>(s: seq<T>, from: nat, to: nat, j: nat)
    requires from <= j < to <= |s|
    ensures s[j] in s[from..to]
  {
    assert s[from..to][j - from] == s[j];
  }

  /** Element j of the list is in piece j / size. */
  lemma PieceOf<T>(s: seq<T>, size: nat, j: nat) returns (i: nat)
    requires size > 0 && j < |s|
    ensures s[j] in Piece(s, size, i) && i * size <= j < (i + 1) * size
  {
    i := j / size;
    assert (i + 1) * size == i * size + size;
    assert Cut(i, size, |s|) <= j < Cut(i + 1, size, |s|);
    SliceAt(s, Cut(i, size, |s|), Cut(i + 1, size, |s|), j);
  }
}
