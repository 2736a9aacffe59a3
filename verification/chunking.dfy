/**
 The slicing loop both flashers use:
 `for (offset = 0; offset < n; offset += size) chunk = data.slice(offset, offset + size)`.
 It is used with size 256 for the outer download chunks, 128 for the probe's
 memory-write sub-chunks and 16 for the probe's data packets.
 */
module Chunking {
  import opened Seqs

  /** The pieces the slicing loop produces, in order. */
  function Split<T>(s: seq<T>, size: nat): (pieces: seq<seq<T>>)
    requires size > 0
    ensures Flatten(pieces) == s
    ensures forall i :: 0 <= i < |pieces| ==> 0 < |pieces[i]| <= size
    ensures forall i :: 0 <= i < |pieces| - 1 ==> |pieces[i]| == size
    ensures |s| == 0 <==> |pieces| == 0
    decreases |s|
  {
    if |s| == 0 then []
    else if |s| <= size then
      FlattenSingle(s);
      [s]
    else
      var rest := Split(s[size..], size);
      assert ([s[..size]] + rest)[1..] == rest;
      [s[..size]] + rest
  }

  /** `ceil(n / size)` without division: the number of pieces of `n` items. */
  function PieceCount(n: nat, size: nat): nat
    requires size > 0
  {
    (n + size - 1) / size
  }

  lemma MulAtLeast(x: int, d: int)
    requires d > 0
    ensures x >= 1 ==> x * d >= d
    ensures x <= -1 ==> x * d <= -d
  {
    if x >= 1 {
      assert x * d == (x - 1) * d + d;
    }
    if x <= -1 {
      assert x * d == (x + 1) * d - d;
    }
  }

  /** Euclidean division is determined by quotient and remainder. */
  lemma DivUnique(a: int, d: int, q: int, r: int)
    requires d > 0 && 0 <= r < d && a == q * d + r
    ensures a / d == q
  {
    var q', r' := a / d, a % d;
    assert a == q' * d + r';
    assert (q' - q) * d == r - r';
    MulAtLeast(q' - q, d);
  }

  lemma ModOfMultiple(k: int, m: int)
    requires m > 0
    ensures (k * m) % m == 0
  {
    DivUnique(k * m, m, k, 0);
  }

  lemma DivShift(a: nat, d: nat)
    requires d > 0
    ensures (a + d) / d == a / d + 1
  {
    DivUnique(a + d, d, a / d + 1, a % d);
  }

  /** One step of the slicing loop. */
  lemma SplitUnfold<T>(s: seq<T>, size: nat)
    requires 0 < size < |s|
    ensures Split(s, size) == [s[..size]] + Split(s[size..], size)
  {
  }

  /** There are exactly ceil(|s| / size) pieces. */
  lemma {:induction false} SplitCount<T>(s: seq<T>, size: nat)
    requires size > 0
    ensures |Split(s, size)| == PieceCount(|s|, size)
    decreases |s|
  {
    var n := |s|;
    if n == 0 {
      DivUnique(size - 1, size, 0, size - 1);
    } else if n <= size {
      DivUnique(n + size - 1, size, 1, n - 1);
    } else {
      SplitUnfold(s, size);
      SplitCount(s[size..], size);
      DivShift(n - 1, size);
    }
  }

  /**
   Piece `i` is the slice starting at offset `size * i`, and it has
   `min(size, |s| - size * i)` items.
   */
  lemma {:induction false} SplitPiece<T>(s: seq<T>, size: nat, i: nat)
    requires size > 0
    requires i < |Split(s, size)|
    ensures size * i < |s|
    ensures Split(s, size)[i] == s[size * i .. Min(size * (i + 1), |s|)]
    decreases |s|
  {
    if |s| <= size || i == 0 {
      FirstPiece(s, size, i);
    } else {
      SplitUnfold(s, size);
      SplitPiece(s[size..], size, i - 1);
      ShiftSlice(s, size, i);
    }
  }

  /** Every piece is the slice `SplitPiece` names. */
  lemma SplitPieces<T>(s: seq<T>, size: nat)
    requires size > 0
    ensures forall i :: 0 <= i < |Split(s, size)| ==> size * i < |s|
    ensures forall i :: 0 <= i < |Split(s, size)| ==> Split(s, size)[i] == s[size * i .. Min(size * (i + 1), |s|)]
  {
    forall i | 0 <= i < |Split(s, size)|
      ensures size * i < |s|
      ensures Split(s, size)[i] == s[size * i .. Min(size * (i + 1), |s|)]
    {
      SplitPiece(s, size, i);
    }
  }

  lemma FirstPiece<T>(s: seq<T>, size: nat, i: nat)
    requires size > 0
    requires i < |Split(s, size)|
    requires |s| <= size || i == 0
    ensures i == 0 && size * i < |s|
    ensures Split(s, size)[i] == s[size * i .. Min(size * (i + 1), |s|)]
  {
    Steps(size, 0);
    if |s| > size {
      SplitUnfold(s, size);
    }
  }

  /** Slicing after dropping the first piece is slicing `size` further on. */
  lemma ShiftSlice<T>(s: seq<T>, size: nat, i: nat)
    requires 0 < size < |s| && i > 0
    requires size * (i - 1) < |s| - size
    ensures size * i < |s|
    ensures s[size..][size * (i - 1) .. Min(size * i, |s| - size)]
         == s[size * i .. Min(size * (i + 1), |s|)]
  {
    var j := i - 1;
    Steps(size, j);
    var lo, hi := size * j, Min(size * i, |s| - size);
    SliceOfDrop(s, size, lo, hi);
    assert size + lo == size * i;
    assert size + hi == Min(size * (i + 1), |s|);
  }

  /** Offsets of consecutive pieces are `size` apart. */
  lemma Steps(size: nat, j: nat)
    ensures size * (j + 1) == size * j + size
    ensures size * (j + 2) == size * j + 2 * size
    ensures j == 0 ==> size * j == 0
    ensures size * j >= 0
  {
  }

  lemma SliceOfDrop<T>(s: seq<T>, k: nat, lo: nat, hi: nat)
    requires k <= |s| && lo <= hi <= |s| - k
    ensures s[k..][lo..hi] == s[k + lo .. k + hi]
  {
  }

  function Min(a: int, b: int): int
  {
    if a <= b then a else b
  }

  function Max(a: int, b: int): int
  {
    if a >= b then a else b
  }

  /** Every piece of a sequence whose length is a multiple of `m` has such a length too. */
  lemma {:induction false} SplitKeepsMultiple<T>(s: seq<T>, size: nat, m: nat, i: nat)
    requires size > 0 && m > 0 && size % m == 0 && |s| % m == 0
    requires i < |Split(s, size)|
    ensures |Split(s, size)[i]| % m == 0
    decreases |s|
  {
    if |s| > size && i > 0 {
      SplitUnfold(s, size);
      DifferenceOfMultiples(|s|, size, m);
      SplitKeepsMultiple(s[size..], size, m, i - 1);
    } else if |s| > size {
      SplitUnfold(s, size);
    }
  }

  lemma DifferenceOfMultiples(a: nat, b: nat, m: nat)
    requires m > 0 && a % m == 0 && b % m == 0 && b <= a
    ensures (a - b) % m == 0
  {
    var x, y := a / m, b / m;
    assert a == x * m && b == y * m;
    assert a - b == (x - y) * m;
    ModOfMultiple(x - y, m);
  }

  /** Flattening the first `i` pieces gives the first `min(size * i, |s|)` items. */
  lemma {:induction false} SplitPrefix<T>(s: seq<T>, size: nat, i: nat)
    requires size > 0
    requires i <= |Split(s, size)|
    ensures |Flatten(Split(s, size)[..i])| == Min(size * i, |s|)
    ensures Flatten(Split(s, size)[..i]) == s[..Min(size * i, |s|)]
    decreases |s|
  {
    if i == 0 {
      assert Split(s, size)[..0] == [];
    } else if |s| <= size {
      SplitPrefixLast(s, size, i);
    } else {
      SplitPrefixStep(s, size, i);
      SplitPrefix(s[size..], size, i - 1);
      var m := Min(size * (i - 1), |s| - size);
      assert Min(size * i, |s|) == size + m by {
        Steps(size, i - 1);
      }
      assert s[..size] + s[size..][..m] == s[..size + m];
    }
  }

  /** A sequence of at most one piece: any nonempty prefix of the pieces is all of it. */
  lemma SplitPrefixLast<T>(s: seq<T>, size: nat, i: nat)
    requires 0 < |s| <= size
    requires 0 < i <= |Split(s, size)|
    ensures Flatten(Split(s, size)[..i]) == s
    ensures Min(size * i, |s|) == |s|
  {
    assert Split(s, size)[..i] == [s];
    FlattenSingle(s);
    assert size * i >= size;
  }

  /** The first `i` pieces are the first `size` items followed by `i - 1` pieces of the rest. */
  lemma SplitPrefixStep<T>(s: seq<T>, size: nat, i: nat)
    requires 0 < size < |s|
    requires 0 < i <= |Split(s, size)|
    ensures i - 1 <= |Split(s[size..], size)|
    ensures Flatten(Split(s, size)[..i]) == s[..size] + Flatten(Split(s[size..], size)[..i - 1])
  {
    var rest := Split(s[size..], size);
    SplitUnfold(s, size);
    var p := Split(s, size)[..i];
    assert p == [s[..size]] + rest[..i - 1];
    assert p[1..] == rest[..i - 1];
  }
}
