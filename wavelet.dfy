/** `WaveletDecomposition` (Wavelet/WaveletDecomposition.cs): the
    multi-resolution split of a wavelet-transformed signal or image into
    levels, and the merge that undoes it. The wavelet transform itself, its
    inverse and `Matrice.Merge` are parameters. The transform is taken to
    keep the shape of its input, as a discrete wavelet transform does. */
module WaveletSplit {
  import opened Common

  // ---------------------------------------------------------------------
  // One dimension

  /** `nLevels`: the smaller of the integer base-2 logarithm of the length
      and the transform's level count. */
  function Levels1D(length: nat, levels: nat): nat
    requires length >= 1
  {
    if FloorLog2(length) < levels then FloorLog2(length) else levels
  }

  /** `bound` of pass `i`: `length >> (n - i)`. */
  function Bound(length: nat, n: nat, i: nat): nat
    requires i <= n
  {
    Shr(length, n - i)
  }

  /** `k` at the start of pass `i`: the previous pass's bound, 0 at first. */
  function Start(length: nat, n: nat, i: nat): (k: nat)
    requires i <= n + 1
    ensures i <= n ==> k <= Bound(length, n, i)
  {
    if i == 0 then 0 else Bound(length, n, i - 1)
  }

  /** Piece `i` of the split: the entries of `B` from the previous bound to
      this one. */
  function Piece1D(B: seq<real>, length: nat, n: nat, i: nat): seq<real>
    requires length <= |B| && i <= n
  {
    B[Start(length, n, i)..Bound(length, n, i)]
  }

  /** All `n + 1` pieces. */
  function Pieces1D(B: seq<real>, length: nat, n: nat): (C: seq<seq<real>>)
    requires length <= |B|
    ensures |C| == n + 1
  {
    seq(n + 1, i requires 0 <= i <= n => Piece1D(B, length, n, i))
  }

  /** The copying loop of one pass: `count` entries of `B` from `k` on. */
  method CopySlice(B: seq<real>, k: nat, count: nat) returns (piece: seq<real>)
    requires k + count <= |B|
    ensures piece == B[k..k + count]
  {
    var c := new real[count];
    for j := 0 to count
      invariant forall q :: 0 <= q < j ==> c[q] == B[q + k]
    {
      c[j] := B[j + k];
    }
    piece := c[..];
  }

  /** `Forward(double[])`. A length of 0 makes the level count the conversion
      of minus infinity to `int`, and allocating `nLevels + 1` pieces fails. */
  method Forward1D(A: seq<real>, levels: nat, transform: seq<real> -> seq<real>) returns (r: Result<seq<seq<real>>>)
    requires |transform(A)| == |A|
    ensures r.Err? <==> |A| == 0
    ensures r.Err? ==> r.error == Overflow
    ensures r.Ok? ==> r.value == Pieces1D(transform(A), |A|, Levels1D(|A|, levels))
  {
    var length := |A|;
    if length == 0 {
      return Err(Overflow);
    }
    var n := Levels1D(length, levels);
    var B := transform(A);
    var C: seq<seq<real>> := [];
    var k := 0;
    for i := 0 to n + 1
      invariant |C| == i && k == Start(length, n, i)
      invariant C == Pieces1D(B, length, n)[..i]
    {
      var bound := Shr(length, n - i);
      var count := bound - k;
      var piece := CopySlice(B, k, count);
      C := C + [piece];
      assert Pieces1D(B, length, n)[..i + 1] == Pieces1D(B, length, n)[..i] + [piece];
      k := bound;
    }
    assert Pieces1D(B, length, n)[..n + 1] == Pieces1D(B, length, n);
    r := Ok(C);
  }

  /** Piece 0 holds `length >> n` entries and piece `i >= 1` holds
      `(length >> (n - i)) - (length >> (n - i + 1))`. */
  lemma PieceSizes(B: seq<real>, length: nat, n: nat)
    requires length <= |B|
    ensures |Pieces1D(B, length, n)[0]| == Shr(length, n)
    ensures forall i :: 1 <= i <= n ==> |Pieces1D(B, length, n)[i]| == Shr(length, n - i) - Shr(length, n - i + 1)
  {
  }

  /** The concatenation of a sequence of pieces. */
  function Concat(C: seq<seq<real>>): seq<real> {
    if |C| == 0 then [] else Concat(C[..|C| - 1]) + C[|C| - 1]
  }

  lemma {:induction false} ConcatPrefix(B: seq<real>, length: nat, n: nat, i: nat)
    requires length <= |B| && i <= n
    ensures Concat(Pieces1D(B, length, n)[..i + 1]) == B[..Bound(length, n, i)]
  {
    var C := Pieces1D(B, length, n);
    assert C[..i + 1][..i] == C[..i];
    if i == 0 {
      assert C[..0] == [];
    } else {
      ConcatPrefix(B, length, n, i - 1);
      assert B[..Bound(length, n, i)] == B[..Bound(length, n, i - 1)] + C[i];
    }
  }

  /** The pieces tile the first `length` entries in order: concatenated,
      they give back the transformed array. */
  lemma ConcatPieces(B: seq<real>, length: nat, n: nat)
    requires length <= |B|
    ensures Concat(Pieces1D(B, length, n)) == B[..length]
  {
    ConcatPrefix(B, length, n, n);
    assert Pieces1D(B, length, n)[..n + 1] == Pieces1D(B, length, n);
  }

  /** `A` after `k` passes of the merging loop of `Backward(double[][])`. */
  function Merged(merge: (seq<real>, seq<real>) -> seq<real>, C: seq<seq<real>>, k: nat): seq<real>
    requires k <= |C|
  {
    if k == 0 then [] else merge(Merged(merge, C, k - 1), C[k - 1])
  }

  /** `Backward(double[][])`: the pieces merged in index order, then the
      inverse transform. */
  method Backward1D(C: seq<seq<real>>, merge: (seq<real>, seq<real>) -> seq<real>, inverse: seq<real> -> seq<real>)
    returns (r: seq<real>)
    ensures r == inverse(Merged(merge, C, |C|))
  {
    var A: seq<real> := [];
    for i := 0 to |C|
      invariant A == Merged(merge, C, i)
    {
      A := merge(A, C[i]);
    }
    r := inverse(A);
  }

  lemma {:induction false} MergedIsConcat(merge: (seq<real>, seq<real>) -> seq<real>, C: seq<seq<real>>, k: nat)
    requires k <= |C|
    requires forall a, b :: merge(a, b) == a + b
    ensures Merged(merge, C, k) == Concat(C[..k])
  {
    if k > 0 {
      MergedIsConcat(merge, C, k - 1);
      assert C[..k][..k - 1] == C[..k - 1];
    }
  }

  /** With `Merge` as concatenation, merging the pieces of `Forward` gives back
      the transformed array, and `Backward` after `Forward` is the inverse
      transform of the transform. */
  method RoundTrip1D(A: seq<real>, levels: nat, transform: seq<real> -> seq<real>,
                     merge: (seq<real>, seq<real>) -> seq<real>, inverse: seq<real> -> seq<real>)
    returns (r: Result<seq<real>>)
    requires |transform(A)| == |A|
    requires forall a, b :: merge(a, b) == a + b
    ensures |A| == 0 ==> r == Err(Overflow)
    ensures |A| > 0 ==> r == Ok(inverse(transform(A)))
  {
    var pieces := Forward1D(A, levels, transform);
    if pieces.Err? {
      return Err(pieces.error);
    }
    var n := Levels1D(|A|, levels);
    MergedIsConcat(merge, pieces.value, |pieces.value|);
    assert pieces.value[..|pieces.value|] == pieces.value;
    ConcatPieces(transform(A), |A|, n);
    assert transform(A)[..|A|] == transform(A);
    var back := Backward1D(pieces.value, merge, inverse);
    r := Ok(back);
  }

  // ---------------------------------------------------------------------
  // Two dimensions

  /** `nLevels` of the matrix overload: the smallest of the integer base-2
      logarithm of the row count, the level count and the column count
      itself (not its logarithm). */
  function Levels2D(rows: nat, cols: nat, levels: nat): (n: nat)
    requires rows >= 1
    ensures n <= FloorLog2(rows) && n <= levels && n <= cols
    ensures n == FloorLog2(rows) || n == levels || n == cols
  {
    var a := if FloorLog2(rows) < levels then FloorLog2(rows) else levels;
    if a < cols then a else cols
  }

  /** Cell `(y, x)` of piece `i`: `k1` and `k2` never advance, so every piece
      is a top-left block of the transformed matrix `T`, and the block of the
      piece before it has already been zeroed. */
  function PieceCell(T: Matrix, rows: nat, cols: nat, n: nat, i: nat, y: nat, x: nat): real
    requires IsMatrix(T, rows, cols) && i <= n
    requires y < Shr(rows, n - i) && x < Shr(cols, n - i)
  {
    if i > 0 && y < Shr(rows, n - i + 1) && x < Shr(cols, n - i + 1) then 0.0 else T[y][x]
  }

  /** The contents of a matrix array. */
  function Cells(a: array2<real>): (m: Matrix)
    reads a
    ensures IsMatrix(m, a.Length0, a.Length1)
    ensures forall y, x :: 0 <= y < a.Length0 && 0 <= x < a.Length1 ==> m[y][x] == a[y, x]
  {
    seq(a.Length0, y requires 0 <= y < a.Length0 reads a =>
      seq(a.Length1, x requires 0 <= x < a.Length1 reads a => a[y, x]))
  }

  /** The copy of the transformed matrix that the loops work on. */
  method Load(T: Matrix, rows: nat, cols: nat) returns (B: array2<real>)
    requires IsMatrix(T, rows, cols)
    ensures fresh(B) && B.Length0 == rows && B.Length1 == cols
    ensures forall y, x :: 0 <= y < rows && 0 <= x < cols ==> B[y, x] == T[y][x]
  {
    B := new real[rows, cols];
    for y := 0 to rows
      invariant forall q, x :: 0 <= q < y && 0 <= x < cols ==> B[q, x] == T[q][x]
    {
      for x := 0 to cols
        invariant forall q, p :: 0 <= q < y && 0 <= p < cols ==> B[q, p] == T[q][p]
        invariant forall p :: 0 <= p < x ==> B[y, p] == T[y][p]
      {
        B[y, x] := T[y][x];
      }
    }
  }

  /** The inner loop over `x` of one pass: copy row `y` of the block into
      the piece and zero it in `B`. */
  method CopyRow(B: array2<real>, piece: array2<real>, y: nat)
    requires B != piece && y < piece.Length0 <= B.Length0 && piece.Length1 <= B.Length1
    modifies B, piece
    ensures forall x :: 0 <= x < piece.Length1 ==> piece[y, x] == old(B[y, x]) && B[y, x] == 0.0
    ensures forall q, x :: 0 <= q < B.Length0 && 0 <= x < B.Length1 && !(q == y && x < piece.Length1) ==> B[q, x] == old(B[q, x])
    ensures forall q, x :: 0 <= q < piece.Length0 && 0 <= x < piece.Length1 && q != y ==> piece[q, x] == old(piece[q, x])
  {
    for x := 0 to piece.Length1
      invariant forall p :: 0 <= p < x ==> piece[y, p] == old(B[y, p]) && B[y, p] == 0.0
      invariant forall q, p :: 0 <= q < B.Length0 && 0 <= p < B.Length1 && !(q == y && p < x) ==> B[q, p] == old(B[q, p])
      invariant forall q, p :: 0 <= q < piece.Length0 && 0 <= p < piece.Length1 && q != y ==> piece[q, p] == old(piece[q, p])
    {
      piece[y, x] := B[y, x];
      B[y, x] := 0.0;
    }
  }

  /** One pass of the outer loop: a new `rows x cols` piece receives the
      top-left block of `B`, and that block of `B` is zeroed. */
  method CopyBlock(B: array2<real>, rows: nat, cols: nat) returns (piece: array2<real>)
    requires rows <= B.Length0 && cols <= B.Length1
    modifies B
    ensures fresh(piece) && piece.Length0 == rows && piece.Length1 == cols
    ensures forall y, x :: 0 <= y < rows && 0 <= x < cols ==> piece[y, x] == old(B[y, x])
    ensures forall y, x :: 0 <= y < B.Length0 && 0 <= x < B.Length1 ==>
      B[y, x] == if y < rows && x < cols then 0.0 else old(B[y, x])
  {
    piece := new real[rows, cols];
    for y := 0 to rows
      invariant forall q, x :: 0 <= q < y && 0 <= x < cols ==> piece[q, x] == old(B[q, x])
      invariant forall q, x :: 0 <= q < B.Length0 && 0 <= x < B.Length1 ==>
        B[q, x] == if q < y && x < cols then 0.0 else old(B[q, x])
    {
      CopyRow(B, piece, y);
    }
  }

  /** The dimensions of a sequence of matrix arrays. */
  function Dims(ps: seq<array2<real>>): (d: seq<(nat, nat)>)
    ensures |d| == |ps|
    ensures forall i :: 0 <= i < |ps| ==> d[i] == (ps[i].Length0, ps[i].Length1)
  {
    seq(|ps|, i requires 0 <= i < |ps| => (ps[i].Length0, ps[i].Length1))
  }

  /** The block each piece contributes to `Backward`: its own dimensions, except
      that an earlier piece which is the last array itself is copied onto
      itself, changes nothing, and so counts as an empty block. */
  function CopiedDims(ps: seq<array2<real>>): (d: seq<(nat, nat)>)
    requires |ps| >= 1
    ensures |d| == |ps|
    ensures forall i :: 0 <= i < |ps| ==>
      d[i] == if i < |ps| - 1 && ps[i] == ps[|ps| - 1] then (0, 0) else (ps[i].Length0, ps[i].Length1)
  {
    seq(|ps|, i requires 0 <= i < |ps| =>
      if i < |ps| - 1 && ps[i] == ps[|ps| - 1] then (0, 0) else (ps[i].Length0, ps[i].Length1))
  }

  /** The dimensions `Forward` gives its pieces. */
  function ForwardDims(rows: nat, cols: nat, n: nat): (d: seq<(nat, nat)>)
    ensures |d| == n + 1
    ensures forall i :: 0 <= i <= n ==> d[i] == (Shr(rows, n - i), Shr(cols, n - i))
  {
    seq(n + 1, i requires 0 <= i <= n => (Shr(rows, n - i), Shr(cols, n - i)))
  }

  /** `B` after `i` passes of `Forward`: the transformed matrix with the
      block of the last piece taken zeroed. */
  ghost predicate Zeroed(B: array2<real>, T: Matrix, n: nat, i: nat)
    reads B
    requires IsMatrix(T, B.Length0, B.Length1) && i <= n + 1
  {
    forall y, x :: 0 <= y < B.Length0 && 0 <= x < B.Length1 ==>
      B[y, x] == if i > 0 && y < Shr(B.Length0, n - i + 1) && x < Shr(B.Length1, n - i + 1) then 0.0 else T[y][x]
  }

  /** One pass of `Forward`: piece `i` is the block of the current `B`,
      which is then zeroed in `B`. */
  method TakePiece(B: array2<real>, T: Matrix, n: nat, i: nat) returns (piece: array2<real>)
    requires i <= n && IsMatrix(T, B.Length0, B.Length1) && Zeroed(B, T, n, i)
    modifies B
    ensures fresh(piece) && piece.Length0 == Shr(B.Length0, n - i) && piece.Length1 == Shr(B.Length1, n - i)
    ensures forall y, x :: 0 <= y < piece.Length0 && 0 <= x < piece.Length1 ==>
      piece[y, x] == PieceCell(T, B.Length0, B.Length1, n, i, y, x)
    ensures Zeroed(B, T, n, i + 1)
  {
    piece := CopyBlock(B, Shr(B.Length0, n - i), Shr(B.Length1, n - i));
    assert n - (i + 1) + 1 == n - i;
  }

  /** `Forward(double[,])`: `nLevels + 1` fresh pieces; piece `i` is the
      `(N >> (n - i)) x (M >> (n - i))` top-left block of the transformed
      matrix with the previous piece's block zeroed. */
  method Forward2D(A: Matrix, cols: nat, levels: nat, transform: Matrix -> Matrix) returns (r: Result<seq<array2<real>>>)
    requires IsMatrix(A, |A|, cols) && IsMatrix(transform(A), |A|, cols)
    ensures r.Err? <==> |A| == 0
    ensures r.Err? ==> r.error == Overflow
    ensures r.Ok? ==> var n := Levels2D(|A|, cols, levels); var C := r.value;
      Dims(C) == ForwardDims(|A|, cols, n) &&
      (forall i :: 0 <= i < |C| ==> C[i].Length0 == Shr(|A|, n - i) && C[i].Length1 == Shr(cols, n - i)) &&
      (forall i :: 0 <= i < |C| ==> fresh(C[i])) &&
      (forall i, j :: 0 <= i < j < |C| ==> C[i] != C[j]) &&
      (forall i, y, x :: 0 <= i < |C| && 0 <= y < C[i].Length0 && 0 <= x < C[i].Length1 ==>
        C[i][y, x] == PieceCell(transform(A), |A|, cols, n, i, y, x))
  {
    var N := |A|;
    var M := cols;
    if N == 0 {
      return Err(Overflow);
    }
    var n := Levels2D(N, M, levels);
    var T := transform(A);
    var B := Load(T, N, M);
    var C: seq<array2<real>> := [];
    for i := 0 to n + 1
      invariant |C| == i
      invariant forall j :: 0 <= j < i ==> fresh(C[j]) && C[j] != B
      invariant forall j, k :: 0 <= j < k < i ==> C[j] != C[k]
      invariant forall j :: 0 <= j < i ==> C[j].Length0 == Shr(N, n - j) && C[j].Length1 == Shr(M, n - j)
      invariant forall j, y, x :: 0 <= j < i && 0 <= y < C[j].Length0 && 0 <= x < C[j].Length1 ==>
        C[j][y, x] == PieceCell(T, N, M, n, j, y, x)
      invariant B.Length0 == N && B.Length1 == M && Zeroed(B, T, n, i)
    {
      var piece := TakePiece(B, T, n, i);
      C := C + [piece];
    }
    assert Dims(C) == ForwardDims(N, M, n);
    r := Ok(C);
  }

  /** The index of the piece that last writes cell `(y, x)` when `Backward`
      walks from index `|d| - 2` down to `from`: the smallest index from
      `from` on whose piece contains the cell, or the last piece if none. */
  function Owner(d: seq<(nat, nat)>, y: nat, x: nat, from: nat): (i: nat)
    requires |d| >= 1 && from <= |d| - 1
    ensures from <= i <= |d| - 1
    ensures i < |d| - 1 ==> y < d[i].0 && x < d[i].1
    decreases |d| - from
  {
    if from == |d| - 1 then from
    else if y < d[from].0 && x < d[from].1 then from
    else Owner(d, y, x, from + 1)
  }

  /** A piece can be written into the last one: it has no cells, or it fits. */
  predicate Fits(b: array2<real>, a: array2<real>) {
    b.Length0 == 0 || b.Length1 == 0 || (b.Length0 <= a.Length0 && b.Length1 <= a.Length1)
  }

  /** The copy of piece `b` into the top-left of `a`; when `b` is `a` itself,
      every cell is copied onto itself. */
  method WriteBlock(a: array2<real>, b: array2<real>)
    requires Fits(b, a)
    modifies a
    ensures forall y, x :: 0 <= y < a.Length0 && 0 <= x < a.Length1 ==>
      a[y, x] == if y < b.Length0 && x < b.Length1 then old(b[y, x]) else old(a[y, x])
  {
    if b.Length0 == 0 || b.Length1 == 0 {
      return;
    }
    for y := 0 to b.Length0
      invariant forall q, x :: 0 <= q < a.Length0 && 0 <= x < a.Length1 ==>
        a[q, x] == if q < y && x < b.Length1 then old(b[q, x]) else old(a[q, x])
      invariant a != b ==> unchanged(b)
    {
      for x := 0 to b.Length1
        invariant forall q, p :: 0 <= q < a.Length0 && 0 <= p < a.Length1 ==>
          a[q, p] == if (q < y && p < b.Length1) || (q == y && p < x) then old(b[q, p]) else old(a[q, p])
        invariant a != b ==> unchanged(b)
      {
        a[y, x] := b[y, x];
      }
    }
  }

  /** `Backward(double[][,])`: pieces `|B| - 2` down to 0 are written into
      the top-left of the last piece, which is the caller's own array and is
      changed in place; then the inverse transform. No pieces, or a piece
      with cells beyond the last one, is an index out of range. An earlier
      piece that is the last array itself is copied onto itself. */
  method Backward2D(B: seq<array2<real>>, inverse: Matrix -> Matrix) returns (r: Result<Matrix>)
    modifies if |B| == 0 then {} else {B[|B| - 1]}
    ensures r.Err? <==> |B| == 0 || exists i :: 0 <= i < |B| - 1 && !Fits(B[i], B[|B| - 1])
    ensures r.Err? ==> r.error == IndexOutOfRange
    ensures r.Ok? ==> var A := B[|B| - 1];
      (forall y, x :: 0 <= y < A.Length0 && 0 <= x < A.Length1 ==>
        A[y, x] == old(B[Owner(CopiedDims(B), y, x, 0)][y, x])) &&
      r.value == inverse(Cells(A))
  {
    var nLevels := |B|;
    if nLevels == 0 {
      return Err(IndexOutOfRange);
    }
    var A := B[nLevels - 1];
    // `k` is one more than the source's `i`, which runs from `nLevels - 2` down to 0
    var k := nLevels - 1;
    while k > 0
      invariant 0 <= k <= nLevels - 1
      invariant forall j :: k <= j < nLevels - 1 ==> Fits(B[j], A)
      invariant forall y, x :: 0 <= y < A.Length0 && 0 <= x < A.Length1 ==>
        A[y, x] == old(B[Owner(CopiedDims(B), y, x, k)][y, x])
      invariant forall j :: 0 <= j < nLevels - 1 && B[j] != A ==> unchanged(B[j])
    {
      var b := B[k - 1];
      if !Fits(b, A) {
        return Err(IndexOutOfRange);
      }
      forall y: nat, x: nat
        ensures Owner(CopiedDims(B), y, x, k - 1) ==
          if b != A && y < b.Length0 && x < b.Length1 then k - 1 else Owner(CopiedDims(B), y, x, k)
      {
        OwnerStep(CopiedDims(B), y, x, k);
      }
      WriteBlock(A, b);
      k := k - 1;
    }
    r := Ok(inverse(Cells(A)));
  }

  /** `Owner` from one piece earlier. */
  lemma OwnerStep(d: seq<(nat, nat)>, y: nat, x: nat, k: nat)
    requires 0 < k <= |d| - 1
    ensures Owner(d, y, x, k - 1) == if y < d[k - 1].0 && x < d[k - 1].1 then k - 1 else Owner(d, y, x, k)
  {
  }

  /** Every cell of the transformed matrix is recovered from the piece that
      `Backward` writes last into it: the merge of `Forward`'s pieces is the
      transformed matrix. */
  lemma OwnerCellIsTransform(T: Matrix, rows: nat, cols: nat, n: nat, y: nat, x: nat)
    requires IsMatrix(T, rows, cols) && y < rows && x < cols
    ensures var i := Owner(ForwardDims(rows, cols, n), y, x, 0);
      y < Shr(rows, n - i) && x < Shr(cols, n - i) && PieceCell(T, rows, cols, n, i, y, x) == T[y][x]
  {
    var d := ForwardDims(rows, cols, n);
    OwnerIsFirst(d, y, x, 0);
    var i := Owner(d, y, x, 0);
    if i > 0 {
      assert d[i - 1] == (Shr(rows, n - i + 1), Shr(cols, n - i + 1));
    }
  }

  /** The owner contains the cell (or is the last piece), and no piece
      before it does. */
  lemma {:induction false} OwnerIsFirst(d: seq<(nat, nat)>, y: nat, x: nat, from: nat)
    requires |d| >= 1 && from <= |d| - 1
    ensures var i := Owner(d, y, x, from);
      forall j :: from <= j < i ==> !(y < d[j].0 && x < d[j].1)
    decreases |d| - from
  {
    if from < |d| - 1 && !(y < d[from].0 && x < d[from].1) {
      OwnerIsFirst(d, y, x, from + 1);
    }
  }

  /** `Backward` after `Forward` hands the inverse transform exactly the
      transformed matrix: the 2D split and merge round trip. */
  method RoundTrip2D(A: Matrix, cols: nat, levels: nat, transform: Matrix -> Matrix, inverse: Matrix -> Matrix)
    returns (r: Result<Matrix>)
    requires IsMatrix(A, |A|, cols) && IsMatrix(transform(A), |A|, cols)
    ensures |A| == 0 ==> r == Err(Overflow)
    ensures |A| > 0 ==> r == Ok(inverse(transform(A)))
  {
    var pieces := Forward2D(A, cols, levels, transform);
    if pieces.Err? {
      return Err(pieces.error);
    }
    var C := pieces.value;
    var N, M, n := |A|, cols, Levels2D(|A|, cols, levels);
    var T := transform(A);
    assert CopiedDims(C) == ForwardDims(N, M, n);
    var last := C[n];
    assert last.Length0 == N && last.Length1 == M;
    assert forall i :: 0 <= i < n ==> Fits(C[i], last);
    label before:
    var back := Backward2D(C, inverse);
    assert back.Ok?;
    forall y, x | 0 <= y < N && 0 <= x < M
      ensures last[y, x] == T[y][x]
    {
      OwnerCellIsTransform(T, N, M, n, y, x);
      var i := Owner(ForwardDims(N, M, n), y, x, 0);
      assert last[y, x] == old@before(C[i][y, x]);
    }
    assert Cells(last) == T by {
      forall y | 0 <= y < N
        ensures Cells(last)[y] == T[y]
      {
      }
    }
    r := back;
  }
}
