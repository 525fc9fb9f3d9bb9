/** Transposition of a 64x64 matrix by blocks of 8x8, each of which parks half of its upper rows in the
    place of others. */
module Transpose {

  const N: nat := 64

  /** B is the transpose of A in rows r0 up to r1 and columns c0 up to c1. */
  ghost predicate TransposedIn(A: array2<int>, B: array2<int>, r0: int, r1: int, c0: int, c1: int)
    reads A, B
  {
    forall r, c :: r0 <= r < r1 && c0 <= c < c1 && 0 <= r < B.Length0 && 0 <= c < B.Length1 && c < A.Length0 && r < A.Length1
      ==> B[r, c] == A[c, r]
  }

  ghost predicate Transposed(A: array2<int>, B: array2<int>)
    reads A, B
  {
    && B.Length0 == A.Length1 && B.Length1 == A.Length0
    && forall r, c :: 0 <= r < B.Length0 && 0 <= c < B.Length1 ==> B[r, c] == A[c, r]
  }

  predicate Square(A: array2<int>) { A.Length0 == N && A.Length1 == N }

  /** After the first pass over a block: rows r0 up to r1 have their elements in columns c0 up to c1, and four
      columns to the right the elements that belong into these columns four rows below. */
  ghost predicate Parked(A: array2<int>, B: array2<int>, r0: int, r1: int, i: int, c0: int, c1: int)
    requires Square(A) && Square(B) && 0 <= i <= N - 8 && 0 <= r0 <= r1 <= N - 4 && i <= c0 <= c1 <= i + 4
    reads A, B
  {
    && (forall r, c {:trigger B[r, c]} :: r0 <= r < r1 && c0 <= c < c1 ==> B[r, c] == A[c, r])
    && (forall r, c {:trigger B[r, c]} :: r0 <= r < r1 && c0 + 4 <= c < c1 + 4 ==> B[r, c] == A[c - 4, r + 4])
  }

  predicate InBlock(r: int, c: int, j: int, i: int) {
    j <= r < j + 8 && i <= c < i + 8
  }

  /** Nothing outside of the block at row j and column i has changed. */
  twostate predicate OnlyBlock(B: array2<int>, j: int, i: int)
    reads B
  {
    forall r, c :: 0 <= r < B.Length0 && 0 <= c < B.Length1 && !InBlock(r, c, j, i) ==> B[r, c] == old(B[r, c])
  }

  /** Of the eight elements of row k of A from column j on, the first four go to column k of B and the others
      to column k + 4, both in rows j to j + 3. */
  method ParkColumn(A: array2<int>, B: array2<int>, j: int, k: int)
    requires Square(A) && Square(B) && A != B && 0 <= j <= N - 8 && 0 <= k <= N - 5
    modifies B
    ensures forall r, c {:trigger B[r, c]} :: j <= r < j + 4 && c == k ==> B[r, c] == A[k, r]
    ensures forall r, c {:trigger B[r, c]} :: j <= r < j + 4 && c == k + 4 ==> B[r, c] == A[k, r + 4]
    ensures forall r, c :: 0 <= r < N && 0 <= c < N && !(j <= r < j + 4 && (c == k || c == k + 4)) ==>
      B[r, c] == old(B[r, c])
  {
    B[j, k] := A[k, j];
    B[j + 1, k] := A[k, j + 1];
    B[j + 2, k] := A[k, j + 2];
    B[j + 3, k] := A[k, j + 3];
    B[j, k + 4] := A[k, j + 4];
    B[j + 1, k + 4] := A[k, j + 5];
    B[j + 2, k + 4] := A[k, j + 6];
    B[j + 3, k + 4] := A[k, j + 7];
  }

  /** The upper rows of a block: left halves in place, right halves parked. */
  method Park(A: array2<int>, B: array2<int>, j: int, i: int)
    requires Square(A) && Square(B) && A != B && 0 <= j <= N - 8 && 0 <= i <= N - 8
    modifies B
    ensures Parked(A, B, j, j + 4, i, i, i + 4) && OnlyBlock(B, j, i)
  {
    for k := i to i + 4
      invariant Parked(A, B, j, j + 4, i, i, k)
      invariant OnlyBlock(B, j, i)
    {
      ParkColumn(A, B, j, k);
    }
  }

  /** Row k gives what is parked there to row k + 4 and gets its own right half. */
  method UnparkRow(A: array2<int>, B: array2<int>, k: int, i: int)
    requires Square(A) && Square(B) && A != B && 0 <= k <= N - 5 && 0 <= i <= N - 8
    modifies B
    ensures forall r, c {:trigger B[r, c]} :: r == k + 4 && i <= c < i + 4 ==> B[r, c] == old(B[k, c + 4])
    ensures forall r, c {:trigger B[r, c]} :: (r == k || r == k + 4) && i + 4 <= c < i + 8 ==> B[r, c] == A[c, r]
    ensures forall r, c :: 0 <= r < N && 0 <= c < N && !(r == k && i + 4 <= c < i + 8) && !(r == k + 4 && i <= c < i + 8) ==>
      B[r, c] == old(B[r, c])
  {
    var tmp1, tmp2, tmp3, tmp4 := B[k, i + 4], B[k, i + 5], B[k, i + 6], B[k, i + 7];
    PutFour(B, k, i + 4, A[i + 4, k], A[i + 5, k], A[i + 6, k], A[i + 7, k]);
    var tmp5, tmp6, tmp7, tmp8 := A[i + 4, k + 4], A[i + 5, k + 4], A[i + 6, k + 4], A[i + 7, k + 4];
    PutFour(B, k + 4, i, tmp1, tmp2, tmp3, tmp4);
    PutFour(B, k + 4, i + 4, tmp5, tmp6, tmp7, tmp8);
  }

  method PutFour(B: array2<int>, r: int, c: int, v0: int, v1: int, v2: int, v3: int)
    requires 0 <= r < B.Length0 && 0 <= c && c + 3 < B.Length1
    modifies B
    ensures B[r, c] == v0 && B[r, c + 1] == v1 && B[r, c + 2] == v2 && B[r, c + 3] == v3
    ensures forall p, q :: 0 <= p < B.Length0 && 0 <= q < B.Length1 && !(p == r && c <= q < c + 4) ==>
      B[p, q] == old(B[p, q])
  {
    B[r, c] := v0;
    B[r, c + 1] := v1;
    B[r, c + 2] := v2;
    B[r, c + 3] := v3;
  }

  /** Brings what is parked in the upper rows down and puts the rest of the block in place. */
  method Unpark(A: array2<int>, B: array2<int>, j: int, i: int)
    requires Square(A) && Square(B) && A != B && 0 <= j <= N - 8 && 0 <= i <= N - 8
    requires Parked(A, B, j, j + 4, i, i, i + 4)
    modifies B
    ensures TransposedIn(A, B, j, j + 8, i, i + 8) && OnlyBlock(B, j, i)
  {
    for k := j to j + 4
      invariant Parked(A, B, k, j + 4, i, i, i + 4)
      invariant TransposedIn(A, B, j, k, i, i + 8) && TransposedIn(A, B, j + 4, k + 4, i, i + 8)
      invariant OnlyBlock(B, j, i)
    {
      UnparkRow(A, B, k, i);
    }
  }

  method TransposeSubmit(A: array2<int>, B: array2<int>)
    requires Square(A) && Square(B) && A != B
    modifies B
    ensures Transposed(A, B)
  {
    var j := 0;
    while j < N
      invariant 0 <= j <= N && j % 8 == 0
      invariant TransposedIn(A, B, 0, j, 0, N)
    {
      var i := 0;
      while i < N
        invariant 0 <= i <= N && i % 8 == 0
        invariant TransposedIn(A, B, 0, j, 0, N) && TransposedIn(A, B, j, j + 8, 0, i)
      {
        label before:
        Park(A, B, j, i);
        Unpark(A, B, j, i);
        assert OnlyBlock@before(B, j, i);
        i := i + 8;
      }
      j := j + 8;
    }
  }

  /** The plain transposition, row by row. */
  method Trans(A: array2<int>, B: array2<int>)
    requires B.Length0 == A.Length1 && B.Length1 == A.Length0 && A != B
    modifies B
    ensures Transposed(A, B)
  {
    for i := 0 to A.Length0
      invariant TransposedIn(A, B, 0, A.Length1, 0, i)
    {
      for j := 0 to A.Length1
        invariant TransposedIn(A, B, 0, A.Length1, 0, i) && TransposedIn(A, B, 0, j, i, i + 1)
      {
        B[j, i] := A[i, j];
      }
    }
  }

  method IsTranspose(A: array2<int>, B: array2<int>) returns (ok: bool)
    requires B.Length0 == A.Length1 && B.Length1 == A.Length0
    ensures ok <==> Transposed(A, B)
  {
    for i := 0 to A.Length0
      invariant TransposedIn(A, B, 0, A.Length1, 0, i)
    {
      for j := 0 to A.Length1
        invariant TransposedIn(A, B, 0, A.Length1, 0, i) && TransposedIn(A, B, 0, j, i, i + 1)
      {
        if A[i, j] != B[j, i] {
          return false;
        }
      }
    }
    return true;
  }
}
