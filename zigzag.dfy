/**
  The zig-zag order in which a JPEG encoder reads the 64 coefficients of an
  8x8 block (ITU-T T.81, Figure 5 and Figure A.6). The order is defined
  the way the encoder's double loop produces it: anti-diagonal i (the
  cells with row + col == i) for i from 0 to 15, and within a diagonal the
  offsets j from 0 to 7, with row j and column i - j on odd diagonals and
  the two swapped on even ones.
*/
module ZigZag {

  /** The side of a block. */
  const BlockSize: nat := 8

  /** The number of diagonals the outer loop runs over, 0 .. 15. */
  const Diagonals: nat := 16

  /** A cell of a block: its row (the first index) and column. */
  datatype Cell = Cell(row: nat, col: nat)

  /** The diagonal a cell lies on. */
  function Diag(c: Cell): nat {
    c.row + c.col
  }

  predicate InBlock(c: Cell) {
    c.row < 8 && c.col < 8
  }

  /** The cell visited at offset j of diagonal i, once i - j is known to be
      a valid index. */
  function Visit(i: nat, j: nat): (c: Cell)
    requires j <= i < j + 8
    ensures Diag(c) == i
    ensures i % 2 == 1 ==> c.row == j
    ensures i % 2 == 0 ==> c.col == j
  {
    if i % 2 == 0 then Cell(i - j, j) else Cell(j, i - j)
  }

  /** The smallest offset whose cell on diagonal i is in the block. */
  function Lo(i: nat): nat {
    if i < 8 then 0 else i - 7
  }

  /** How many offsets below n give a cell of diagonal i in the block. */
  function Span(i: nat, n: nat): nat {
    if n <= Lo(i) then 0 else (if n < i + 1 then n else i + 1) - Lo(i)
  }

  /** The cells the inner loop visits on diagonal i for offsets below n:
      offsets Lo(i), Lo(i) + 1, ..., those whose partner index i - j lies
      in 0..7. */
  function DiagonalPrefix(i: nat, n: nat): (d: seq<Cell>)
    ensures |d| == Span(i, n)
  {
    seq(Span(i, n), t requires 0 <= t < Span(i, n) => Visit(i, Lo(i) + t))
  }

  /** All of diagonal i, as the inner loop (offsets 0..7) visits it. */
  function Diagonal(i: nat): seq<Cell> {
    DiagonalPrefix(i, BlockSize)
  }

  /** The t-th cell of diagonal i lies on it, at offset Lo(i) + t: the
      row on odd diagonals, the column on even ones. */
  lemma DiagonalCells(i: nat)
    ensures forall t :: 0 <= t < |Diagonal(i)| ==>
      && Diag(Diagonal(i)[t]) == i
      && (i % 2 == 1 ==> Diagonal(i)[t].row == Lo(i) + t)
      && (i % 2 == 0 ==> Diagonal(i)[t].col == Lo(i) + t)
  {
    forall t | 0 <= t < |Diagonal(i)|
      ensures Diag(Diagonal(i)[t]) == i
      ensures i % 2 == 1 ==> Diagonal(i)[t].row == Lo(i) + t
      ensures i % 2 == 0 ==> Diagonal(i)[t].col == Lo(i) + t
    {
      assert t < Span(i, BlockSize);
      assert Diagonal(i)[t] == Visit(i, Lo(i) + t);
    }
  }

  /** The cells the outer loop has visited after diagonals 0 .. n - 1. */
  function ScanPrefix(n: nat): seq<Cell> {
    if n == 0 then [] else ScanPrefix(n - 1) + Diagonal(n - 1)
  }

  /** The whole scan: diagonals 0 .. 15. */
  function ZigZagOrder(): seq<Cell> {
    ScanPrefix(Diagonals)
  }

  /** The offset at which diagonal i visits c. */
  function Offset(i: nat, c: Cell): nat {
    if i % 2 == 0 then c.col else c.row
  }

  /** One step of the inner loop: offset j is visited exactly when its
      partner index i - j lies in 0..7, and then it is the next cell. */
  lemma DiagonalPrefixStep(i: nat, j: nat)
    ensures DiagonalPrefix(i, j + 1) ==
      DiagonalPrefix(i, j) + (if i - j < 0 || 8 <= i - j then [] else [Visit(i, j)])
  {
  }

  /** Diagonal i visits a cell at most once, and it visits exactly the
      block's cells on diagonal i at offsets below n. */
  lemma {:induction false} DiagonalPrefixCount(i: nat, n: nat, c: Cell)
    requires n <= 8
    ensures multiset(DiagonalPrefix(i, n))[c] == if InBlock(c) && Diag(c) == i && Offset(i, c) < n then 1 else 0
  {
    if n > 0 {
      var j := n - 1;
      DiagonalPrefixCount(i, j, c);
      DiagonalPrefixStep(i, j);
      if !(i - j < 0 || 8 <= i - j) {
        assert Visit(i, j) == c <==> InBlock(c) && Diag(c) == i && Offset(i, c) == j;
      }
    }
  }

  lemma DiagonalCount(i: nat, c: Cell)
    ensures multiset(Diagonal(i))[c] == if InBlock(c) && Diag(c) == i then 1 else 0
  {
    DiagonalPrefixCount(i, BlockSize, c);
  }

  /** After n diagonals every block cell on them has been visited once and
      nothing else has been visited. */
  lemma {:induction false} ScanPrefixCount(n: nat, c: Cell)
    ensures multiset(ScanPrefix(n))[c] == if InBlock(c) && Diag(c) < n then 1 else 0
  {
    if n > 0 {
      ScanPrefixCount(n - 1, c);
      DiagonalCount(n - 1, c);
      assert multiset(ScanPrefix(n)) == multiset(ScanPrefix(n - 1)) + multiset(Diagonal(n - 1));
    }
  }

  /** The scan visits every cell of the 8x8 block exactly once, and no
      cell outside it. */
  lemma ZigZagCoversBlock(c: Cell)
    ensures multiset(ZigZagOrder())[c] == if InBlock(c) then 1 else 0
  {
    ScanPrefixCount(Diagonals, c);
  }

  /** The n-th triangle number 0 + 1 + ... + n. */
  function Triangle(n: nat): nat {
    if n == 0 then 0 else Triangle(n - 1) + n
  }

  /** The diagonals below n <= 8 hold the triangle of Triangle(n) cells in
      the block's top-left corner. */
  lemma {:induction false} ScanPrefixTriangle(n: nat)
    requires n <= 8
    ensures |ScanPrefix(n)| == Triangle(n)
  {
    if n > 0 {
      ScanPrefixTriangle(n - 1);
      assert |Diagonal(n - 1)| == n;
    }
  }

  /** After n >= 8 diagonals, 64 - Triangle(15 - n) cells have been read. */
  lemma {:induction false} ScanPrefixCorner(n: nat)
    requires 8 <= n <= 15
    ensures |ScanPrefix(n)| + Triangle(15 - n) == 64
  {
    if n == 8 {
      ScanPrefixTriangle(8);
      assert Triangle(8) == 36 && Triangle(7) == 28;
    } else {
      ScanPrefixCorner(n - 1);
      assert |Diagonal(n - 1)| == 16 - n;
    }
  }

  /** An 8x8 block yields exactly 64 values. */
  lemma ZigZagLength()
    ensures |ZigZagOrder()| == 64
  {
    ScanPrefixCorner(15);
    assert ZigZagOrder() == ScanPrefix(15) + Diagonal(15);
  }

  lemma DiagonalOnDiagonal(i: nat)
    ensures forall t :: 0 <= t < |Diagonal(i)| ==> Diag(Diagonal(i)[t]) == i
  {
    DiagonalCells(i);
  }

  /** Diagonals are visited in increasing order: the diagonal index never
      decreases along the scan. */
  lemma {:induction false} ScanPrefixSorted(n: nat)
    ensures forall p :: 0 <= p < |ScanPrefix(n)| ==> Diag(ScanPrefix(n)[p]) < n
    ensures forall p, q :: 0 <= p <= q < |ScanPrefix(n)| ==> Diag(ScanPrefix(n)[p]) <= Diag(ScanPrefix(n)[q])
  {
    if n > 0 {
      ScanPrefixSorted(n - 1);
      DiagonalOnDiagonal(n - 1);
      var left := ScanPrefix(n - 1);
      var s := ScanPrefix(n);
      assert forall p :: 0 <= p < |left| ==> s[p] == left[p];
      assert forall p :: |left| <= p < |s| ==> s[p] == Diagonal(n - 1)[p - |left|];
    }
  }

  lemma ZigZagSorted()
    ensures forall p, q :: 0 <= p <= q < |ZigZagOrder()| ==> Diag(ZigZagOrder()[p]) <= Diag(ZigZagOrder()[q])
  {
    ScanPrefixSorted(Diagonals);
  }

  /** The step from one cell to the next on the same diagonal: down and to
      the left on odd diagonals, up and to the right on even ones. */
  predicate Step(a: Cell, b: Cell) {
    if Diag(a) % 2 == 1 then b.row == a.row + 1 && b.col + 1 == a.col
    else b.row + 1 == a.row && b.col == a.col + 1
  }

  lemma DiagonalSteps(i: nat)
    ensures forall t :: 0 <= t < |Diagonal(i)| - 1 ==> Step(Diagonal(i)[t], Diagonal(i)[t + 1])
  {
    DiagonalCells(i);
  }

  /** Along the scan, consecutive cells on the same diagonal follow the
      zig-zag direction of that diagonal. */
  lemma {:induction false} ScanPrefixSteps(n: nat)
    ensures forall p :: 0 <= p < |ScanPrefix(n)| - 1 && Diag(ScanPrefix(n)[p]) == Diag(ScanPrefix(n)[p + 1]) ==>
      Step(ScanPrefix(n)[p], ScanPrefix(n)[p + 1])
  {
    if n > 0 {
      ScanPrefixSteps(n - 1);
      ScanPrefixSorted(n - 1);
      DiagonalOnDiagonal(n - 1);
      DiagonalSteps(n - 1);
      var left := ScanPrefix(n - 1);
      var s := ScanPrefix(n);
      assert forall p :: 0 <= p < |left| ==> s[p] == left[p];
      assert forall p :: |left| <= p < |s| ==> s[p] == Diagonal(n - 1)[p - |left|];
    }
  }

  lemma ZigZagSteps()
    ensures forall p :: 0 <= p < |ZigZagOrder()| - 1 && Diag(ZigZagOrder()[p]) == Diag(ZigZagOrder()[p + 1]) ==>
      Step(ZigZagOrder()[p], ZigZagOrder()[p + 1])
  {
    ScanPrefixSteps(Diagonals);
  }

  lemma {:induction false} ScanPrefixGrows(m: nat, n: nat)
    requires m <= n
    ensures ScanPrefix(m) <= ScanPrefix(n)
  {
    if m < n {
      ScanPrefixGrows(m, n - 1);
    }
  }

  /** The first three diagonals: (0,0); (0,1), (1,0); (2,0), (1,1), (0,2). */
  lemma FirstDiagonals()
    ensures ScanPrefix(3) == [Cell(0, 0), Cell(0, 1), Cell(1, 0), Cell(2, 0), Cell(1, 1), Cell(0, 2)]
  {
    DiagonalCells(0);
    DiagonalCells(1);
    DiagonalCells(2);
    assert Diagonal(0) == [Cell(0, 0)];
    assert Diagonal(1) == [Cell(0, 1), Cell(1, 0)];
    assert Diagonal(2) == [Cell(2, 0), Cell(1, 1), Cell(0, 2)];
  }

  /** The scan starts at the DC cell, goes right, then down-left, then
      down: (0,0), (0,1), (1,0), (2,0). */
  lemma ZigZagStart()
    ensures |ZigZagOrder()| >= 4
    ensures ZigZagOrder()[..4] == [Cell(0, 0), Cell(0, 1), Cell(1, 0), Cell(2, 0)]
  {
    ScanPrefixGrows(3, Diagonals);
    FirstDiagonals();
    var first := ScanPrefix(3);
    assert ZigZagOrder()[..4] == first[..4];
  }

  /** Diagonal 15 lies wholly outside the block, so the last outer
      iteration visits nothing, and the scan ends at (7,7). */
  lemma ZigZagEnd()
    ensures Diagonal(15) == []
    ensures |ZigZagOrder()| > 0 && ZigZagOrder()[|ZigZagOrder()| - 1] == Cell(7, 7)
  {
    DiagonalCells(14);
    assert Diagonal(14) == [Cell(7, 7)];
    assert ZigZagOrder() == ScanPrefix(15) + Diagonal(15);
  }
}
