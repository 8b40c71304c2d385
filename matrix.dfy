/**
  The encoder's Matrix: a two-dimensional array of entries with a height
  (first index h) and a width (second index w), elementwise and matrix
  arithmetic that refuses operands of the wrong shape, transposition,
  clamping to bytes and the zig-zag read-out of an 8x8 block.

  Entries are exact reals. Every operation fills a fresh array with nested
  loops and is proved against a function on Grid, the value of a matrix.
*/
module Matrices {
  import opened Outcomes
  import opened ZigZag

  newtype byte = x: int | 0 <= x < 256

  /** The value of a matrix: its width and its rows. */
  datatype Grid = Grid(width: nat, rows: seq<seq<real>>)

  /** Every row has the grid's width. */
  predicate Shaped(g: Grid) {
    forall h :: 0 <= h < |g.rows| ==> |g.rows[h]| == g.width
  }

  predicate SameShape(a: Grid, b: Grid) {
    |a.rows| == |b.rows| && a.width == b.width
  }

  /** Two grids of one shape with the same entries are the same grid. */
  lemma SameEntries(a: Grid, b: Grid)
    requires Shaped(a) && Shaped(b) && SameShape(a, b)
    requires forall h, w :: 0 <= h < |a.rows| && 0 <= w < a.width ==> a.rows[h][w] == b.rows[h][w]
    ensures a == b
  {
    forall h | 0 <= h < |a.rows|
      ensures a.rows[h] == b.rows[h]
    {
    }
  }

  /** The grid with entry x at (h, w) and the entries of g elsewhere. */
  function Update(g: Grid, h: nat, w: nat, x: real): (r: Grid)
    requires Shaped(g) && h < |g.rows| && w < g.width
    ensures Shaped(r) && SameShape(r, g)
    ensures r.rows[h][w] == x
    ensures forall h', w' :: 0 <= h' < |g.rows| && 0 <= w' < g.width && (h', w') != (h, w) ==> r.rows[h'][w'] == g.rows[h'][w']
  {
    Grid(g.width, g.rows[h := g.rows[h][w := x]])
  }

  /** The h x w grid of zeros. */
  function Zeros(height: nat, width: nat): (r: Grid)
    ensures Shaped(r) && |r.rows| == height && r.width == width
    ensures forall h, w :: 0 <= h < height && 0 <= w < width ==> r.rows[h][w] == 0.0
  {
    Grid(width, seq(height, _ => seq(width, _ => 0.0)))
  }

  /** The transpose: width and height exchanged, entry (w, h) taken from
      (h, w). */
  function Transpose(g: Grid): (t: Grid)
    requires Shaped(g)
    ensures Shaped(t) && |t.rows| == g.width && t.width == |g.rows|
    ensures forall w, h :: 0 <= w < g.width && 0 <= h < |g.rows| ==> t.rows[w][h] == g.rows[h][w]
  {
    Grid(|g.rows|, seq(g.width, w requires 0 <= w < g.width => seq(|g.rows|, h requires 0 <= h < |g.rows| => g.rows[h][w])))
  }

  /** Transposing twice gives the matrix back. */
  lemma TransposeTwice(g: Grid)
    requires Shaped(g)
    ensures Transpose(Transpose(g)) == g
  {
    SameEntries(Transpose(Transpose(g)), g);
  }

  /** The four elementwise operators. */
  datatype Op = Plus | Minus | Times | Over

  function Apply(op: Op, x: real, y: real): real
    requires op == Over ==> y != 0.0
  {
    match op
    case Plus => x + y
    case Minus => x - y
    case Times => x * y
    case Over => x / y
  }

  predicate NoZero(g: Grid) {
    forall h, w :: 0 <= h < |g.rows| && 0 <= w < |g.rows[h]| ==> g.rows[h][w] != 0.0
  }

  /** a op b entry by entry; operands of different shapes are refused. */
  function Elementwise(op: Op, a: Grid, b: Grid): (r: Result<Grid>)
    requires Shaped(a) && Shaped(b)
    requires op == Over && SameShape(a, b) ==> NoZero(b)
    ensures r.Success? <==> SameShape(a, b)
    ensures r.Failure? ==> r.error == DimensionMismatch
    ensures r.Success? ==> Shaped(r.value) && SameShape(r.value, a)
    ensures r.Success? ==> forall h, w :: 0 <= h < |a.rows| && 0 <= w < a.width ==>
      r.value.rows[h][w] == Apply(op, a.rows[h][w], b.rows[h][w])
  {
    if SameShape(a, b) then
      Success(Grid(a.width, seq(|a.rows|, h requires 0 <= h < |a.rows| =>
        seq(a.width, w requires 0 <= w < a.width => Apply(op, a.rows[h][w], b.rows[h][w])))))
    else
      Failure(DimensionMismatch)
  }

  /** A grid whose entries are the dot products is the product. */
  lemma ProductEntries(a: Grid, b: Grid, p: Grid)
    requires Shaped(a) && Shaped(b) && Shaped(p) && SameShape(a, b) && Square(a) && SameShape(p, a)
    requires forall h, w :: 0 <= h < |a.rows| && 0 <= w < a.width ==> p.rows[h][w] == Dot(a, b, h, w, a.width)
    ensures Product(a, b) == Success(p)
  {
    SameEntries(Product(a, b).value, p);
  }

  /** Subtracting b undoes adding b. */
  lemma SubtractUndoesAdd(a: Grid, b: Grid)
    requires Shaped(a) && Shaped(b) && SameShape(a, b)
    ensures Elementwise(Plus, a, b).Success?
    ensures Elementwise(Minus, Elementwise(Plus, a, b).value, b) == Success(a)
  {
    SameEntries(Elementwise(Minus, Elementwise(Plus, a, b).value, b).value, a);
  }

  /** Dividing entry by entry undoes multiplying entry by entry. */
  lemma DivideUndoesMultiply(a: Grid, b: Grid)
    requires Shaped(a) && Shaped(b) && SameShape(a, b) && NoZero(b)
    ensures Elementwise(Times, a, b).Success?
    ensures Elementwise(Over, Elementwise(Times, a, b).value, b) == Success(a)
  {
    SameEntries(Elementwise(Over, Elementwise(Times, a, b).value, b).value, a);
  }

  /** g op s entry by entry. */
  function Scalar(op: Op, g: Grid, s: real): (r: Grid)
    requires Shaped(g) && (op == Over ==> s != 0.0)
    ensures Shaped(r) && SameShape(r, g)
    ensures forall h, w :: 0 <= h < |g.rows| && 0 <= w < g.width ==> r.rows[h][w] == Apply(op, g.rows[h][w], s)
  {
    Grid(g.width, seq(|g.rows|, h requires 0 <= h < |g.rows| =>
      seq(g.width, w requires 0 <= w < g.width => Apply(op, g.rows[h][w], s))))
  }

  /** Subtracting a scalar undoes adding it, and dividing by a non-zero
      scalar undoes multiplying by it. */
  lemma ScalarInverses(g: Grid, s: real)
    requires Shaped(g)
    ensures Scalar(Minus, Scalar(Plus, g, s), s) == g
    ensures s != 0.0 ==> Scalar(Over, Scalar(Times, g, s), s) == g
  {
    SameEntries(Scalar(Minus, Scalar(Plus, g, s), s), g);
    if s != 0.0 {
      SameEntries(Scalar(Over, Scalar(Times, g, s), s), g);
    }
  }

  /** The sum of a[h][k] * b[k][w] for k below n. */
  function Dot(a: Grid, b: Grid, h: nat, w: nat, n: nat): real
    requires Shaped(a) && Shaped(b) && h < |a.rows| && w < b.width && n <= a.width && n <= |b.rows|
  {
    if n == 0 then 0.0 else Dot(a, b, h, w, n - 1) + a.rows[h][n - 1] * b.rows[n - 1][w]
  }

  predicate Square(g: Grid) {
    |g.rows| == g.width
  }

  /** The matrix product, defined only for two square matrices of one size. */
  function Product(a: Grid, b: Grid): (r: Result<Grid>)
    requires Shaped(a) && Shaped(b)
    ensures r.Success? <==> SameShape(a, b) && Square(a)
    ensures r.Failure? ==> r.error == DimensionMismatch
    ensures r.Success? ==> Shaped(r.value) && SameShape(r.value, a)
    ensures r.Success? ==> forall h, w :: 0 <= h < |a.rows| && 0 <= w < a.width ==>
      r.value.rows[h][w] == Dot(a, b, h, w, a.width)
  {
    if SameShape(a, b) && Square(a) then
      var n := |a.rows|;
      Success(Grid(n, seq(n, h requires 0 <= h < n => seq(n, w requires 0 <= w < n => Dot(a, b, h, w, n)))))
    else
      Failure(DimensionMismatch)
  }

  /** The n x n identity matrix. */
  function Identity(n: nat): (r: Grid)
    ensures Shaped(r) && |r.rows| == n && r.width == n
    ensures forall h, w :: 0 <= h < n && 0 <= w < n ==> r.rows[h][w] == if h == w then 1.0 else 0.0
  {
    Grid(n, seq(n, h => seq(n, w => if h == w then 1.0 else 0.0)))
  }

  lemma {:induction false} DotIdentityLeft(g: Grid, h: nat, w: nat, k: nat)
    requires Shaped(g) && Square(g) && h < |g.rows| && w < g.width && k <= g.width
    ensures Dot(Identity(|g.rows|), g, h, w, k) == if h < k then g.rows[h][w] else 0.0
  {
    if k > 0 {
      DotIdentityLeft(g, h, w, k - 1);
    }
  }

  lemma {:induction false} DotIdentityRight(g: Grid, h: nat, w: nat, k: nat)
    requires Shaped(g) && Square(g) && h < |g.rows| && w < g.width && k <= g.width
    ensures Dot(g, Identity(|g.rows|), h, w, k) == if w < k then g.rows[h][w] else 0.0
  {
    if k > 0 {
      DotIdentityRight(g, h, w, k - 1);
    }
  }

  /** The identity is neutral for the product on both sides. */
  lemma ProductIdentity(g: Grid)
    requires Shaped(g) && Square(g)
    ensures Product(Identity(|g.rows|), g) == Success(g)
    ensures Product(g, Identity(|g.rows|)) == Success(g)
  {
    var n := |g.rows|;
    forall h, w | 0 <= h < n && 0 <= w < n
      ensures Dot(Identity(n), g, h, w, n) == g.rows[h][w]
      ensures Dot(g, Identity(n), h, w, n) == g.rows[h][w]
    {
      DotIdentityLeft(g, h, w, n);
      DotIdentityRight(g, h, w, n);
    }
    SameEntries(Product(Identity(n), g).value, g);
    SameEntries(Product(g, Identity(n)).value, g);
  }

  /** The byte an entry becomes: 0 below zero, 255 above 255, and the
      entry truncated to an integer in between. */
  function ToByte(x: real): (b: byte)
    ensures x < 0.0 ==> b == 0
    ensures x > 255.0 ==> b == 255
    ensures 0.0 <= x <= 255.0 ==> b as real <= x < b as real + 1.0
  {
    if x < 0.0 then 0 else if x > 255.0 then 255 else x.Floor as byte
  }

  /** Every cell lies inside g. */
  predicate Fits(g: Grid, cells: seq<Cell>) {
    forall p :: 0 <= p < |cells| ==> cells[p].row < |g.rows| && cells[p].col < g.width
  }

  /** The entries of g at the given cells, in order. */
  function Sample(g: Grid, cells: seq<Cell>): (r: seq<real>)
    requires Shaped(g) && Fits(g, cells)
    ensures |r| == |cells|
    ensures forall p :: 0 <= p < |cells| ==> r[p] == g.rows[cells[p].row][cells[p].col]
  {
    seq(|cells|, p requires 0 <= p < |cells| => g.rows[cells[p].row][cells[p].col])
  }

  /** A matrix: the source's struct over a double[,] array. Copies of the
      struct share the array, so the model keeps it as an object whose
      entries the indexer's setter changes in place. */
  class Matrix {
    const data: array2<real>

    /** Wraps the given array; the matrix and the caller share it. */
    constructor (init: array2<real>)
      ensures data == init
    {
      data := init;
    }

    /** A fresh h x w matrix of zeros. */
    constructor Zero(h: nat, w: nat)
      ensures fresh(data)
      ensures Value() == Zeros(h, w)
    {
      data := new real[h, w]((_, _) => 0.0);
      new;
      SameEntries(Value(), Zeros(h, w));
    }

    /** The number of rows of the matrix's value. */
    function Height(): (n: nat)
      reads data
      ensures n == |Value().rows|
    {
      data.Length0
    }

    /** The length of every row of the matrix's value. */
    function Width(): (n: nat)
      reads data
      ensures n == Value().width && forall h :: 0 <= h < |Value().rows| ==> |Value().rows[h]| == n
    {
      data.Length1
    }

    /** The matrix's value. */
    function Value(): (g: Grid)
      reads data
      ensures Shaped(g) && |g.rows| == data.Length0 && g.width == data.Length1
      ensures forall h, w :: 0 <= h < data.Length0 && 0 <= w < data.Length1 ==> g.rows[h][w] == data[h, w]
    {
      Grid(data.Length1, seq(data.Length0, h requires 0 <= h < data.Length0 reads data =>
        seq(data.Length1, w requires 0 <= w < data.Length1 reads data => data[h, w])))
    }

    /** The indexer's getter. The source's range check discards its result,
        so an index out of range is refused only by the array itself. */
    function Get(h: nat, w: nat): (x: real)
      reads data
      requires h < Height() && w < Width()
      ensures x == Value().rows[h][w]
    {
      data[h, w]
    }

    /** The indexer's setter: entry (h, w) becomes x, nothing else changes. */
    method Set(h: nat, w: nat, x: real)
      requires h < Height() && w < Width()
      modifies data
      ensures Value() == Update(old(Value()), h, w, x)
    {
      data[h, w] := x;
      SameEntries(Value(), Update(old(Value()), h, w, x));
    }

    method GetTranspose() returns (t: Matrix)
      ensures fresh(t) && fresh(t.data)
      ensures t.Value() == Transpose(Value())
    {
      var d := new real[Width(), Height()];
      for h := 0 to Height()
        invariant forall h', w' :: 0 <= h' < h && 0 <= w' < Width() ==> d[w', h'] == data[h', w']
      {
        for w := 0 to Width()
          invariant forall h', w' :: 0 <= h' < h && 0 <= w' < Width() ==> d[w', h'] == data[h', w']
          invariant forall w' :: 0 <= w' < w ==> d[w', h] == data[h, w']
        {
          d[w, h] := data[h, w];
        }
      }
      t := new Matrix(d);
      SameEntries(t.Value(), Transpose(Value()));
    }

    /** Every entry clamped to a byte. */
    method GetBytes() returns (b: array2<byte>)
      ensures fresh(b) && b.Length0 == Height() && b.Length1 == Width()
      ensures forall h, w :: 0 <= h < Height() && 0 <= w < Width() ==> b[h, w] == ToByte(data[h, w])
    {
      b := new byte[Height(), Width()];
      for h := 0 to Height()
        invariant forall h', w' :: 0 <= h' < h && 0 <= w' < Width() ==> b[h', w'] == ToByte(data[h', w'])
      {
        for w := 0 to Width()
          invariant forall h', w' :: 0 <= h' < h && 0 <= w' < Width() ==> b[h', w'] == ToByte(data[h', w'])
          invariant forall w' :: 0 <= w' < w ==> b[h, w'] == ToByte(data[h, w'])
        {
          b[h, w] := ToByte(data[h, w]);
        }
      }
    }

    /** The 64 entries of the top-left 8x8 block in zig-zag order. The
        source does not check the shape; a smaller matrix would make the
        array access fail. */
    method ZigZagRead() returns (ans: seq<real>)
      requires Height() >= BlockSize && Width() >= BlockSize
      ensures |ans| == 64
      ensures Fits(Value(), ZigZagOrder())
      ensures ans == Sample(Value(), ZigZagOrder())
    {
      ans := [];
      for i := 0 to Diagonals
        invariant Fits(Value(), ScanPrefix(i)) && ans == Sample(Value(), ScanPrefix(i))
      {
        ans := ReadDiagonal(i, ans);
        SampleAppend(Value(), ScanPrefix(i), Diagonal(i));
      }
      ZigZagLength();
    }

    /** One pass of the zig-zag read's outer loop: the entries of diagonal
        i appended to those read so far. */
    method ReadDiagonal(i: nat, before: seq<real>) returns (ans: seq<real>)
      requires Height() >= BlockSize && Width() >= BlockSize
      ensures Fits(Value(), Diagonal(i))
      ensures ans == before + Sample(Value(), Diagonal(i))
    {
      ghost var g := Value();
      ans := before;
      for j := 0 to BlockSize
        invariant Fits(g, DiagonalPrefix(i, j))
        invariant ans == before + Sample(g, DiagonalPrefix(i, j))
      {
        var k := i - j;
        if k < 0 || 8 <= k {
          SkipStep(i, j);
          continue;
        }
        var h, w := j, k;
        if i % 2 == 0 {
          h, w := w, h;
        }
        ReadStep(g, i, j, h, w);
        ans := ans + [data[h, w]];
      }
    }

    /** The elementwise operators +, -, / and MultiplyElements: a fresh
        matrix of a op b when the shapes agree, an error otherwise. */
    static method Combine(op: Op, a: Matrix, b: Matrix) returns (r: Result<Matrix>)
      requires op == Over && SameShape(a.Value(), b.Value()) ==> NoZero(b.Value())
      ensures r.Success? <==> SameShape(a.Value(), b.Value())
      ensures r.Failure? ==> r.error == DimensionMismatch
      ensures r.Success? ==> fresh(r.value) && fresh(r.value.data)
      ensures r.Success? ==> r.value.Value() == Elementwise(op, a.Value(), b.Value()).value
    {
      if !(a.Height() == b.Height() && a.Width() == b.Width()) {
        return Failure(DimensionMismatch);
      }
      var d := new real[a.Height(), a.Width()];
      for h := 0 to a.Height()
        invariant forall h', w' :: 0 <= h' < h && 0 <= w' < a.Width() ==> d[h', w'] == Apply(op, a.data[h', w'], b.data[h', w'])
      {
        for w := 0 to a.Width()
          invariant forall h', w' :: 0 <= h' < h && 0 <= w' < a.Width() ==> d[h', w'] == Apply(op, a.data[h', w'], b.data[h', w'])
          invariant forall w' :: 0 <= w' < w ==> d[h, w'] == Apply(op, a.data[h, w'], b.data[h, w'])
        {
          assert op == Over ==> b.Value().rows[h][w] != 0.0;
          d[h, w] := Apply(op, a.data[h, w], b.data[h, w]);
        }
      }
      var m := new Matrix(d);
      SameEntries(m.Value(), Elementwise(op, a.Value(), b.Value()).value);
      return Success(m);
    }

    /** The matrix product, for two square matrices of one size only. */
    static method Multiply(a: Matrix, b: Matrix) returns (r: Result<Matrix>)
      ensures r.Success? <==> SameShape(a.Value(), b.Value()) && Square(a.Value())
      ensures r.Failure? ==> r.error == DimensionMismatch
      ensures r.Success? ==> fresh(r.value) && fresh(r.value.data)
      ensures r.Success? ==> r.value.Value() == Product(a.Value(), b.Value()).value
    {
      if !(a.Height() == b.Height() && a.Width() == b.Width() && a.Height() == a.Width()) {
        return Failure(DimensionMismatch);
      }
      var n := a.Height();
      var d := new real[n, n];
      for h := 0 to n
        invariant forall h', w' :: 0 <= h' < h && 0 <= w' < n ==> d[h', w'] == Dot(a.Value(), b.Value(), h', w', n)
      {
        ProductRow(a, b, d, h);
      }
      var m := new Matrix(d);
      ProductEntries(a.Value(), b.Value(), m.Value());
      return Success(m);
    }

    /** Row h of the product, written into d. */
    static method ProductRow(a: Matrix, b: Matrix, d: array2<real>, h: nat)
      requires SameShape(a.Value(), b.Value()) && Square(a.Value())
      requires d != a.data && d != b.data
      requires d.Length0 == a.Height() && d.Length1 == a.Width() && h < a.Height()
      modifies d
      ensures forall h', w' :: 0 <= h' < d.Length0 && 0 <= w' < d.Length1 ==>
        d[h', w'] == if h' == h then Dot(a.Value(), b.Value(), h, w', a.Width()) else old(d[h', w'])
    {
      for w := 0 to a.Width()
        invariant forall h', w' :: 0 <= h' < d.Length0 && 0 <= w' < d.Length1 ==>
          d[h', w'] == if h' == h && w' < w then Dot(a.Value(), b.Value(), h, w', a.Width()) else old(d[h', w'])
      {
        var temp := RowTimesColumn(a, b, h, w);
        d[h, w] := temp;
      }
    }

    /** Entry (h, w) of the product: row h of a times column w of b, the
        innermost loop of the product. */
    static method RowTimesColumn(a: Matrix, b: Matrix, h: nat, w: nat) returns (temp: real)
      requires SameShape(a.Value(), b.Value()) && Square(a.Value())
      requires h < a.Height() && w < a.Width()
      ensures temp == Dot(a.Value(), b.Value(), h, w, a.Width())
    {
      temp := 0.0;
      for k := 0 to a.Height()
        invariant temp == Dot(a.Value(), b.Value(), h, w, k)
      {
        temp := temp + a.data[h, k] * b.data[k, w];
      }
    }

    /** The scalar operators: a fresh matrix of every entry op s. */
    static method CombineScalar(op: Op, a: Matrix, s: real) returns (m: Matrix)
      requires op == Over ==> s != 0.0
      ensures fresh(m) && fresh(m.data)
      ensures m.Value() == Scalar(op, a.Value(), s)
    {
      var d := new real[a.Height(), a.Width()];
      for h := 0 to a.Height()
        invariant forall h', w' :: 0 <= h' < h && 0 <= w' < a.Width() ==> d[h', w'] == Apply(op, a.data[h', w'], s)
      {
        for w := 0 to a.Width()
          invariant forall h', w' :: 0 <= h' < h && 0 <= w' < a.Width() ==> d[h', w'] == Apply(op, a.data[h', w'], s)
          invariant forall w' :: 0 <= w' < w ==> d[h, w'] == Apply(op, a.data[h, w'], s)
        {
          d[h, w] := Apply(op, a.data[h, w], s);
        }
      }
      m := new Matrix(d);
      SameEntries(m.Value(), Scalar(op, a.Value(), s));
    }

    /** ==: false for different shapes, otherwise true exactly when every
        entry agrees; that is, equality of the two values. */
    static method Equal(a: Matrix, b: Matrix) returns (eq: bool)
      ensures eq <==> a.Value() == b.Value()
    {
      if !(a.Height() == b.Height() && a.Width() == b.Width()) {
        return false;
      }
      for h := 0 to a.Height()
        invariant forall h', w' :: 0 <= h' < h && 0 <= w' < a.Width() ==> a.data[h', w'] == b.data[h', w']
      {
        for w := 0 to a.Width()
          invariant forall h', w' :: 0 <= h' < h && 0 <= w' < a.Width() ==> a.data[h', w'] == b.data[h', w']
          invariant forall w' :: 0 <= w' < w ==> a.data[h, w'] == b.data[h, w']
        {
          if a.data[h, w] != b.data[h, w] {
            assert a.Value().rows[h][w] != b.Value().rows[h][w];
            return false;
          }
        }
      }
      SameEntries(a.Value(), b.Value());
      return true;
    }

    /** !=: the negation of ==. */
    static method NotEqual(a: Matrix, b: Matrix) returns (ne: bool)
      ensures ne <==> a.Value() != b.Value()
    {
      var eq := Equal(a, b);
      ne := !eq;
    }
  }

  /** An offset outside the block adds no cell to the diagonal. */
  lemma SkipStep(i: nat, j: nat)
    requires i - j < 0 || 8 <= i - j
    ensures DiagonalPrefix(i, j + 1) == DiagonalPrefix(i, j)
  {
    DiagonalPrefixStep(i, j);
  }

  /** An offset inside the block adds the cell (h, w) the read-out visits. */
  lemma ReadStep(g: Grid, i: nat, j: nat, h: nat, w: nat)
    requires Shaped(g) && |g.rows| >= BlockSize && g.width >= BlockSize
    requires Fits(g, DiagonalPrefix(i, j))
    requires 0 <= i - j < 8 && j < 8
    requires if i % 2 == 0 then h == i - j && w == j else h == j && w == i - j
    ensures Fits(g, DiagonalPrefix(i, j + 1))
    ensures Sample(g, DiagonalPrefix(i, j + 1)) == Sample(g, DiagonalPrefix(i, j)) + [g.rows[h][w]]
  {
    DiagonalPrefixStep(i, j);
    SampleSnoc(g, DiagonalPrefix(i, j), Cell(h, w));
  }

  lemma SampleAppend(g: Grid, xs: seq<Cell>, ys: seq<Cell>)
    requires Shaped(g) && Fits(g, xs) && Fits(g, ys)
    ensures Fits(g, xs + ys)
    ensures Sample(g, xs + ys) == Sample(g, xs) + Sample(g, ys)
  {
  }

  lemma SampleSnoc(g: Grid, cells: seq<Cell>, c: Cell)
    requires Shaped(g) && Fits(g, cells)
    requires c.row < |g.rows| && c.col < g.width
    ensures Fits(g, cells + [c])
    ensures Sample(g, cells + [c]) == Sample(g, cells) + [g.rows[c.row][c.col]]
  {
  }
}
