/** The rectangular matrix: a vector of rows together with the two sizes
    rows and cols, updated in place by +=, scalar *=, matrix *= and
    transpose, and walked in row-major order by its iterator. Entries are
    integers. */
module Matrices {

  /** g has r rows of c entries each. */
  predicate Shape(g: seq<seq<int>>, r: nat, c: nat) {
    |g| == r && forall i :: 0 <= i < r ==> |g[i]| == c
  }

  /** g has at least r rows of at least c entries each: what a loop over
      r x c positions may read. */
  predicate Covers(g: seq<seq<int>>, r: nat, c: nat) {
    |g| >= r && forall i :: 0 <= i < r ==> |g[i]| >= c
  }

  /** Two r x c grids with the same entries are equal. */
  lemma GridExt(g: seq<seq<int>>, h: seq<seq<int>>, r: nat, c: nat)
    requires Shape(g, r, c) && Shape(h, r, c)
    requires forall i, j :: 0 <= i < r && 0 <= j < c ==> g[i][j] == h[i][j]
    ensures g == h
  {
    forall i | 0 <= i < r ensures g[i] == h[i] {
      assert forall j :: 0 <= j < c ==> g[i][j] == h[i][j];
    }
  }

  /** The r x c zero matrix, as std::vector<std::vector<T>>(r, std::vector<T>(c, T())). */
  function Zeros(r: nat, c: nat): (g: seq<seq<int>>)
    ensures Shape(g, r, c) && forall i, j :: 0 <= i < r && 0 <= j < c ==> g[i][j] == 0
  {
    seq(r, i => seq(c, j => 0))
  }

  /** Entrywise sum of the r x c corner of a and b. */
  function Sum(a: seq<seq<int>>, b: seq<seq<int>>, r: nat, c: nat): (s: seq<seq<int>>)
    requires Shape(a, r, c) && Covers(b, r, c)
  {
    seq(r, i requires 0 <= i < r => seq(c, j requires 0 <= j < c => a[i][j] + b[i][j]))
  }

  /** Every entry times k. */
  function Scale(a: seq<seq<int>>, k: int, r: nat, c: nat): (s: seq<seq<int>>)
    requires Shape(a, r, c)
  {
    seq(r, i requires 0 <= i < r => seq(c, j requires 0 <= j < c => a[i][j] * k))
  }

  /** Row i of a times column k of b over the first n positions:
      the sum of a[i][j] * b[j][k] for j < n. */
  function Dot(a: seq<seq<int>>, b: seq<seq<int>>, i: nat, k: nat, n: nat): int
    requires i < |a| && n <= |a[i]| && n <= |b| && forall j :: 0 <= j < n ==> k < |b[j]|
  {
    if n == 0 then 0 else Dot(a, b, i, k, n - 1) + a[i][n - 1] * b[n - 1][k]
  }

  /** The product of the r x n matrix a and the first c columns of b. */
  function Product(a: seq<seq<int>>, b: seq<seq<int>>, r: nat, n: nat, c: nat): (s: seq<seq<int>>)
    requires Shape(a, r, n) && Covers(b, n, c)
  {
    seq(r, i requires 0 <= i < r => seq(c, k requires 0 <= k < c => Dot(a, b, i, k, n)))
  }

  /** The c x r matrix with entry (j, i) equal to entry (i, j) of a. */
  function TransposeOf(a: seq<seq<int>>, r: nat, c: nat): (t: seq<seq<int>>)
    requires Shape(a, r, c)
  {
    seq(c, j requires 0 <= j < c => seq(r, i requires 0 <= i < r => a[i][j]))
  }

  /** The identity matrix of size n. */
  function Identity(n: nat): (g: seq<seq<int>>)
  {
    seq(n, i => seq(n, j => if i == j then 1 else 0))
  }

  /** The entries of g row after row: the order the iterator visits them. */
  function Flatten(g: seq<seq<int>>): (s: seq<int>)
  {
    if |g| == 0 then [] else g[0] + Flatten(g[1..])
  }

  // Laws of the operations.

  /** The sum has the shape of its operands and adds entry by entry. */
  lemma SumAt(a: seq<seq<int>>, b: seq<seq<int>>, r: nat, c: nat)
    requires Shape(a, r, c) && Covers(b, r, c)
    ensures Shape(Sum(a, b, r, c), r, c)
    ensures forall i, j :: 0 <= i < r && 0 <= j < c ==> Sum(a, b, r, c)[i][j] == a[i][j] + b[i][j]
  {
  }

  /** Addition commutes on matrices of the same shape. */
  lemma SumComm(a: seq<seq<int>>, b: seq<seq<int>>, r: nat, c: nat)
    requires Shape(a, r, c) && Shape(b, r, c)
    ensures Sum(a, b, r, c) == Sum(b, a, r, c)
  {
    GridExt(Sum(a, b, r, c), Sum(b, a, r, c), r, c);
  }

  /** Transposing twice gives the matrix back. */
  lemma TransposeTwice(a: seq<seq<int>>, r: nat, c: nat)
    requires Shape(a, r, c)
    ensures Shape(TransposeOf(a, r, c), c, r)
    ensures TransposeOf(TransposeOf(a, r, c), c, r) == a
  {
    var t := TransposeOf(a, r, c);
    assert Shape(t, c, r);
    GridExt(TransposeOf(t, c, r), a, r, c);
  }

  /** Transposition distributes over the sum. */
  lemma TransposeSum(a: seq<seq<int>>, b: seq<seq<int>>, r: nat, c: nat)
    requires Shape(a, r, c) && Shape(b, r, c)
    ensures TransposeOf(Sum(a, b, r, c), r, c) == Sum(TransposeOf(a, r, c), TransposeOf(b, r, c), c, r)
  {
    var s := Sum(a, b, r, c);
    assert Shape(s, r, c);
    GridExt(TransposeOf(s, r, c), Sum(TransposeOf(a, r, c), TransposeOf(b, r, c), c, r), c, r);
  }

  /** Row i of a times column k of b equals row k of b^T times column i of a^T. */
  lemma {:induction false} DotTranspose(a: seq<seq<int>>, b: seq<seq<int>>, r: nat, n: nat, c: nat,
                                        i: nat, k: nat, m: nat)
    requires Shape(a, r, n) && Shape(b, n, c) && i < r && k < c && m <= n
    ensures Dot(TransposeOf(b, n, c), TransposeOf(a, r, n), k, i, m) == Dot(a, b, i, k, m)
  {
    if m > 0 {
      DotTranspose(a, b, r, n, c, i, k, m - 1);
      var bt, at := TransposeOf(b, n, c), TransposeOf(a, r, n);
      assert bt[k][m - 1] == b[m - 1][k] && at[m - 1][i] == a[i][m - 1];
    }
  }

  /** The transpose of a product is the product of the transposes in the
      other order. */
  lemma TransposeProduct(a: seq<seq<int>>, b: seq<seq<int>>, r: nat, n: nat, c: nat)
    requires Shape(a, r, n) && Shape(b, n, c)
    ensures TransposeOf(Product(a, b, r, n, c), r, c) == Product(TransposeOf(b, n, c), TransposeOf(a, r, n), c, n, r)
  {
    var p := Product(a, b, r, n, c);
    var bt, at := TransposeOf(b, n, c), TransposeOf(a, r, n);
    assert Shape(p, r, c) && Shape(bt, c, n) && Shape(at, n, r);
    var q := Product(bt, at, c, n, r);
    forall k, i | 0 <= k < c && 0 <= i < r ensures TransposeOf(p, r, c)[k][i] == q[k][i] {
      DotTranspose(a, b, r, n, c, i, k, n);
    }
    GridExt(TransposeOf(p, r, c), q, c, r);
  }

  /** Row i of a times column k of the identity, over the first m positions:
      a[i][k] once m has passed k, zero before. */
  lemma {:induction false} DotIdentity(a: seq<seq<int>>, r: nat, n: nat, i: nat, k: nat, m: nat)
    requires Shape(a, r, n) && i < r && k < n && m <= n
    ensures Dot(a, Identity(n), i, k, m) == if k < m then a[i][k] else 0
  {
    if m > 0 {
      DotIdentity(a, r, n, i, k, m - 1);
      assert Identity(n)[m - 1][k] == if m - 1 == k then 1 else 0;
    }
  }

  /** The identity is a right unit of the product. */
  lemma ProductIdentity(a: seq<seq<int>>, r: nat, n: nat)
    requires Shape(a, r, n)
    ensures Product(a, Identity(n), r, n, n) == a
  {
    var p := Product(a, Identity(n), r, n, n);
    forall i, k | 0 <= i < r && 0 <= k < n ensures p[i][k] == a[i][k] {
      DotIdentity(a, r, n, i, k, n);
    }
    GridExt(p, a, r, n);
  }

  /** x <= y gives x * c <= y * c. */
  lemma {:induction false} MulMono(x: nat, y: nat, c: nat)
    requires x <= y
    ensures x * c <= y * c
  {
    if x < y {
      MulMono(x, y - 1, c);
      assert (y - 1) * c + c == y * c;
    }
  }

  /** The row-major index i * c + j of a position inside an r x c matrix is
      below r * c, and an index below r * c lies in a row below r. */
  lemma RowMajorBound(i: nat, j: nat, r: nat, c: nat)
    requires j < c
    ensures i < r <==> i * c + j < r * c
  {
    if i < r {
      MulMono(i + 1, r, c);
      assert (i + 1) * c == i * c + c;
    } else {
      MulMono(r, i, c);
    }
  }

  /** Dropping the first row shifts every row-major index back by c. */
  lemma RowShift(i: nat, j: nat, c: nat)
    requires i > 0
    ensures i * c + j == c + ((i - 1) * c + j)
  {
  }

  /** The flattening has r * c entries. */
  lemma {:induction false} FlattenLength(g: seq<seq<int>>, r: nat, c: nat)
    requires Shape(g, r, c)
    ensures |Flatten(g)| == r * c
  {
    if r > 0 {
      FlattenLength(g[1..], r - 1, c);
      assert (r - 1) * c + c == r * c;
    }
  }

  /** Entry (i, j) of the flattening sits at the row-major index i * c + j. */
  lemma {:induction false} FlattenAt(g: seq<seq<int>>, r: nat, c: nat, i: nat, j: nat)
    requires Shape(g, r, c) && i < r && j < c
    ensures i * c + j < |Flatten(g)| && Flatten(g)[i * c + j] == g[i][j]
  {
    FlattenLength(g, r, c);
    RowMajorBound(i, j, r, c);
    if i > 0 {
      var t := g[1..];
      FlattenAt(t, r - 1, c, i - 1, j);
      RowShift(i, j, c);
      assert Flatten(g) == g[0] + Flatten(t);
    }
  }

  // The iterator's position and its increment.

  /** A position (i, j) of an iterator. */
  datatype Pos = Pos(i: nat, j: nat)

  /** operator++: the next column, wrapping to the start of the next row
      once the column reaches cols. */
  function Step(p: Pos, cols: nat): (q: Pos)
  {
    if p.j + 1 >= cols then Pos(p.i + 1, 0) else Pos(p.i, p.j + 1)
  }

  /** n increments from p. */
  function Steps(p: Pos, n: nat, cols: nat): (q: Pos)
  {
    if n == 0 then p else Step(Steps(p, n - 1, cols), cols)
  }

  /** From begin (0, 0) with cols > 0, the n-th position is the one of
      row-major index n: row n / cols, column n % cols. */
  lemma {:induction false} WalkIndex(n: nat, cols: nat)
    requires cols > 0
    ensures Steps(Pos(0, 0), n, cols).j < cols
    ensures Steps(Pos(0, 0), n, cols).i * cols + Steps(Pos(0, 0), n, cols).j == n
  {
    if n > 0 {
      WalkIndex(n - 1, cols);
      var p := Steps(Pos(0, 0), n - 1, cols);
      if p.j + 1 >= cols {
        assert (p.i + 1) * cols == p.i * cols + cols;
      }
    }
  }

  /** i * c + j with j < c determines i and j. */
  lemma RowMajorUnique(i: nat, j: nat, i2: nat, j2: nat, c: nat)
    requires j < c && j2 < c && i * c + j == i2 * c + j2
    ensures i == i2 && j == j2
  {
    RowMajorBound(i, j, i2, c);
    RowMajorBound(i2, j2, i, c);
  }

  /** With cols > 0, the walk from begin (0, 0) meets end (rows, 0) after
      exactly rows * cols increments, and every position before it
      is inside the matrix and holds the entry the flattening lists there. */
  lemma Walk(g: seq<seq<int>>, rows: nat, cols: nat, n: nat)
    requires Shape(g, rows, cols) && cols > 0
    ensures |Flatten(g)| == rows * cols
    ensures Steps(Pos(0, 0), n, cols) == Pos(rows, 0) <==> n == rows * cols
    ensures n < rows * cols ==>
      var p := Steps(Pos(0, 0), n, cols);
      p.i < rows && p.j < cols && g[p.i][p.j] == Flatten(g)[n]
  {
    var p := Steps(Pos(0, 0), n, cols);
    WalkIndex(n, cols);
    FlattenLength(g, rows, cols);
    var i, j := p.i, p.j;
    assert i * cols + j == n;
    if n == rows * cols {
      RowMajorUnique(i, j, rows, 0, cols);
    }
    RowMajorBound(i, j, rows, cols);
    if i < rows {
      FlattenAt(g, rows, cols, i, j);
    }
  }

  /** With cols == 0 every increment moves to the next row, so the walk
      meets end after rows increments, none of them inside the matrix. */
  lemma {:induction false} WalkNoColumns(n: nat)
    ensures Steps(Pos(0, 0), n, 0) == Pos(n, 0)
  {
    if n > 0 {
      WalkNoColumns(n - 1);
    }
  }

  // Loop states of the in-place operations.

  /** The first i rows, and the first j entries of row i, of g already
      hold their new values from s; every other entry still holds its old
      value from a. */
  ghost predicate Partial(g: seq<seq<int>>, a: seq<seq<int>>, s: seq<seq<int>>, r: nat, c: nat, i: nat, j: nat)
    requires Shape(a, r, c) && Shape(s, r, c)
  {
    Shape(g, r, c)
    && forall x, y :: 0 <= x < r && 0 <= y < c ==>
         g[x][y] == if x < i || (x == i && y < j) then s[x][y] else a[x][y]
  }

  lemma PartialStart(a: seq<seq<int>>, s: seq<seq<int>>, r: nat, c: nat)
    requires Shape(a, r, c) && Shape(s, r, c)
    ensures Partial(a, a, s, r, c, 0, 0)
  {
  }

  /** Writing entry (i, j) of the target moves the state one entry on. */
  lemma PartialStep(g: seq<seq<int>>, a: seq<seq<int>>, s: seq<seq<int>>, r: nat, c: nat, i: nat, j: nat, v: int)
    requires Shape(a, r, c) && Shape(s, r, c) && i < r && j < c
    requires Partial(g, a, s, r, c, i, j) && v == s[i][j]
    ensures Partial(g[i := g[i][j := v]], a, s, r, c, i, j + 1)
  {
  }

  /** A finished row is the start of the next one. */
  lemma PartialRow(g: seq<seq<int>>, a: seq<seq<int>>, s: seq<seq<int>>, r: nat, c: nat, i: nat)
    requires Shape(a, r, c) && Shape(s, r, c) && i < r
    requires Partial(g, a, s, r, c, i, c)
    ensures Partial(g, a, s, r, c, i + 1, 0)
  {
  }

  /** Once every row is finished the grid is the target. */
  lemma PartialDone(g: seq<seq<int>>, a: seq<seq<int>>, s: seq<seq<int>>, r: nat, c: nat)
    requires Shape(a, r, c) && Shape(s, r, c)
    requires Partial(g, a, s, r, c, r, 0)
    ensures g == s
  {
    GridExt(g, s, r, c);
  }

  /** How many terms of Dot cell (x, z) of the product holds once the loops of
      matrix *= have reached i, j, k: all n for earlier rows, none for later
      ones, and in row i one more for the columns before k. */
  function Terms(x: nat, z: nat, i: nat, j: nat, k: nat, n: nat): nat
  {
    if x < i then n else if x > i then 0 else if z < k then j + 1 else j
  }

  /** The buffer res of matrix *= after the loops have reached i, j, k. */
  ghost predicate ProductState(g: seq<seq<int>>, a: seq<seq<int>>, b: seq<seq<int>>,
                               r: nat, n: nat, c: nat, i: nat, j: nat, k: nat)
    requires Shape(a, r, n) && Covers(b, n, c) && j <= n && (k == 0 || j < n)
  {
    Shape(g, r, c)
    && forall x, z :: 0 <= x < r && 0 <= z < c ==> g[x][z] == Dot(a, b, x, z, Terms(x, z, i, j, k, n))
  }

  lemma ProductStart(a: seq<seq<int>>, b: seq<seq<int>>, r: nat, n: nat, c: nat)
    requires Shape(a, r, n) && Covers(b, n, c)
    ensures ProductState(Zeros(r, c), a, b, r, n, c, 0, 0, 0)
  {
  }

  /** res[i][k] += m[i][j] * other.m[j][k] adds term j to cell (i, k). */
  lemma ProductStep(g: seq<seq<int>>, a: seq<seq<int>>, b: seq<seq<int>>,
                    r: nat, n: nat, c: nat, i: nat, j: nat, k: nat)
    requires Shape(a, r, n) && Covers(b, n, c) && i < r && j < n && k < c
    requires ProductState(g, a, b, r, n, c, i, j, k)
    ensures ProductState(g[i := g[i][k := g[i][k] + a[i][j] * b[j][k]]], a, b, r, n, c, i, j, k + 1)
  {
    var h := g[i := g[i][k := g[i][k] + a[i][j] * b[j][k]]];
    forall x, z | 0 <= x < r && 0 <= z < c
      ensures h[x][z] == Dot(a, b, x, z, Terms(x, z, i, j, k + 1, n))
    {
      if x == i && z == k {
        assert Terms(x, z, i, j, k, n) == j && Terms(x, z, i, j, k + 1, n) == j + 1;
      }
    }
  }

  /** The last column of pass j is the start of pass j + 1. */
  lemma ProductInner(g: seq<seq<int>>, a: seq<seq<int>>, b: seq<seq<int>>,
                     r: nat, n: nat, c: nat, i: nat, j: nat)
    requires Shape(a, r, n) && Covers(b, n, c) && j < n
    requires ProductState(g, a, b, r, n, c, i, j, c)
    ensures ProductState(g, a, b, r, n, c, i, j + 1, 0)
  {
  }

  /** The last pass of row i is the start of row i + 1. */
  lemma ProductRow(g: seq<seq<int>>, a: seq<seq<int>>, b: seq<seq<int>>,
                   r: nat, n: nat, c: nat, i: nat)
    requires Shape(a, r, n) && Covers(b, n, c)
    requires ProductState(g, a, b, r, n, c, i, n, 0)
    ensures ProductState(g, a, b, r, n, c, i + 1, 0, 0)
  {
  }

  /** Once every row is finished the buffer is the product. */
  lemma ProductDone(g: seq<seq<int>>, a: seq<seq<int>>, b: seq<seq<int>>, r: nat, n: nat, c: nat)
    requires Shape(a, r, n) && Covers(b, n, c)
    requires ProductState(g, a, b, r, n, c, r, 0, 0)
    ensures g == Product(a, b, r, n, c)
  {
    GridExt(g, Product(a, b, r, n, c), r, c);
  }

  /** The buffer res of transpose: the entries (x, y) of a visited so far,
      in row-major order up to (i, j), sit at (y, x); the others are zero. */
  ghost predicate TransposeState(g: seq<seq<int>>, a: seq<seq<int>>, r: nat, c: nat, i: nat, j: nat)
    requires Shape(a, r, c)
  {
    Shape(g, c, r)
    && forall y, x {:trigger g[y][x]} :: 0 <= y < c && 0 <= x < r ==>
         g[y][x] == if x < i || (x == i && y < j) then a[x][y] else 0
  }

  lemma TransposeStep(g: seq<seq<int>>, a: seq<seq<int>>, r: nat, c: nat, i: nat, j: nat)
    requires Shape(a, r, c) && i < r && j < c && TransposeState(g, a, r, c, i, j)
    ensures TransposeState(g[j := g[j][i := a[i][j]]], a, r, c, i, j + 1)
  {
    var h := g[j := g[j][i := a[i][j]]];
    forall y, x {:trigger h[y][x]} | 0 <= y < c && 0 <= x < r
      ensures h[y][x] == if x < i || (x == i && y < j + 1) then a[x][y] else 0
    {
      if y != j || x != i {
        assert h[y][x] == g[y][x];
      }
    }
  }

  lemma TransposeRow(g: seq<seq<int>>, a: seq<seq<int>>, r: nat, c: nat, i: nat)
    requires Shape(a, r, c) && TransposeState(g, a, r, c, i, c)
    ensures TransposeState(g, a, r, c, i + 1, 0)
  {
    forall y, x {:trigger g[y][x]} | 0 <= y < c && 0 <= x < r
      ensures g[y][x] == if x < i + 1 then a[x][y] else 0
    {
    }
  }

  lemma TransposeDone(g: seq<seq<int>>, a: seq<seq<int>>, r: nat, c: nat)
    requires Shape(a, r, c) && TransposeState(g, a, r, c, r, 0)
    ensures g == TransposeOf(a, r, c)
  {
    GridExt(g, TransposeOf(a, r, c), c, r);
  }

  class Matrix {
    var rows: nat
    var cols: nat
    var m: seq<seq<int>>

    /** m has rows rows of cols entries each. */
    ghost predicate Valid()
      reads this
    {
      Shape(m, rows, cols)
    }

    /** From a vector of rows: rows is its length and cols the length of its
        first row, or 0 when it is empty. The result is rectangular exactly
        when every row has the length of the first. */
    constructor (v: seq<seq<int>>)
      ensures m == v && rows == |v| && cols == (if |v| == 0 then 0 else |v[0]|)
      ensures Valid() <==> forall i :: 0 <= i < |v| ==> |v[i]| == cols
    {
      m := v;
      rows := |v|;
      cols := if |v| == 0 then 0 else |v[0]|;
    }

    /** The implicit copy constructor. */
    constructor Copy(other: Matrix)
      ensures m == other.m && rows == other.rows && cols == other.cols
    {
      m := other.m;
      rows := other.rows;
      cols := other.cols;
    }

    /** begin(): the iterator at (0, 0). */
    method Begin() returns (it: Iterator)
      ensures fresh(it) && it.ref == this && it.Position() == Pos(0, 0)
    {
      it := new Iterator(0, 0, this);
    }

    /** end(): the iterator at (rows, 0), one row past the last. */
    method End() returns (it: Iterator)
      ensures fresh(it) && it.ref == this && it.Position() == Pos(rows, 0)
    {
      it := new Iterator(rows, 0, this);
    }

    /** size(): the pair (rows, cols), the shape of m. */
    function Size(): (s: (nat, nat))
      reads this
      ensures Valid() ==> Shape(m, s.0, s.1)
      ensures s.0 == rows && s.1 == cols
    {
      (rows, cols)
    }

    /** operator()(i, j) for reading: entry (i, j), which is the entry of
        row-major index i * cols + j. */
    function Get(i: nat, j: nat): (x: int)
      reads this
      requires Valid() && i < rows && j < cols
      ensures i * cols + j < |Flatten(m)| && x == Flatten(m)[i * cols + j]
    {
      FlattenAt(m, rows, cols, i, j);
      m[i][j]
    }

    /** operator()(i, j) for writing: entry (i, j) becomes v, nothing else
        changes. */
    method Set(i: nat, j: nat, v: int)
      requires Valid() && i < rows && j < cols
      modifies this
      ensures Valid() && rows == old(rows) && cols == old(cols)
      ensures m == old(m)[i := old(m)[i][j := v]]
    {
      m := m[i := m[i][j := v]];
    }

    /** operator+=: m[i][j] += other(i, j) for every position of this. other
        must cover those positions; a += a doubles a. */
    method AddAssign(other: Matrix)
      requires Valid() && other.Valid() && rows <= other.rows && cols <= other.cols
      modifies this
      ensures Valid() && rows == old(rows) && cols == old(cols)
      ensures m == Sum(old(m), old(other.m), rows, cols)
    {
      ghost var a, b := m, other.m;
      ghost var s := Sum(a, b, rows, cols);
      SumAt(a, b, rows, cols);
      PartialStart(a, s, rows, cols);
      for i := 0 to rows
        invariant rows == old(rows) && cols == old(cols)
        invariant other == this || other.m == b
        invariant Partial(m, a, s, rows, cols, i, 0)
      {
        for j := 0 to cols
          invariant rows == old(rows) && cols == old(cols)
          invariant other == this || other.m == b
          invariant Partial(m, a, s, rows, cols, i, j)
        {
          var v := m[i][j] + other.m[i][j];
          PartialStep(m, a, s, rows, cols, i, j, v);
          m := m[i := m[i][j := v]];
        }
        PartialRow(m, a, s, rows, cols, i);
      }
      PartialDone(m, a, s, rows, cols);
    }

    /** operator*= with a scalar: m[i][j] *= k for every position. */
    method ScaleAssign(k: int)
      requires Valid()
      modifies this
      ensures Valid() && rows == old(rows) && cols == old(cols)
      ensures m == Scale(old(m), k, rows, cols)
    {
      ghost var a := m;
      ghost var s := Scale(a, k, rows, cols);
      PartialStart(a, s, rows, cols);
      for i := 0 to rows
        invariant rows == old(rows) && cols == old(cols)
        invariant Partial(m, a, s, rows, cols, i, 0)
      {
        for j := 0 to cols
          invariant rows == old(rows) && cols == old(cols)
          invariant Partial(m, a, s, rows, cols, i, j)
        {
          var v := m[i][j] * k;
          PartialStep(m, a, s, rows, cols, i, j, v);
          m := m[i := m[i][j := v]];
        }
        PartialRow(m, a, s, rows, cols, i);
      }
      PartialDone(m, a, s, rows, cols);
    }

    /** operator*= with a matrix: res[i][k] += m[i][j] * other.m[j][k] over
        a rows x other.cols buffer of zeros, then m = res and cols =
        other.cols. other must have a row for every column of this. */
    method MulAssign(other: Matrix)
      requires Valid() && other.Valid() && cols <= other.rows
      modifies this
      ensures Valid() && rows == old(rows) && cols == old(other.cols)
      ensures m == Product(old(m), old(other.m), rows, old(cols), cols)
    {
      var a, b := m, other.m;
      var r, n, c := rows, cols, other.cols;
      var res := Zeros(r, c);
      ProductStart(a, b, r, n, c);
      for i := 0 to r
        invariant rows == r && ProductState(res, a, b, r, n, c, i, 0, 0)
      {
        for j := 0 to n
          invariant rows == r && ProductState(res, a, b, r, n, c, i, j, 0)
        {
          for k := 0 to c
            invariant rows == r && ProductState(res, a, b, r, n, c, i, j, k)
          {
            ProductStep(res, a, b, r, n, c, i, j, k);
            res := res[i := res[i][k := res[i][k] + a[i][j] * b[j][k]]];
          }
          ProductInner(res, a, b, r, n, c, i, j);
        }
        ProductRow(res, a, b, r, n, c, i);
      }
      ProductDone(res, a, b, r, n, c);
      m := res;
      cols := c;
    }

    /** operator+: a copy of this, then +=. */
    method Plus(r: Matrix) returns (res: Matrix)
      requires Valid() && r.Valid() && rows <= r.rows && cols <= r.cols
      ensures fresh(res) && res.Valid() && res.rows == rows && res.cols == cols
      ensures res.m == Sum(m, r.m, rows, cols)
    {
      res := new Matrix.Copy(this);
      res.AddAssign(r);
    }

    /** operator* of a matrix and a scalar, on either side: a copy of the
        matrix, then *= the scalar. */
    method Scaled(k: int) returns (res: Matrix)
      requires Valid()
      ensures fresh(res) && res.Valid() && res.rows == rows && res.cols == cols
      ensures res.m == Scale(m, k, rows, cols)
    {
      res := new Matrix.Copy(this);
      res.ScaleAssign(k);
    }

    /** operator* of two matrices: a copy of this, then *=. */
    method Times(r: Matrix) returns (res: Matrix)
      requires Valid() && r.Valid() && cols <= r.rows
      ensures fresh(res) && res.Valid() && res.rows == rows && res.cols == r.cols
      ensures res.m == Product(m, r.m, rows, cols, r.cols)
    {
      res := new Matrix.Copy(this);
      res.MulAssign(r);
    }

    /** transpose(): res[j][i] = m[i][j] over a cols x rows buffer, then
        m = res and rows and cols swap. */
    method Transpose()
      requires Valid()
      modifies this
      ensures Valid() && rows == old(cols) && cols == old(rows)
      ensures m == TransposeOf(old(m), old(rows), old(cols))
    {
      ghost var a, r0, c0 := m, rows, cols;
      var res := Zeros(cols, rows);
      for i := 0 to rows
        invariant m == a && rows == r0 && cols == c0
        invariant TransposeState(res, m, rows, cols, i, 0)
      {
        for j := 0 to cols
          invariant m == a && rows == r0 && cols == c0
          invariant TransposeState(res, m, rows, cols, i, j)
        {
          TransposeStep(res, m, rows, cols, i, j);
          res := res[j := res[j][i := m[i][j]]];
        }
        TransposeRow(res, m, rows, cols, i);
      }
      TransposeDone(res, m, rows, cols);
      m := res;
      rows, cols := cols, rows;
    }

    /** transposed(): a copy of this, then transpose(); this is unchanged. */
    method Transposed() returns (res: Matrix)
      requires Valid()
      ensures fresh(res) && res.Valid() && res.rows == cols && res.cols == rows
      ensures res.m == TransposeOf(m, rows, cols)
    {
      res := new Matrix.Copy(this);
      res.Transpose();
    }
  }

  /** iterator and const_iterator: a position (i, j) in the matrix ref. */
  class Iterator {
    var i: nat
    var j: nat
    const ref: Matrix

    constructor (a: nat, b: nat, r: Matrix)
      ensures i == a && j == b && ref == r
    {
      i, j, ref := a, b, r;
    }

    /** The position (i, j) as a value. */
    function Position(): Pos
      reads this
    {
      Pos(i, j)
    }

    /** Prefix operator++: one step in row-major order; returns a copy of
        the new position. */
    method Increment() returns (it: Iterator)
      modifies this
      ensures Position() == Step(old(Position()), ref.cols)
      ensures fresh(it) && it.ref == ref && it.Position() == Position()
    {
      j := j + 1;
      if j >= ref.cols {
        i := i + 1;
        j := 0;
      }
      it := new Iterator(i, j, ref);
    }

    /** Postfix operator++: the same step; returns a copy of the old position. */
    method PostIncrement() returns (prev: Iterator)
      modifies this
      ensures Position() == Step(old(Position()), ref.cols)
      ensures fresh(prev) && prev.ref == ref && prev.Position() == old(Position())
    {
      prev := new Iterator(i, j, ref);
      j := j + 1;
      if j >= ref.cols {
        i := i + 1;
        j := 0;
      }
    }

    /** operator*: the entry under the iterator, the one of row-major index
        i * cols + j. */
    function Deref(): (x: int)
      reads this, ref
      requires ref.Valid() && i < ref.rows && j < ref.cols
      ensures i * ref.cols + j < |Flatten(ref.m)| && x == Flatten(ref.m)[i * ref.cols + j]
    {
      ref.Get(i, j)
    }

    /** operator==: same row and same column. */
    function Equals(other: Iterator): (b: bool)
      reads this, other
      ensures b <==> Position() == other.Position()
    {
      i == other.i && j == other.j
    }

    /** operator!=: the negation of ==. */
    function NotEquals(other: Iterator): (b: bool)
      reads this, other
      ensures b <==> Position() != other.Position()
    {
      !Equals(other)
    }
  }
}
