/**
 The arithmetic of tiled matrix multiplication in memory: byte matrices A (M x K) and
 B (K x N), a matrix C of 32-bit words, and what one WMMA adds to it.
 */
module TensorTiles {
  import opened Bits
  import opened Memory
  import opened Machine
  import opened Options

  /** Base addresses and dimensions of C += A * B. */
  datatype Gemm = Gemm(a: nat, b: nat, c: nat, m: nat, n: nat, k: nat) {
    /** The matrices are in bounds, C overlaps neither A nor B, and tiles cover them exactly. */
    predicate Fits(size: nat) {
      && m % 16 == 0 && n % 16 == 0 && k % 16 == 0
      && a + m * k <= size && b + k * n <= size && c + 4 * (m * n) <= size
      && (c + 4 * (m * n) <= a || a + m * k <= c)
      && (c + 4 * (m * n) <= b || b + k * n <= c)
    }

    function Cell(i: nat, j: nat): nat {
      c + 4 * (i * n + j)
    }

    function AddrA(i: nat, q: nat): nat {
      a + i * k + q
    }

    function AddrB(q: nat, j: nat): nat {
      b + q * n + j
    }

    predicate InC(x: nat) {
      c <= x < c + 4 * (m * n)
    }

    predicate Valid(i: nat, j: nat) {
      i < m && j < n
    }
  }

  // --- index arithmetic ---

  lemma IndexBound(row: nat, col: nat, rows: nat, cols: nat)
    requires row < rows && col < cols
    ensures row * cols + col < rows * cols
  {
    MulMono(row + 1, rows, cols);
    assert (row + 1) * cols == row * cols + cols;
  }

  lemma IndexDistinct(i: nat, j: nat, i': nat, j': nat, cols: nat)
    requires j < cols && j' < cols && (i != i' || j != j')
    ensures i * cols + j != i' * cols + j'
  {
    if i < i' {
      MulMono(i + 1, i', cols);
      assert (i + 1) * cols == i * cols + cols;
    } else if i' < i {
      MulMono(i' + 1, i, cols);
      assert (i' + 1) * cols == i' * cols + cols;
    }
  }

  lemma CellInC(g: Gemm, i: nat, j: nat)
    requires g.Valid(i, j)
    ensures g.c <= g.Cell(i, j) && g.Cell(i, j) + 4 <= g.c + 4 * (g.m * g.n)
  {
    IndexBound(i, j, g.m, g.n);
  }

  lemma CellsApart(g: Gemm, i: nat, j: nat, i': nat, j': nat)
    requires g.Valid(i, j) && g.Valid(i', j') && (i != i' || j != j')
    ensures g.Cell(i, j) + 4 <= g.Cell(i', j') || g.Cell(i', j') + 4 <= g.Cell(i, j)
  {
    IndexDistinct(i, j, i', j', g.n);
  }

  /** Elements of A and B are in bounds and not part of C. */
  lemma OperandsInBounds(g: Gemm, size: nat, i: nat, j: nat, q: nat)
    requires g.Fits(size) && q < g.k
    ensures i < g.m ==> g.AddrA(i, q) < size && !g.InC(g.AddrA(i, q))
    ensures j < g.n ==> g.AddrB(q, j) < size && !g.InC(g.AddrB(q, j))
  {
    hide Gemm.AddrA, Gemm.AddrB;
    if i < g.m {
      AddrABound(g, i, q);
    }
    if j < g.n {
      AddrBBound(g, q, j);
    }
  }

  lemma AddrABound(g: Gemm, i: nat, q: nat)
    requires i < g.m && q < g.k
    ensures g.a <= g.AddrA(i, q) < g.a + g.m * g.k
  {
    IndexBound(i, q, g.m, g.k);
  }

  lemma AddrBBound(g: Gemm, q: nat, j: nat)
    requires q < g.k && j < g.n
    ensures g.b <= g.AddrB(q, j) < g.b + g.k * g.n
  {
    IndexBound(q, j, g.k, g.n);
  }

  function ElemA(g: Gemm, mem: Bytes, i: nat, k: nat): int
    requires g.Fits(|mem|) && i < g.m && k < g.k
  {
    OperandsInBounds(g, |mem|, i, 0, k);
    SignedByte(mem[g.AddrA(i, k)])
  }

  function ElemB(g: Gemm, mem: Bytes, k: nat, j: nat): int
    requires g.Fits(|mem|) && k < g.k && j < g.n
  {
    OperandsInBounds(g, |mem|, 0, j, k);
    SignedByte(mem[g.AddrB(k, j)])
  }

  /** Sum over k < n of A[i*K + k] * B[k*N + j]. */
  function Sum(g: Gemm, mem: Bytes, i: nat, j: nat, n: nat): int
    requires g.Fits(|mem|) && g.Valid(i, j) && n <= g.k
  {
    if n == 0 then 0 else Sum(g, mem, i, j, n - 1) + ElemA(g, mem, i, n - 1) * ElemB(g, mem, n - 1, j)
  }

  // --- progress ---

  /** Position of the loop nest: the current tile, and how many of its elements this WMMA has updated. */
  datatype Position = Position(i0: nat, j0: nat, k0: nat, done: nat)

  /** How many products cell (i, j) has accumulated. */
  function Products(g: Gemm, p: Position, i: nat, j: nat): (r: nat)
    requires Inside(g, p)
    ensures r <= g.k
  {
    if i < p.i0 then g.k
    else if i >= p.i0 + 16 then 0
    else if j < p.j0 then g.k
    else if j >= p.j0 + 16 then 0
    else if (i - p.i0) * 16 + (j - p.j0) < p.done then p.k0 + 16
    else p.k0
  }

  predicate Inside(g: Gemm, p: Position) {
    p.k0 + (if p.done == 0 then 0 else 16) <= g.k
  }

  /** C holds its old value plus the products accumulated so far, and no other byte has changed. */
  ghost predicate Progress(g: Gemm, mem0: Bytes, mem: Bytes, p: Position)
    requires g.Fits(|mem0|) && Inside(g, p)
  {
    && Unchanged(g, mem0, mem)
    && forall i: nat, j: nat :: g.Valid(i, j) ==> CellHolds(g, mem0, mem, i, j, Products(g, p, i, j))
  }

  predicate CellHolds(g: Gemm, mem0: Bytes, mem: Bytes, i: nat, j: nat, n: nat)
    requires g.Fits(|mem0|) && |mem| == |mem0| && g.Valid(i, j) && n <= g.k
  {
    CellInC(g, i, j);
    Rd32(mem, g.Cell(i, j)) == Wrap(Rd32(mem0, g.Cell(i, j)) + Sum(g, mem0, i, j, n))
  }

  // --- one WMMA ---

  /** The operands of the WMMA at a position. */
  function TileAt(g: Gemm, p: Position): Tile {
    Tile(g.Cell(p.i0, p.j0), g.AddrA(p.i0, p.k0), g.AddrB(p.k0, p.j0), g.k, g.n, g.n)
  }

  lemma TileAddresses(g: Gemm, p: Position, row: nat, col: nat, q: nat)
    ensures TileAt(g, p).C(row, col) == g.Cell(p.i0 + row, p.j0 + col)
    ensures TileAt(g, p).A(row, q) == g.AddrA(p.i0 + row, p.k0 + q)
    ensures TileAt(g, p).B(q, col) == g.AddrB(p.k0 + q, p.j0 + col)
  {
    assert (p.i0 + row) * g.k == p.i0 * g.k + row * g.k;
    assert (p.i0 + row) * g.n == p.i0 * g.n + row * g.n;
    assert (p.k0 + q) * g.n == p.k0 * g.n + q * g.n;
  }

  /** A tile starts inside the matrices, and so lies inside them. */
  predicate AtTile(g: Gemm, p: Position) {
    && p.i0 % 16 == 0 && p.j0 % 16 == 0 && p.k0 % 16 == 0
    && p.i0 < g.m && p.j0 < g.n && p.k0 < g.k
  }

  lemma TileInside(g: Gemm, size: nat, p: Position, row: nat, col: nat)
    requires g.Fits(size) && AtTile(g, p) && row < 16 && col < 16
    ensures p.i0 + row < g.m && p.j0 + col < g.n && p.k0 + 16 <= g.k
  {}

  /** The memory outside C is as it was. */
  ghost predicate Unchanged(g: Gemm, mem0: Bytes, mem: Bytes) {
    |mem| == |mem0| && forall x: nat :: x < |mem0| && !g.InC(x) ==> mem[x] == mem0[x]
  }

  /** The dot product of the tile row and column continues the sum where it stands. */
  lemma {:induction false} DotContinues(g: Gemm, mem0: Bytes, mem: Bytes, p: Position, row: nat, col: nat, q: nat)
    requires g.Fits(|mem0|) && AtTile(g, p) && row < 16 && col < 16 && q <= 16
    requires Unchanged(g, mem0, mem)
    ensures p.i0 + row < g.m && p.j0 + col < g.n && p.k0 + 16 <= g.k
    ensures Dot(mem, TileAt(g, p), row, col, q)
         == Some(Sum(g, mem0, p.i0 + row, p.j0 + col, p.k0 + q) - Sum(g, mem0, p.i0 + row, p.j0 + col, p.k0))
  {
    hide AtTile, TileAt, SignedByte, Gemm.Fits, Gemm.AddrA, Gemm.AddrB, Gemm.InC, Gemm.Cell, Tile.A, Tile.B, Tile.C;
    TileInside(g, |mem0|, p, row, col);
    if q > 0 {
      DotContinues(g, mem0, mem, p, row, col, q - 1);
      TileAddresses(g, p, row, col, q - 1);
      OperandsInBounds(g, |mem0|, p.i0 + row, p.j0 + col, p.k0 + q - 1);
    }
  }

  lemma WrapSum(old_: u32, x: int, y: int)
    ensures Wrap(Signed(Wrap(old_ + x)) + (y - x)) == Wrap(old_ + y)
  {
    var s := Signed(Wrap(old_ + x));
    var k := (s - (old_ + x)) / TWO32;
    assert Wrap(s) == Wrap(old_ + x);
  }

  /** Element `done` of the tile gains the products k0 .. k0 + 15. */
  lemma ElementProgress(g: Gemm, mem0: Bytes, mem: Bytes, p: Position)
    requires g.Fits(|mem0|) && AtTile(g, p) && p.done < 256 && Inside(g, p)
    requires Progress(g, mem0, mem, p)
    ensures Inside(g, p.(done := p.done + 1))
    ensures var r := WmmaElement(mem, TileAt(g, p), p.done / 16, p.done % 16);
      r.Some? && Progress(g, mem0, r.value, p.(done := p.done + 1))
  {
    hide Rd32, Wr32, Sum, Dot, TileAt, Gemm.Fits, Gemm.Cell, Gemm.InC, Tile.C, Wrap, Signed, Products, CellHolds;
    var row, col := p.done / 16, p.done % 16;
    var i, j, p' := p.i0 + row, p.j0 + col, p.(done := p.done + 1);
    TileInside(g, |mem0|, p, row, col);
    DotContinues(g, mem0, mem, p, row, col, 16);
    TileAddresses(g, p, row, col, 0);
    CellBounds(g, |mem0|, i, j);
    var cell := g.Cell(i, j);
    ThisElement(g, p, i, j);
    CellValue(g, mem0, mem, i, j, p.k0);
    WrapSum(Rd32(mem0, cell), Sum(g, mem0, i, j, p.k0), Sum(g, mem0, i, j, p.k0 + 16));
    var w := Wrap(Rd32(mem0, cell) + Sum(g, mem0, i, j, p.k0 + 16));
    var mem' := Wr32(mem, cell, w);
    WriteOutside(g, mem0, mem, i, j, w);
    forall i': nat, j': nat | g.Valid(i', j')
      ensures CellHolds(g, mem0, mem', i', j', Products(g, p', i', j'))
    {
      if i' == i && j' == j {
        CellValue(g, mem0, mem', i, j, p.k0 + 16);
      } else {
        assert CellHolds(g, mem0, mem, i', j', Products(g, p, i', j'));
        OtherElement(g, p, i, j, i', j');
        OtherCell(g, mem0, mem, i, j, w, i', j', Products(g, p, i', j'));
      }
    }
  }

  lemma CellBounds(g: Gemm, size: nat, i: nat, j: nat)
    requires g.Fits(size) && g.Valid(i, j)
    ensures g.Cell(i, j) + 4 <= size
  {
    CellInC(g, i, j);
  }

  lemma CellValue(g: Gemm, mem0: Bytes, mem: Bytes, i: nat, j: nat, n: nat)
    requires g.Fits(|mem0|) && |mem| == |mem0| && g.Valid(i, j) && n <= g.k
    ensures g.Cell(i, j) + 4 <= |mem0|
    ensures CellHolds(g, mem0, mem, i, j, n)
       <==> Rd32(mem, g.Cell(i, j)) == Wrap(Rd32(mem0, g.Cell(i, j)) + Sum(g, mem0, i, j, n))
  {
    CellInC(g, i, j);
  }

  lemma WriteOutside(g: Gemm, mem0: Bytes, mem: Bytes, i: nat, j: nat, w: u32)
    requires g.Fits(|mem0|) && g.Valid(i, j) && Unchanged(g, mem0, mem)
    ensures g.Cell(i, j) + 4 <= |mem0| && Unchanged(g, mem0, Wr32(mem, g.Cell(i, j), w))
  {
    hide Wr32;
    CellInC(g, i, j);
  }

  lemma OtherCell(g: Gemm, mem0: Bytes, mem: Bytes, i: nat, j: nat, w: u32, i': nat, j': nat, n: nat)
    requires g.Fits(|mem0|) && g.Valid(i, j) && g.Valid(i', j') && |mem| == |mem0| && n <= g.k
    requires (i != i' || j != j') && CellHolds(g, mem0, mem, i', j', n)
    ensures g.Cell(i, j) + 4 <= |mem0| && CellHolds(g, mem0, Wr32(mem, g.Cell(i, j), w), i', j', n)
  {
    hide Rd32, Wr32, Sum;
    CellInC(g, i, j);
    CellInC(g, i', j');
    CellsApart(g, i, j, i', j');
    RdAfterWrElsewhere(mem, g.Cell(i, j), w, g.Cell(i', j'));
  }

  lemma ThisElement(g: Gemm, p: Position, i: nat, j: nat)
    requires Inside(g, p) && Inside(g, p.(done := p.done + 1))
    requires p.done < 256 && i == p.i0 + p.done / 16 && j == p.j0 + p.done % 16
    ensures Products(g, p, i, j) == p.k0 && Products(g, p.(done := p.done + 1), i, j) == p.k0 + 16
  {}

  /** Updating element `done` changes the count of its own cell only. */
  lemma OtherElement(g: Gemm, p: Position, i: nat, j: nat, i': nat, j': nat)
    requires Inside(g, p) && Inside(g, p.(done := p.done + 1))
    requires i == p.i0 + p.done / 16 && j == p.j0 + p.done % 16 && (i != i' || j != j')
    ensures Products(g, p.(done := p.done + 1), i', j') == Products(g, p, i', j')
  {}

  lemma {:induction false} WmmaProgress(g: Gemm, mem0: Bytes, mem: Bytes, p: Position, n: nat)
    requires g.Fits(|mem0|) && AtTile(g, p) && p.done == 0 && n <= 256
    requires Inside(g, p) && Progress(g, mem0, mem, p)
    ensures Inside(g, p.(done := n))
    ensures var r := Wmma(mem, TileAt(g, p), n); r.Some? && Progress(g, mem0, r.value, p.(done := n))
    decreases n
  {
    hide Progress, WmmaElement;
    if n > 0 {
      WmmaProgress(g, mem0, mem, p, n - 1);
      var mid := Wmma(mem, TileAt(g, p), n - 1).value;
      ElementProgress(g, mem0, mid, p.(done := n - 1));
    }
  }

  // --- moving from tile to tile ---

  lemma SameProducts(g: Gemm, mem0: Bytes, mem: Bytes, p: Position, p': Position)
    requires g.Fits(|mem0|) && Inside(g, p) && Inside(g, p') && Progress(g, mem0, mem, p)
    requires forall i: nat, j: nat :: g.Valid(i, j) ==> Products(g, p, i, j) == Products(g, p', i, j)
    ensures Progress(g, mem0, mem, p')
  {
    hide Products, CellHolds, Gemm.Fits;
    forall i: nat, j: nat | g.Valid(i, j)
      ensures CellHolds(g, mem0, mem, i, j, Products(g, p', i, j))
    {
      assert CellHolds(g, mem0, mem, i, j, Products(g, p, i, j));
    }
  }

  /** A finished WMMA leaves the tile 16 products further. */
  lemma NextK(g: Gemm, mem0: Bytes, mem: Bytes, i0: nat, j0: nat, k0: nat)
    requires g.Fits(|mem0|) && k0 + 16 <= g.k && Progress(g, mem0, mem, Position(i0, j0, k0, 256))
    ensures Progress(g, mem0, mem, Position(i0, j0, k0 + 16, 0))
  {
    SameProducts(g, mem0, mem, Position(i0, j0, k0, 256), Position(i0, j0, k0 + 16, 0));
  }

  /** A finished tile is the beginning of the next one in its row. */
  lemma NextJ(g: Gemm, mem0: Bytes, mem: Bytes, i0: nat, j0: nat)
    requires g.Fits(|mem0|) && Progress(g, mem0, mem, Position(i0, j0, g.k, 0))
    ensures Progress(g, mem0, mem, Position(i0, j0 + 16, 0, 0))
  {
    SameProducts(g, mem0, mem, Position(i0, j0, g.k, 0), Position(i0, j0 + 16, 0, 0));
  }

  /** A finished row of tiles is the beginning of the next row. */
  lemma NextI(g: Gemm, mem0: Bytes, mem: Bytes, i0: nat)
    requires g.Fits(|mem0|) && Progress(g, mem0, mem, Position(i0, g.n, 0, 0))
    ensures Progress(g, mem0, mem, Position(i0 + 16, 0, 0, 0))
  {
    SameProducts(g, mem0, mem, Position(i0, g.n, 0, 0), Position(i0 + 16, 0, 0, 0));
  }

  lemma NoProgress(g: Gemm, mem0: Bytes)
    requires g.Fits(|mem0|)
    ensures Progress(g, mem0, mem0, Position(0, 0, 0, 0))
  {
    hide Gemm.Fits, Rd32;
    forall i: nat, j: nat | g.Valid(i, j)
      ensures CellHolds(g, mem0, mem0, i, j, 0)
    {
      CellValue(g, mem0, mem0, i, j, 0);
    }
  }

  /** The matrix product has been added to C, and nothing else has changed. */
  ghost predicate Multiplied(g: Gemm, mem0: Bytes, mem: Bytes)
    requires g.Fits(|mem0|)
  {
    && Unchanged(g, mem0, mem)
    && forall i: nat, j: nat :: g.Valid(i, j) ==> CellHolds(g, mem0, mem, i, j, g.k)
  }

  lemma AllProgress(g: Gemm, mem0: Bytes, mem: Bytes)
    requires g.Fits(|mem0|) && Progress(g, mem0, mem, Position(g.m, 0, 0, 0))
    ensures Multiplied(g, mem0, mem)
  {
    hide Gemm.Fits, CellHolds;
    forall i: nat, j: nat | g.Valid(i, j)
      ensures CellHolds(g, mem0, mem, i, j, g.k)
    {
      assert CellHolds(g, mem0, mem, i, j, Products(g, Position(g.m, 0, 0, 0), i, j));
    }
  }
}
