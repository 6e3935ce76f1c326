/**
 * The contents of the flat grid plane built by `make_plane`
 * (main.c:53-128).
 *
 * A plane with `div` divisions is a `(div+1) x (div+1)` lattice of vertices,
 * laid out row by row, and `div * div` square cells, each cut into two
 * triangles.  This module defines the vertex and index buffers the way the
 * nested loops produce them, row by row and column by column, proves where
 * each vertex and each cell ends up (a closed form), and proves the
 * properties a renderer relies on: the buffer sizes, that every index names
 * a vertex, that no triangle is degenerate, that all triangles wind the
 * same way, that no vertex is left unused, and where the lattice lies in
 * space.
 */
module PlaneLayout {

  /** Number of values a `uint16_t` can hold. */
  const U16Modulus: int := 0x1_0000

  /** Largest value of a C `int`. */
  const Int32Max: int := 0x7fff_ffff

  /** Largest division count whose vertex ids all fit in a `uint16_t` index. */
  const MaxDivisions: int := 255

  /** Values of the C type `uint16_t`, in which the index buffer is stored. */
  type u16 = x: int | 0 <= x < 0x1_0000

  /** A position; the C program uses three floats, the model exact reals. */
  datatype Vec3 = Vec3(x: real, y: real, z: real)

  /**
   * C's conversion of an `int` to `uint16_t`: the value reduced modulo 2^16.
   * It leaves every value that fits unchanged.
   */
  function ToU16(x: int): (r: u16)
    ensures 0 <= x < U16Modulus ==> r == x
  {
    x % U16Modulus
  }

  // ---------------------------------------------------------------------
  // Sizes
  // ---------------------------------------------------------------------

  /** Number of lattice vertices (main.c:61). */
  function NumVertices(div: int): int {
    (div + 1) * (div + 1)
  }

  /** Number of entries in the index buffer: two triangles per cell (main.c:93). */
  function NumIndices(div: int): int {
    div * div * 2 * 3
  }

  /**
   * The `int` arithmetic of `make_plane` stays within C's `int`: the vertex
   * cursor reaches `3 * NumVertices(div)` and the index count is
   * `NumIndices(div)`.  Signed overflow is undefined in C.
   */
  predicate NoIntOverflow(div: int) {
    3 * NumVertices(div) <= Int32Max && NumIndices(div) <= Int32Max
  }

  // ---------------------------------------------------------------------
  // The index buffer
  // ---------------------------------------------------------------------

  /** Id of the lattice vertex in row `row` and column `col`. */
  function VertexId(div: int, row: int, col: int): int {
    row * (div + 1) + col
  }

  /**
   * The six indices written for cell (`row`, `col`): the top triangle
   * (corner, opposite corner, corner above) and the bottom triangle
   * (corner, corner to the right, opposite corner) (main.c:99-114).
   */
  function CellIndices(div: int, row: int, col: int): (r: seq<int>)
    ensures |r| == 6
  {
    var index := VertexId(div, row, col);
    [index, index + (div + 1) + 1, index + (div + 1),
     index, index + 1, index + (div + 1) + 1]
  }

  /**
   * The indices the nested loops have written when they reach cell
   * (`row`, `col`): all cells of rows `0 .. row - 1`, then cells
   * `0 .. col - 1` of row `row`, six per cell.
   */
  function Cells(div: int, row: nat, col: nat): seq<int>
    requires 0 <= div
    decreases row, col
  {
    if col > 0 then Cells(div, row, col - 1) + CellIndices(div, row, col - 1)
    else if row > 0 then Cells(div, row - 1, div)
    else []
  }

  /** The whole index buffer, as lattice vertex ids: all `div` rows of cells. */
  function IndexBuffer(div: int): (r: seq<int>)
    requires 1 <= div
    ensures |r| == NumIndices(div)
  {
    CellsLength(div, div, 0);
    Cells(div, div, 0)
  }

  /** The index buffer as stored in `uint16_t` slots. */
  function StoredIndices(s: seq<int>): (r: seq<u16>)
    ensures |r| == |s|
  {
    seq(|s|, i requires 0 <= i < |s| => ToU16(s[i]))
  }

  // ---------------------------------------------------------------------
  // The vertex buffer
  // ---------------------------------------------------------------------

  /**
   * Position of lattice vertex (`row`, `col`) of a plane `width` wide:
   * cells are `width / div` wide and the lattice is centred on the origin
   * of the X/Z plane, at height 0 (main.c:64-75).
   */
  function LatticePoint(div: int, width: real, row: int, col: int): Vec3
    requires 1 <= div
  {
    var side := width / (div as real);
    var center := width * 0.5;
    Vec3((col as real) * side - center, 0.0, (row as real) * side - center)
  }

  /** Component `c` of `v`: 0 is x, 1 is y, 2 is z. */
  function Component(v: Vec3, c: int): real {
    if c == 0 then v.x else if c == 1 then v.y else v.z
  }

  /** The scalars of a point in the order they are stored: x, y, z. */
  function Scalars(v: Vec3): (r: seq<real>)
    ensures |r| == 3 && forall c :: 0 <= c < 3 ==> r[c] == Component(v, c)
  {
    [v.x, v.y, v.z]
  }

  /**
   * The scalars the nested loops have written when they reach vertex
   * (`row`, `col`): all vertices of rows `0 .. row - 1`, then vertices
   * `0 .. col - 1` of row `row`, three per vertex.
   */
  function Points(div: int, width: real, row: nat, col: nat): seq<real>
    requires 1 <= div
    decreases row, col
  {
    if col > 0 then Points(div, width, row, col - 1) + Scalars(LatticePoint(div, width, row, col - 1))
    else if row > 0 then Points(div, width, row - 1, div + 1)
    else []
  }

  /** The whole vertex buffer: all `div + 1` rows of the lattice. */
  function VertexBuffer(div: int, width: real): (r: seq<real>)
    requires 1 <= div
    ensures |r| == 3 * NumVertices(div)
  {
    PointsLength(div, width, div + 1, 0);
    Points(div, width, div + 1, 0)
  }

  /** Column of vertex `v` in the lattice. */
  function LatticeCol(div: int, v: int): int
    requires 0 <= div
  {
    v % (div + 1)
  }

  /** Row of vertex `v` in the lattice. */
  function LatticeRow(div: int, v: int): int
    requires 0 <= div
  {
    v / (div + 1)
  }

  /**
   * Twice the signed area of triangle (`a`, `b`, `c`), measured in lattice
   * steps with columns along X and rows along Z.
   */
  function Orientation(div: int, a: int, b: int, c: int): int
    requires 0 <= div
  {
    (LatticeCol(div, b) - LatticeCol(div, a)) * (LatticeRow(div, c) - LatticeRow(div, a))
    - (LatticeRow(div, b) - LatticeRow(div, a)) * (LatticeCol(div, c) - LatticeCol(div, a))
  }

  // ---------------------------------------------------------------------
  // Arithmetic helpers
  // ---------------------------------------------------------------------

  lemma MulLeft(x: int, y: int, n: int)
    requires x <= y && 0 <= n
    ensures x * n <= y * n
  {
    assert y * n - x * n == (y - x) * n;
  }

  /** Euclidean division is determined by quotient and remainder. */
  lemma {:induction false} DivModOf(a: int, n: int, q: int, r: int)
    requires 0 < n && 0 <= r < n && a == q * n + r
    ensures a / n == q && a % n == r
  {
    var q', r' := a / n, a % n;
    assert a == q' * n + r';
    if q' < q {
      MulLeft(q' + 1, q, n);
      assert false;
    } else if q < q' {
      MulLeft(q + 1, q', n);
      assert false;
    }
  }

  /** Row and column of a lattice position are recovered from its id. */
  lemma LatticeAt(div: int, row: int, col: int)
    requires 0 <= div && 0 <= col <= div
    ensures LatticeRow(div, VertexId(div, row, col)) == row
    ensures LatticeCol(div, VertexId(div, row, col)) == col
  {
    DivModOf(VertexId(div, row, col), div + 1, row, col);
  }

  /** Every vertex id of the lattice is that of one row and column. */
  lemma LatticeOf(div: int, v: int) returns (row: int, col: int)
    requires 0 <= div && 0 <= v < NumVertices(div)
    ensures 0 <= row <= div && 0 <= col <= div && v == VertexId(div, row, col)
  {
    row, col := v / (div + 1), v % (div + 1);
    if div < row {
      MulLeft(div + 1, row, div + 1);
      assert false;
    }
  }

  // ---------------------------------------------------------------------
  // Layout
  // ---------------------------------------------------------------------

  /**
   * In lattice terms, the top triangle of cell (`row`, `col`) joins its
   * corner, the opposite corner and the corner above, and the bottom
   * triangle its corner, the corner to the right and the opposite corner:
   * the two share the cell's diagonal.
   */
  lemma CellCorners(div: int, row: int, col: int)
    ensures CellIndices(div, row, col)[0] == CellIndices(div, row, col)[3] == VertexId(div, row, col)
    ensures CellIndices(div, row, col)[1] == CellIndices(div, row, col)[5]
            == VertexId(div, row + 1, col + 1)
    ensures CellIndices(div, row, col)[2] == VertexId(div, row + 1, col)
    ensures CellIndices(div, row, col)[4] == VertexId(div, row, col + 1)
  {
    assert (row + 1) * (div + 1) == row * (div + 1) + (div + 1);
  }

  /** The loops have written six indices per cell visited. */
  lemma {:induction false} CellsLength(div: int, row: nat, col: nat)
    requires 0 <= div
    ensures |Cells(div, row, col)| == 6 * (row * div + col)
    decreases row, col
  {
    if col > 0 {
      CellsLength(div, row, col - 1);
    } else if row > 0 {
      CellsLength(div, row - 1, div);
      assert (row - 1) * div + div == row * div;
    }
  }

  /**
   * Cell (`r`, `c`), once visited, occupies slots `6 * (r * div + c)` to
   * `6 * (r * div + c) + 5`.
   */
  lemma {:induction false} CellsAt(div: int, row: nat, col: nat, r: int, c: int, j: int)
    requires 0 <= div && 0 <= c && 0 <= j < 6
    requires (0 <= r < row && c < div) || (r == row && c < col)
    ensures 6 * (r * div + c) + j < |Cells(div, row, col)|
    ensures Cells(div, row, col)[6 * (r * div + c) + j] == CellIndices(div, r, c)[j]
    decreases row, col
  {
    if col > 0 {
      CellsLength(div, row, col - 1);
      if r == row && c == col - 1 {
      } else {
        CellsAt(div, row, col - 1, r, c, j);
      }
    } else {
      CellsAt(div, row - 1, div, r, c, j);
    }
  }

  /**
   * The six indices of cell (`row`, `col`) sit at slots
   * `6 * (row * div + col)` to `6 * (row * div + col) + 5`, in the order the
   * loop writes them.
   */
  lemma CellLayout(div: int, row: int, col: int, j: int)
    requires 1 <= div && 0 <= row < div && 0 <= col < div && 0 <= j < 6
    ensures 0 <= 6 * (row * div + col) + j < NumIndices(div)
    ensures IndexBuffer(div)[6 * (row * div + col) + j] == CellIndices(div, row, col)[j]
  {
    CellsLength(div, div, 0);
    CellsAt(div, div, 0, row, col, j);
  }

  /** Every slot number is slot `j` of one cell (`row`, `col`). */
  lemma SlotOf(div: int, k: int) returns (row: int, col: int, j: int)
    requires 1 <= div && 0 <= k < NumIndices(div)
    ensures 0 <= row < div && 0 <= col < div && 0 <= j < 6
    ensures k == 6 * (row * div + col) + j
  {
    var cell := k / 6;
    row, col, j := cell / div, cell % div, k % 6;
    assert cell < div * div;
    if div <= row {
      MulLeft(div, row, div);
      assert false;
    }
  }

  /**
   * No two slots of cells coincide: the slot number determines the cell and
   * the entry, so each slot is written by one cell only.
   */
  lemma CellSlotsDisjoint(div: int, r: int, c: int, i: int, r': int, c': int, i': int)
    requires 1 <= div && 0 <= c < div && 0 <= c' < div && 0 <= i < 6 && 0 <= i' < 6
    requires 6 * (r * div + c) + i == 6 * (r' * div + c') + i'
    ensures r == r' && c == c' && i == i'
  {
    var k := 6 * (r * div + c) + i;
    DivModOf(k, 6, r * div + c, i);
    DivModOf(k, 6, r' * div + c', i');
    DivModOf(r * div + c, div, r, c);
    DivModOf(r' * div + c', div, r', c');
  }

  /** Conversely, every slot of the index buffer is a slot of one cell. */
  lemma SlotCell(div: int, k: int) returns (row: int, col: int, j: int)
    requires 1 <= div && 0 <= k < NumIndices(div)
    ensures 0 <= row < div && 0 <= col < div && 0 <= j < 6
    ensures k == 6 * (row * div + col) + j
    ensures IndexBuffer(div)[k] == CellIndices(div, row, col)[j]
  {
    row, col, j := SlotOf(div, k);
    CellLayout(div, row, col, j);
  }

  /** The `uint16_t` conversion distributes over concatenation. */
  lemma StoredAppend(a: seq<int>, b: seq<int>)
    ensures StoredIndices(a + b) == StoredIndices(a) + StoredIndices(b)
  {
    assert forall i :: 0 <= i < |b| ==> (a + b)[|a| + i] == b[i];
  }

  /** The loops have written three scalars per vertex visited. */
  lemma {:induction false} PointsLength(div: int, width: real, row: nat, col: nat)
    requires 1 <= div
    ensures |Points(div, width, row, col)| == 3 * VertexId(div, row, col)
    decreases row, col
  {
    if col > 0 {
      PointsLength(div, width, row, col - 1);
    } else if row > 0 {
      PointsLength(div, width, row - 1, div + 1);
      assert (row - 1) * (div + 1) + div + 1 == row * (div + 1);
    }
  }

  /**
   * Vertex (`r`, `c`), once visited, occupies scalars
   * `3 * VertexId(div, r, c)` to `3 * VertexId(div, r, c) + 2`.
   */
  lemma {:induction false} PointsAt(div: int, width: real, row: nat, col: nat, r: int, c: int, k: int)
    requires 1 <= div && 0 <= c && 0 <= k < 3
    requires (0 <= r < row && c <= div) || (r == row && c < col)
    ensures 3 * VertexId(div, r, c) + k < |Points(div, width, row, col)|
    ensures Points(div, width, row, col)[3 * VertexId(div, r, c) + k]
            == Component(LatticePoint(div, width, r, c), k)
    decreases row, col
  {
    if col > 0 {
      PointsLength(div, width, row, col - 1);
      if r == row && c == col - 1 {
      } else {
        PointsAt(div, width, row, col - 1, r, c, k);
      }
    } else {
      PointsAt(div, width, row - 1, div + 1, r, c, k);
    }
  }

  /**
   * Lattice vertex (`row`, `col`) is stored at scalars `3k .. 3k+2`, where
   * `k = row * (div + 1) + col`.
   */
  lemma VertexLayout(div: int, width: real, row: int, col: int, c: int)
    requires 1 <= div && 0 <= row <= div && 0 <= col <= div && 0 <= c < 3
    ensures 0 <= 3 * VertexId(div, row, col) + c < 3 * NumVertices(div)
    ensures VertexBuffer(div, width)[3 * VertexId(div, row, col) + c]
            == Component(LatticePoint(div, width, row, col), c)
  {
    PointsLength(div, width, div + 1, 0);
    PointsAt(div, width, div + 1, 0, row, col, c);
  }

  /**
   * No two scalars of vertices coincide: the scalar's position determines
   * the vertex and the component, so each scalar is written by one vertex only.
   */
  lemma VertexSlotsDisjoint(div: int, r: int, c: int, k: int, r': int, c': int, k': int)
    requires 0 <= div && 0 <= c <= div && 0 <= c' <= div && 0 <= k < 3 && 0 <= k' < 3
    requires 3 * VertexId(div, r, c) + k == 3 * VertexId(div, r', c') + k'
    ensures r == r' && c == c' && k == k'
  {
    var s := 3 * VertexId(div, r, c) + k;
    DivModOf(s, 3, VertexId(div, r, c), k);
    DivModOf(s, 3, VertexId(div, r', c'), k');
    DivModOf(VertexId(div, r, c), div + 1, r, c);
    DivModOf(VertexId(div, r', c'), div + 1, r', c');
  }

  /** Conversely, every scalar of the vertex buffer belongs to one vertex. */
  lemma VertexSlot(div: int, width: real, s: int) returns (row: int, col: int, c: int)
    requires 1 <= div && 0 <= s < 3 * NumVertices(div)
    ensures 0 <= row <= div && 0 <= col <= div && 0 <= c < 3
    ensures s == 3 * VertexId(div, row, col) + c
    ensures VertexBuffer(div, width)[s] == Component(LatticePoint(div, width, row, col), c)
  {
    row, col := LatticeOf(div, s / 3);
    c := s % 3;
    VertexLayout(div, width, row, col, c);
  }

  // ---------------------------------------------------------------------
  // Index buffer properties
  // ---------------------------------------------------------------------

  /**
   * Every index names a lattice vertex: the largest one, written for the
   * last cell, is `(div - 1) * (div + 1) + (div - 1) + div + 2`, which is
   * `NumVertices(div) - 1`.
   */
  lemma IndexInRange(div: int, k: int)
    requires 1 <= div && 0 <= k < NumIndices(div)
    ensures 0 <= IndexBuffer(div)[k] < NumVertices(div)
  {
    var row, col, j := SlotCell(div, k);
    MulLeft(row, div - 1, div + 1);
    assert VertexId(div, row, col) + (div + 1) + 1 < NumVertices(div);
  }

  /**
   * The indices fit their `uint16_t` slots unchanged exactly when
   * `div <= 255`; beyond that the last vertex id, which some triangle
   * uses, is at least 2^16 and is stored wrapped.
   */
  lemma StoredIndicesExact(div: int)
    requires 1 <= div
    ensures StoredIndices(IndexBuffer(div)) == IndexBuffer(div) <==> div <= MaxDivisions
  {
    var buffer := IndexBuffer(div);
    if div <= MaxDivisions {
      MulLeft(div + 1, MaxDivisions + 1, div + 1);
      MulLeft(div + 1, MaxDivisions + 1, MaxDivisions + 1);
      forall k | 0 <= k < |buffer|
        ensures StoredIndices(buffer)[k] == buffer[k]
      {
        IndexInRange(div, k);
      }
    } else {
      var last := NumVertices(div) - 1;
      MulLeft(MaxDivisions + 2, div + 1, div + 1);
      MulLeft(MaxDivisions + 2, MaxDivisions + 2, div + 1);
      EveryVertexReferenced(div, last);
      var k :| 0 <= k < NumIndices(div) && buffer[k] == last;
      assert StoredIndices(buffer)[k] != buffer[k];
    }
  }

  /**
   * Triangle `t` occupies slots `3t` to `3t + 2`: the even ones are the top
   * triangles of their cells, the odd ones the bottom triangles.
   */
  lemma TriangleCell(div: int, t: int) returns (row: int, col: int)
    requires 1 <= div && 0 <= t && 3 * t + 2 < NumIndices(div)
    ensures 0 <= row < div && 0 <= col < div
    ensures var index, buffer := VertexId(div, row, col), IndexBuffer(div);
            if t % 2 == 0 then
              buffer[3 * t] == index && buffer[3 * t + 1] == index + (div + 1) + 1
              && buffer[3 * t + 2] == index + (div + 1)
            else
              buffer[3 * t] == index && buffer[3 * t + 1] == index + 1
              && buffer[3 * t + 2] == index + (div + 1) + 1
  {
    var j;
    row, col, j := SlotCell(div, 3 * t);
    DivModOf(3 * t, 6, row * div + col, j);
    DivModOf(3 * t, 6, t / 2, 3 * (t % 2));
    CellLayout(div, row, col, j + 1);
    CellLayout(div, row, col, j + 2);
  }

  /** The three indices of every triangle are pairwise distinct. */
  lemma TriangleNonDegenerate(div: int, t: int)
    requires 1 <= div && 0 <= t && 3 * t + 2 < NumIndices(div)
    ensures IndexBuffer(div)[3 * t] != IndexBuffer(div)[3 * t + 1]
    ensures IndexBuffer(div)[3 * t + 1] != IndexBuffer(div)[3 * t + 2]
    ensures IndexBuffer(div)[3 * t] != IndexBuffer(div)[3 * t + 2]
  {
    var row, col := TriangleCell(div, t);
  }

  /**
   * Every triangle covers half a cell and all of them wind the same way,
   * so a renderer that culls by winding keeps all of them or none.
   */
  lemma ConsistentWinding(div: int, t: int)
    requires 1 <= div && 0 <= t && 3 * t + 2 < NumIndices(div)
    ensures Orientation(div, IndexBuffer(div)[3 * t], IndexBuffer(div)[3 * t + 1],
                        IndexBuffer(div)[3 * t + 2]) == 1
  {
    var row, col := TriangleCell(div, t);
    var index := VertexId(div, row, col);
    var right, above, opposite := index + 1, index + (div + 1), index + (div + 1) + 1;
    assert right == VertexId(div, row, col + 1);
    assert above == VertexId(div, row + 1, col);
    assert opposite == VertexId(div, row + 1, col + 1);
    LatticeAt(div, row, col);
    LatticeAt(div, row, col + 1);
    LatticeAt(div, row + 1, col);
    LatticeAt(div, row + 1, col + 1);
    if t % 2 == 0 {
      // corner, opposite corner, corner above
      assert LatticeCol(div, opposite) - LatticeCol(div, index) == 1;
      assert LatticeRow(div, above) - LatticeRow(div, index) == 1;
      assert LatticeRow(div, opposite) - LatticeRow(div, index) == 1;
      assert LatticeCol(div, above) - LatticeCol(div, index) == 0;
      assert Orientation(div, index, opposite, above) == 1 * 1 - 1 * 0;
    } else {
      // corner, corner to the right, opposite corner
      assert LatticeCol(div, right) - LatticeCol(div, index) == 1;
      assert LatticeRow(div, opposite) - LatticeRow(div, index) == 1;
      assert LatticeRow(div, right) - LatticeRow(div, index) == 0;
      assert LatticeCol(div, opposite) - LatticeCol(div, index) == 1;
      assert Orientation(div, index, right, opposite) == 1 * 1 - 0 * 1;
    }
  }

  /** No vertex of the lattice is left out of the triangle list. */
  lemma EveryVertexReferenced(div: int, v: int)
    requires 1 <= div && 0 <= v < NumVertices(div)
    ensures exists k :: 0 <= k < NumIndices(div) && IndexBuffer(div)[k] == v
  {
    var row, col := LatticeOf(div, v);
    // The cell and slot whose entry is `v`.
    if row < div && col < div {
      CellLayout(div, row, col, 0);
    } else if row < div {
      assert v == VertexId(div, row, div - 1) + 1;
      CellLayout(div, row, div - 1, 4);
    } else if col < div {
      assert v == VertexId(div, div - 1, col) + (div + 1);
      CellLayout(div, div - 1, col, 2);
    } else {
      assert v == VertexId(div, div - 1, div - 1) + (div + 1) + 1;
      CellLayout(div, div - 1, div - 1, 1);
    }
  }

  // ---------------------------------------------------------------------
  // Vertex buffer properties
  // ---------------------------------------------------------------------

  /** Steps of `width / div` from 0 to `div` stay within `[0, width]`. */
  lemma StepWithin(div: int, width: real, i: int)
    requires 1 <= div && 0.0 <= width && 0 <= i <= div
    ensures 0.0 <= (i as real) * (width / (div as real)) <= width
  {
    var side := width / (div as real);
    assert 0.0 <= side;
    assert (div as real) * side == width;
    assert (i as real) * side <= (div as real) * side by {
      assert ((div - i) as real) * side >= 0.0;
    }
  }

  /**
   * For a plane of non-negative width every coordinate of every vertex lies
   * in `[-width/2, width/2]`.
   */
  lemma VertexInSpan(div: int, width: real, s: int)
    requires 1 <= div && 0.0 <= width && 0 <= s < 3 * NumVertices(div)
    ensures -width * 0.5 <= VertexBuffer(div, width)[s] <= width * 0.5
  {
    var row, col, c := VertexSlot(div, width, s);
    StepWithin(div, width, row);
    StepWithin(div, width, col);
  }

  /** Every vertex lies in the X/Z plane: its height is 0 (main.c:71). */
  lemma FlatLattice(div: int, width: real, v: int)
    requires 1 <= div && 0 <= v < NumVertices(div)
    ensures 3 * v + 1 < 3 * NumVertices(div)
    ensures VertexBuffer(div, width)[3 * v + 1] == 0.0
  {
    var row, col := LatticeOf(div, v);
    VertexLayout(div, width, row, col, 1);
  }

  /** The first vertex is the corner `(-width/2, 0, -width/2)`. */
  lemma FirstCorner(div: int, width: real)
    requires 1 <= div
    ensures VertexBuffer(div, width)[..3] == [-width * 0.5, 0.0, -width * 0.5]
  {
    var buffer := VertexBuffer(div, width);
    assert LatticePoint(div, width, 0, 0) == Vec3(-width * 0.5, 0.0, -width * 0.5);
    VertexLayout(div, width, 0, 0, 0);
    VertexLayout(div, width, 0, 0, 1);
    VertexLayout(div, width, 0, 0, 2);
    assert buffer[..3] == [buffer[0], buffer[1], buffer[2]];
  }

  /**
   * The last vertex is the opposite corner `(width/2, 0, width/2)`, so the
   * lattice spans the whole width on both axes.
   */
  lemma LastCorner(div: int, width: real)
    requires 1 <= div
    ensures VertexBuffer(div, width)[3 * NumVertices(div) - 3..]
            == [width * 0.5, 0.0, width * 0.5]
  {
    var buffer := VertexBuffer(div, width);
    var n := 3 * NumVertices(div);
    assert LatticePoint(div, width, div, div) == Vec3(width * 0.5, 0.0, width * 0.5) by {
      assert (div as real) * (width / (div as real)) == width;
    }
    assert VertexId(div, div, div) == NumVertices(div) - 1 by {
      assert (div + 1) * (div + 1) == div * (div + 1) + div + 1;
    }
    VertexLayout(div, width, div, div, 0);
    VertexLayout(div, width, div, div, 1);
    VertexLayout(div, width, div, div, 2);
    assert buffer[n - 3..] == [buffer[n - 3], buffer[n - 2], buffer[n - 1]];
  }

  // ---------------------------------------------------------------------
  // Concrete planes
  // ---------------------------------------------------------------------

  /**
   * The plane built at start-up (main.c:139-141) has one division: four
   * vertices and the six indices `0, 3, 2` and `0, 1, 3`.
   */
  lemma StartupIndices()
    ensures NumVertices(1) == 4 && NumIndices(1) == 6
    ensures IndexBuffer(1) == [0, 3, 2, 0, 1, 3]
  {
    var indices := IndexBuffer(1);
    assert indices[0] == 0 && indices[1] == 3 && indices[2] == 2;
    assert indices[3] == 0 && indices[4] == 1 && indices[5] == 3;
  }

  /**
   * With width 1, as at start-up, the four vertices are the corners of the
   * unit square centred on the origin, row by row.
   */
  lemma StartupVertices()
    ensures VertexBuffer(1, 1.0)
            == [-0.5, 0.0, -0.5, 0.5, 0.0, -0.5, -0.5, 0.0, 0.5, 0.5, 0.0, 0.5]
  {
    var vertices := VertexBuffer(1, 1.0);
    assert LatticePoint(1, 1.0, 0, 0) == Vec3(-0.5, 0.0, -0.5);
    assert LatticePoint(1, 1.0, 0, 1) == Vec3(0.5, 0.0, -0.5);
    assert LatticePoint(1, 1.0, 1, 0) == Vec3(-0.5, 0.0, 0.5);
    assert LatticePoint(1, 1.0, 1, 1) == Vec3(0.5, 0.0, 0.5);
    assert vertices[0] == -0.5 && vertices[1] == 0.0 && vertices[2] == -0.5;
    assert vertices[3] == 0.5 && vertices[4] == 0.0 && vertices[5] == -0.5;
    assert vertices[6] == -0.5 && vertices[7] == 0.0 && vertices[8] == 0.5;
    assert vertices[9] == 0.5 && vertices[10] == 0.0 && vertices[11] == 0.5;
  }

  /**
   * With 256 divisions the vertex ids no longer fit a `uint16_t`: the
   * second index of the last cell is vertex 66048, the far corner, but the
   * slot keeps 512, the vertex in the second row (row 1, column 255).
   */
  lemma StoredIndexWrapsAt256()
    ensures IndexBuffer(256)[393211] == 66048 == NumVertices(256) - 1
    ensures StoredIndices(IndexBuffer(256))[393211] == 512
  {
    CellLayout(256, 255, 255, 1);
  }
}
