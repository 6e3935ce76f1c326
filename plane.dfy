/**
 * The plane record `plane_t` (main.c:29-36) and its generator `make_plane`
 * (main.c:53-128), which allocates the vertex and index buffers and fills
 * them in nested row/column loops driven by a running `count` cursor.
 */
module Plane {
  import opened PlaneLayout

  /** How the plane is drawn (main.c:23-27). */
  datatype DrawMode = Solid | Wireframe

  datatype Option<T> = None | Some(value: T)

  /**
   * `plane_t`: where the plane is placed, its two heap buffers with their
   * element counts, and the draw mode.  Like the C struct it is a value
   * that holds references to the buffers.
   */
  datatype Plane = Plane(
    position: Vec3,
    vertices: array<real>,
    indices: array<u16>,
    numVertices: int,
    numIndices: int,
    currentDrawMode: DrawMode)

  /**
   * `make_plane` as written.  The vertex buffer holds the lattice row by
   * row, three scalars per vertex; the index buffer holds two triangles per
   * cell, each vertex id converted to `uint16_t` as C does, so for more
   * than 255 divisions the stored ids wrap (see `StoredIndicesExact`).
   * The requires clause excludes a zero division count, which the cell size
   * divides by, and signed `int` overflow.
   */
  method MakePlane(position: Vec3, div: int, width: real, mode: DrawMode)
    returns (plane: Plane)
    requires 1 <= div && NoIntOverflow(div)
    ensures fresh(plane.vertices) && fresh(plane.indices)
    ensures plane.position == position && plane.currentDrawMode == mode
    ensures plane.numVertices == NumVertices(div)
    ensures plane.vertices.Length == 3 * plane.numVertices
    ensures plane.vertices[..] == VertexBuffer(div, width)
    ensures plane.numIndices == NumIndices(div) == plane.indices.Length
    ensures plane.indices[..] == StoredIndices(IndexBuffer(div))
  {
    // The lattice: three scalars per vertex
    var numVertices := (div + 1) * (div + 1);
    var vertices := new real[numVertices * 3];
    FillVertices(vertices, div, width);

    // The triangle list: six indices per cell
    var numIndices := div * div * 2 * 3;
    var indices := new u16[numIndices];
    FillIndices(indices, div);

    plane := Plane(position, vertices, indices, numVertices, numIndices, mode);
  }

  /**
   * The vertex loops of `make_plane` (main.c:64-79): for each row and each
   * column, the cursor `count` advances by three past the vertex's x, y and
   * z, so the buffer filled so far always holds the vertices visited so far.
   */
  method FillVertices(vertices: array<real>, div: int, width: real)
    requires 1 <= div && vertices.Length == 3 * NumVertices(div)
    modifies vertices
    ensures vertices[..] == VertexBuffer(div, width)
  {
    var triangleSide := width / (div as real);
    var center := width * 0.5;
    var count := 0;
    for row := 0 to div + 1
      invariant count == 3 * VertexId(div, row, 0) <= vertices.Length
      invariant vertices[..count] == Points(div, width, row, 0)
    {
      for col := 0 to div + 1
        invariant count == 3 * VertexId(div, row, col) <= vertices.Length
        invariant vertices[..count] == Points(div, width, row, col)
      {
        // x and z are offset by half the width so the grid is centred
        var x := (col as real) * triangleSide;
        var y := 0.0;
        var z := (row as real) * triangleSide;
        VertexFits(div, row, col);
        NextVertex(div, width, row, col, triangleSide, center);
        ghost var done := vertices[..count];
        vertices[count + 0] := x - center;
        vertices[count + 1] := y;
        vertices[count + 2] := z - center;
        assert vertices[..count + 3] == done + [x - center, y, z - center];

        count := count + 3;
      }
      NextRow(div, row);
    }
    assert vertices[..] == vertices[..count];
  }

  /** The cursor value after the last column of a row is that of the next row. */
  lemma NextRow(div: int, row: int)
    ensures VertexId(div, row, div + 1) == VertexId(div, row + 1, 0)
  {
  }

  /** The three slots of vertex (`row`, `col`) lie inside the buffer. */
  lemma VertexFits(div: int, row: int, col: int)
    requires 0 <= row <= div && 0 <= col <= div
    ensures 3 * VertexId(div, row, col) + 3 <= 3 * NumVertices(div)
  {
    MulLeft(row + 1, div + 1, div + 1);
  }

  /**
   * The three scalars the vertex loop computes for vertex (`row`, `col`)
   * extend the vertices visited before it.
   */
  lemma NextVertex(div: int, width: real, row: int, col: int, side: real, center: real)
    requires 1 <= div && 0 <= row && 0 <= col
    requires side == width / (div as real) && center == width * 0.5
    ensures Points(div, width, row, col + 1)
            == Points(div, width, row, col)
               + [(col as real) * side - center, 0.0, (row as real) * side - center]
  {
    assert LatticePoint(div, width, row, col)
           == Vec3((col as real) * side - center, 0.0, (row as real) * side - center);
  }

  /**
   * The index loops of `make_plane` (main.c:93-117): for each cell the
   * cursor `count` advances by six past its two triangles, so the buffer
   * filled so far always holds the cells visited so far, each vertex id
   * stored as `uint16_t`.
   */
  method FillIndices(indices: array<u16>, div: int)
    requires 1 <= div && indices.Length == NumIndices(div)
    modifies indices
    ensures indices[..] == StoredIndices(IndexBuffer(div))
  {
    var count := 0;
    for row := 0 to div
      invariant count == 6 * (row * div) <= indices.Length
      invariant indices[..count] == StoredIndices(Cells(div, row, 0))
    {
      for col := 0 to div
        invariant count == 6 * (row * div + col) <= indices.Length
        invariant indices[..count] == StoredIndices(Cells(div, row, col))
      {
        var index := row * (div + 1) + col;
        CellFits(div, row, col);
        ghost var done := indices[..count];
        // corner, opposite corner, corner above
        indices[count + 0] := ToU16(index);
        indices[count + 1] := ToU16(index + (div + 1) + 1);
        indices[count + 2] := ToU16(index + (div + 1));

        // corner, corner to the right, opposite corner
        indices[count + 3] := ToU16(index);
        indices[count + 4] := ToU16(index + 1);
        indices[count + 5] := ToU16(index + (div + 1) + 1);
        assert indices[..count + 6] == done + [ToU16(index), ToU16(index + (div + 1) + 1),
          ToU16(index + (div + 1)), ToU16(index), ToU16(index + 1), ToU16(index + (div + 1) + 1)];
        NextCell(div, row, col, index);
        count := count + 6;
      }
      NextCellRow(div, row);
    }
    assert indices[..] == indices[..count];
  }

  /** The cursor value after the last cell of a row is that of the next row. */
  lemma NextCellRow(div: int, row: int)
    ensures row * div + div == (row + 1) * div
  {
  }

  /** The six slots of cell (`row`, `col`) lie inside the buffer. */
  lemma CellFits(div: int, row: int, col: int)
    requires 0 <= row < div && 0 <= col < div
    ensures 6 * (row * div + col) + 6 <= NumIndices(div)
  {
    MulLeft(row + 1, div, div);
  }

  /**
   * The six `uint16_t` values the index loop writes for cell (`row`, `col`)
   * extend the cells visited before it.
   */
  lemma NextCell(div: int, row: int, col: int, index: int)
    requires 0 <= div && 0 <= row && 0 <= col
    requires index == VertexId(div, row, col)
    ensures StoredIndices(Cells(div, row, col + 1))
            == StoredIndices(Cells(div, row, col))
               + [ToU16(index), ToU16(index + (div + 1) + 1), ToU16(index + (div + 1)),
                  ToU16(index), ToU16(index + 1), ToU16(index + (div + 1) + 1)]
  {
    StoredAppend(Cells(div, row, col), CellIndices(div, row, col));
    assert StoredIndices(CellIndices(div, row, col))
           == [ToU16(index), ToU16(index + (div + 1) + 1), ToU16(index + (div + 1)),
               ToU16(index), ToU16(index + 1), ToU16(index + (div + 1) + 1)];
  }

  /**
   * `make_plane` with the guard its buffers need: no plane unless
   * `1 <= div <= 255`.  Every plane it returns stores the lattice ids
   * unchanged, each naming one of its vertices.
   */
  method MakePlaneChecked(position: Vec3, div: int, width: real, mode: DrawMode)
    returns (r: Option<Plane>)
    ensures r.None? <==> !(1 <= div <= MaxDivisions)
    ensures r.Some? ==> fresh(r.value.vertices) && fresh(r.value.indices)
    ensures r.Some? ==> r.value.position == position && r.value.currentDrawMode == mode
    ensures r.Some? ==> r.value.numVertices == NumVertices(div)
                        && r.value.vertices[..] == VertexBuffer(div, width)
    ensures r.Some? ==> r.value.numIndices == NumIndices(div)
                        && r.value.indices[..] == IndexBuffer(div)
    ensures r.Some? ==> forall k :: 0 <= k < r.value.numIndices
                          ==> r.value.indices[k] < r.value.numVertices
  {
    if div < 1 || MaxDivisions < div {
      return None;
    }
    MulLeft(div + 1, MaxDivisions + 1, div + 1);
    MulLeft(div + 1, MaxDivisions + 1, MaxDivisions + 1);
    MulLeft(div, MaxDivisions, div);
    MulLeft(div, MaxDivisions, MaxDivisions);
    var plane := MakePlane(position, div, width, mode);
    StoredIndicesExact(div);
    forall k | 0 <= k < plane.numIndices
      ensures plane.indices[k] < plane.numVertices
    {
      IndexInRange(div, k);
      assert plane.indices[k] == plane.indices[..][k];
    }
    return Some(plane);
  }
}
