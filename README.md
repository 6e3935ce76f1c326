# Grid plane generator

This project models `make_plane` in `main.c`. It builds the flat grid that the
terrain shader displaces.

Given a division count `div` and a width, `make_plane` does three things:

- It allocates a vertex buffer for the `(div+1) x (div+1)` lattice, three
  floats per vertex. It fills the buffer row by row, centred on the origin of
  the X/Z plane at height 0.
- It allocates an index buffer of `uint16_t` and fills it with two triangles
  per grid cell, six indices per cell.
- It returns both buffers in a `plane_t` record, together with their counts,
  the caller's position and the caller's draw mode.

The model has two modules.

- `PlaneLayout` (`plane_layout.dfy`) defines what the two buffers hold.
  - `Points` and `Cells` build the buffers the way the nested loops do: row by
    row, column by column.
  - `VertexBuffer` and `IndexBuffer` are the complete buffers.
  - `StoredIndices` applies C's conversion to `uint16_t`.
  - Lemmas prove the closed-form layout: where each vertex and each cell
    lands. They also prove what a renderer relies on: buffer sizes, every
    index naming a vertex, non-degenerate triangles, one winding for all
    triangles, every vertex used, and the span of the lattice.
- `Plane` (`plane.dfy`) is the imperative side.
  - `plane_t` is modelled as a datatype that holds two Dafny arrays.
  - `MakePlane` allocates the arrays and fills them with the source's nested
    loops and running `count` cursor.
  - The loop invariants tie the filled prefix of each array to `Points` and
    `Cells`.
  - `MakePlaneChecked` is the same generator guarded by `1 <= div <= 255`
    (see Findings).

Float coordinates are modelled as reals. The `int` arithmetic is unbounded:
`MakePlane` requires `NoIntOverflow(div)`, which keeps every `int` the source
computes within C's `int`. The store of an `int` into a `uint16_t` slot is
written out as reduction modulo 2^16 (`ToU16`).

## Model

| member | source | states |
|---|---|---|
| `PlaneLayout.ToU16` | main.c:104-114 | storing an `int` in a `uint16_t` slot leaves every value in `[0, 65536)` unchanged |
| `PlaneLayout.NumVertices` | main.c:61 | the vertex count, `(div+1)*(div+1)`: one vertex per lattice point |
| `PlaneLayout.NumIndices` | main.c:93 | the index count, `div*div*2*3`: two triangles of three indices per cell |
| `PlaneLayout.VertexId` | main.c:99 | the id of lattice vertex (row, col) in row-major order, `row*(div+1)+col`, the `index` of the cell loop |
| `PlaneLayout.CellIndices` | main.c:99-114 | the six indices the loop writes for a cell, top triangle then bottom triangle; it has length 6 |
| `PlaneLayout.CellCorners` | main.c:99-114 | in lattice terms, the top triangle is (corner, opposite corner, corner above) and the bottom one (corner, corner to the right, opposite corner), sharing the diagonal |
| `PlaneLayout.Cells` | main.c:96-117 | the index prefix the loops have written on reaching cell (row, col): the cells of the earlier rows, then the earlier cells of this row |
| `PlaneLayout.StoredIndices` | main.c:104-114 | the indices as held in `uint16_t` slots, one slot per index, values that fit kept unchanged |
| `PlaneLayout.IndexBuffer` | main.c:93-117 | the index buffer the loops produce has exactly `div*div*2*3` entries |
| `PlaneLayout.LatticePoint` | main.c:64-75 | the position of lattice vertex (row, col): `(col*(width/div) - width/2, 0, row*(width/div) - width/2)`, centred on the origin of the X/Z plane at height 0 |
| `PlaneLayout.Points` | main.c:66-79 | the vertex prefix the loops have written on reaching vertex (row, col): x, y, z of every vertex visited so far |
| `PlaneLayout.VertexBuffer` | main.c:61-79 | the vertex buffer the loops produce has exactly `3*(div+1)*(div+1)` scalars |
| `PlaneLayout.CellsLength` | main.c:96-117 | when the loops reach cell (row, col), the cursor has advanced six slots for each cell visited: `6*(row*div+col)` |
| `PlaneLayout.CellsAt` | main.c:96-117 | once visited, cell (r, c) occupies slots `6*(r*div+c)` to `6*(r*div+c)+5`, holding its six indices in write order, and later cells do not move it |
| `PlaneLayout.CellLayout` | main.c:97-116 | in the finished buffer, the six indices of cell (row, col) sit at `6*(row*div+col)+j` and are `base, base+div+2, base+div+1, base, base+1, base+div+2` with `base = row*(div+1)+col` |
| `PlaneLayout.SlotOf` | main.c:97-98 | every slot below `div*div*6` is slot `6*(row*div+col)+j`, with `j < 6`, of some cell (row, col) with `row, col < div` |
| `PlaneLayout.CellSlotsDisjoint` | main.c:97-115 | two cells' slots never coincide: `6*(r*div+c)+i` determines the cell (r, c) and the entry `i`, so the loops write no slot twice |
| `PlaneLayout.SlotCell` | main.c:97-116 | every slot of the index buffer is written: it holds entry `j` of the indices of the cell that owns it (with `CellSlotsDisjoint`, each slot is written exactly once) |
| `PlaneLayout.StoredAppend` | main.c:104-114 | the per-slot `uint16_t` conversion of a concatenation is the concatenation of the conversions |
| `PlaneLayout.PointsLength` | main.c:66-78 | when the loops reach vertex (row, col), the cursor stands at `3*(row*(div+1)+col)` |
| `PlaneLayout.PointsAt` | main.c:67-77 | once visited, vertex (r, c) occupies scalars `3k..3k+2`, with `k = r*(div+1)+c`, holding its x, y, z, and later vertices do not move it |
| `PlaneLayout.VertexLayout` | main.c:64-77 | in the finished buffer, vertex `k = row*(div+1)+col` is stored at scalars `3k..3k+2` as `(col*width/div - width/2, 0, row*width/div - width/2)` |
| `PlaneLayout.VertexSlot` | main.c:64-77 | every scalar of the vertex buffer is written: it is component `c` of some lattice vertex (row, col) |
| `PlaneLayout.VertexSlotsDisjoint` | main.c:67-77 | two vertices' scalars never coincide: `3*(r*(div+1)+c)+k` determines the vertex (r, c) and the component `k`, so the loops write no scalar twice |
| `PlaneLayout.LatticeOf` | main.c:67-68 | every vertex id below `(div+1)^2` is `row*(div+1)+col` for a lattice row and column in `[0, div]` |
| `PlaneLayout.LatticeAt` | main.c:99 | the row and column of a vertex are recovered from its id by division and remainder by `div+1` |
| `PlaneLayout.IndexInRange` | main.c:99-114 | every index names a vertex: `0 <= index < (div+1)^2` |
| `PlaneLayout.StoredIndicesExact` | main.c:104-114 | the `uint16_t` slots hold the vertex ids unchanged if and only if `div <= 255` |
| `PlaneLayout.TriangleCell` | main.c:99-114 | triangle `t` (slots `3t..3t+2`) is the top triangle of its cell when `t` is even and the bottom triangle when `t` is odd |
| `PlaneLayout.TriangleNonDegenerate` | main.c:104-114 | the three indices of every triangle are pairwise distinct |
| `PlaneLayout.ConsistentWinding` | main.c:99-114 | twice the signed area of every triangle, in lattice units, is +1 (half a cell), so all triangles wind the same way |
| `PlaneLayout.EveryVertexReferenced` | main.c:97-114 | every vertex of the lattice appears in some slot of the index buffer |
| `PlaneLayout.StepWithin` | main.c:64-72 | for `0 <= i <= div` and non-negative width, `i*(width/div)` lies in `[0, width]` |
| `PlaneLayout.VertexInSpan` | main.c:64-77 | for non-negative width, every stored coordinate lies in `[-width/2, width/2]` |
| `PlaneLayout.FlatLattice` | main.c:71-74 | the y component of every vertex is 0 |
| `PlaneLayout.FirstCorner` | main.c:64-77 | the first vertex is the corner `(-width/2, 0, -width/2)` |
| `PlaneLayout.LastCorner` | main.c:64-77 | the last vertex is the opposite corner `(width/2, 0, width/2)` |
| `PlaneLayout.StartupIndices` | main.c:139-141 | the start-up plane (one division) has 4 vertices and the indices `[0,3,2, 0,1,3]` |
| `PlaneLayout.StartupVertices` | main.c:139-141 | the start-up plane of width 1 has its four vertices at the corners of the unit square centred on the origin, row by row |
| `PlaneLayout.StoredIndexWrapsAt256` | main.c:104-114 | with 256 divisions, slot 393211 should name the far corner, vertex 66048, but its `uint16_t` slot holds 512 |
| `Plane.MakePlane` | main.c:53-128 | the returned record has fresh buffers, the caller's position and mode, `(div+1)^2` vertices and `div*div*6` indices; the vertex array equals `VertexBuffer` and the index array equals the `uint16_t` conversion of `IndexBuffer` |
| `Plane.FillVertices` | main.c:64-79 | after the nested vertex loops, the array equals `VertexBuffer(div, width)`; the invariant is that the filled prefix `vertices[..count]` is the lattice visited so far |
| `Plane.NextVertex` | main.c:70-77 | the three scalars written for vertex (row, col) extend the lattice visited before it by exactly that vertex |
| `Plane.VertexFits` | main.c:73-75 | the three writes for vertex (row, col) stay inside the `3*(div+1)^2` buffer |
| `Plane.FillIndices` | main.c:93-117 | after the nested cell loops, the array equals the `uint16_t` conversion of `IndexBuffer(div)`; the invariant is that the filled prefix `indices[..count]` holds the cells visited so far |
| `Plane.NextCell` | main.c:99-115 | the six `uint16_t` values written for cell (row, col) extend the cells visited before it by exactly that cell |
| `Plane.CellFits` | main.c:104-114 | the six writes for cell (row, col) stay inside the `div*div*6` buffer |
| `Plane.MakePlaneChecked` | main.c:53-128 | no plane exactly when `div` is outside `[1, 255]`; otherwise the plane of `MakePlane`, whose `uint16_t` indices are the lattice ids unchanged, each below the vertex count |

## Left out

- `destroy_plane` (main.c:48-51) and the `malloc` calls: the buffers are modelled as freshly allocated Dafny arrays. Releasing them has no behaviour beyond freeing memory, which Dafny does not model.
- Float rounding: coordinates are reals. `width / div` and `width * 0.5f` are exact, so `VertexInSpan`, `FirstCorner` and `LastCorner` hold exactly. In single precision they hold only up to rounding.
- `div < 1`: `MakePlane` requires `1 <= div`, and `MakePlaneChecked` returns no plane for it. In C, `div = 0` gives one vertex, row 0 and column 0. Its x and z are `0 * (width / 0)`, which is NaN, and its y is 0. The index loops write nothing. For `div = -1`, main.c:61 and main.c:93 allocate 0 vertices and 6 indices. For `div <= -2`, they allocate `(div+1)^2` vertices and `6*div^2` indices. In both negative cases neither loop runs, so the buffers are returned never written, and a caller that uploads and draws them reads unwritten memory.
- Signed `int` overflow: `MakePlane` requires `NoIntOverflow(div)`, because overflow is undefined behaviour in C and has no defined result to model.
- `MakePlane` does not model the allocation sizes `sizeof(float) * num_vertices * 3` and `sizeof(uint16_t) * num_indices` as `size_t` products. It allocates arrays of exactly the intended length, which matches C only where `size_t` is 64 bits. With a 32-bit `size_t`, as on wasm32, the vertex product `12 * (div+1)^2` wraps at `div = 18918`, which `NoIntOverflow` admits. There the product wraps to 175436 bytes, and the vertex loop then writes past the end of the buffer.
- The commented-out DEBUG dumps (main.c:81-90, main.c:119-125) print nothing.
- The sokol_gfx buffers, shaders, pipelines and draw calls (main.c:131-198, main.c:241-252): these are foreign graphics calls.
- The cimgui overlay, the event dispatch and the quit request (main.c:202-227, main.c:261-274): these are UI and windowing plumbing.
- The draw-mode choice (main.c:209, main.c:229): it only copies a flag. `MakePlane` only stores the mode it is given.
- The per-frame projection, view and model matrices and the spin angle `ry` (main.c:232-247): this is floating-point matrix code in HandmadeMath.
- A fly camera controller: `main.c` has none. The view uses a fixed eye position looking at the origin (main.c:233). The model follows the code.

## Findings

| source | as written | input that shows it | evidently intended | confidence | as-written member | corrected member |
|---|---|---|---|---|---|---|
| main.c:104-114 | each vertex id, an `int`, is stored in a `uint16_t` slot with no check on `div`, so ids of 65536 and above wrap | `div = 256`: slot 393211, the second index of the last cell, should be vertex 66048 but stores 512 | refuse more than 255 divisions, so that every id fits a `uint16_t` | medium, not executed | `PlaneLayout.StoredIndexWrapsAt256` | `Plane.MakePlaneChecked` |
