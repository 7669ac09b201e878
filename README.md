# Parametric surface tessellation, modelled in Dafny

This project models the mesh assembly of the surface viewer's `createSurface`
(`t2/surfaces.js`). `createSurface` samples a parametric surface on an `n × m`
grid and fills three flat buffers. It also registers one sub-mesh. The project
also models the line loop of the floor grid helper `createGrid`.

- **Vertex pass.** For `side` 0 and 1, and for `i < n`, `j < m` in row-major
  order, the builder evaluates the sample at `u = i/(n-1)`, `v = j/(m-1)`. It
  pushes the three position scalars and the three normal scalars times
  `sgn = 1 - 2·side`. Vertex `side·n·m + i·m + j` therefore holds sample
  `(i, j)`. Side 1 carries the negated normal.
- **Index pass.** For each side and each cell `(i, j)` with `i + 1 < n` and
  `j + 1 < m`, let `k = i·m + j + vCount·side`. Side 0 pushes `(k, k+1, k+1+m)`
  and `(k, k+1+m, k+m)`. Side 1 pushes the same triples with the last two
  vertices swapped, which reverses the winding.
- **Sub-mesh.** One sub-mesh with material index 1 is registered over
  vertices `[0, 2·vCount)` and indices `[0, 6·(n-1)·(m-1))`.
- **Floor grid.** Iteration `i < count` adds one line along z and one along x.
  Both get the tick colour when `i % ticks == 0`, and the plain colour
  otherwise.

Floating point is abstract. The scalar type is a type parameter `F`. The
vertex evaluator `computeVertex` (`t2/surfaces.js:98-105`) is a function
parameter from a parameter pair to a position and an estimated normal. Scalar
negation is a function parameter `neg`. `sgn · x` is written as `x` when
`sgn = 1` and as `neg(x)` when `sgn = -1`. The resolution `n, m` is a
parameter with `n, m ≥ 2`; the program fixes both at 50 (`t2/surfaces.js:10`).

Files:

- `numbering.dfy`, module `Numbering`: the two-sided row-major numbering
  `side·R·C + i·C + j` and its inverse. The vertex grid (`R = n`, `C = m`)
  and the cell grid (`R = n-1`, `C = m-1`) both use it.
- `surfaces.dfy`, module `Surfaces`: the two passes, the sub-mesh, and the
  lemmas about them.
- `grid.dfy`, module `FloorGrid`: the `createGrid` loop.

The methods `VertexPass`, `IndexPass` and `CreateGrid` keep the source's
nested loops. Each one builds its buffers by appending, with loop invariants.
Each is proved against a predicate that says what every slot of the finished
buffer holds (`VertexBuffers`, `IndexBuffer`, `LinesUpTo`). The lemmas derive
the source's promises from those predicates.

Index counts, as the code emits them:

- Each cell of each side gets 6 indices. The buffer therefore holds
  `2·6·(n-1)·(m-1)` indices, `6·(n-1)·(m-1)` per side.
- The code registers one explicit sub-mesh, material 1, over the side-0
  block of indices.

## Model

| member | source | states |
|---|---|---|
| `Numbering.SlotDecodes` | t2/surfaces.js:136-145 | decoding slot side·R·C + i·C + j gives back side, row i and column j, for i < R, j < C |
| `Numbering.SlotEncodes` | t2/surfaces.js:136-145 | every slot is the encoding of its decoded side, row and column; the row is below R and the column below C; slots below 2·R·C are on side 0 or 1, and side 0 holds exactly the slots below R·C |
| `Surfaces.VertexCount` | t2/surfaces.js:133 | `vCount` is the slot of the first back vertex (side 1, row 0, column 0) |
| `Surfaces.GridParameter` | t2/surfaces.js:139-141 | the parameter of sample k times (count - 1) is k, so it is k/(count-1) |
| `Surfaces.SideSign` | t2/surfaces.js:137 | `sgn` is 1 on side 0 and -1 on side 1 |
| `Surfaces.Scale` | t2/surfaces.js:144 | multiplying a scalar by `sgn` leaves it unchanged for sgn = 1 and negates it for sgn = -1 |
| `Surfaces.CellTriangles` | t2/surfaces.js:153-160 | the six indices of cell (i, j) of a side, named by corner slot: both triangles start at corner (i, j); on side 0 they are ((i,j), (i,j+1), (i+1,j+1)) and ((i,j), (i+1,j+1), (i+1,j)); on side 1 the last two of each triangle are swapped |
| `Surfaces.SurfaceSubMesh` | t2/surfaces.js:175 | the sub-mesh has material index 1, vertex range from 0 of length 2·vCount, and index range from 0 of length 6 times the cells per side |
| `FloorGrid.IsTickLine` | t2/surfaces.js:41 | iteration i is a tick iteration exactly when JavaScript's truncating remainder i % ticks is 0; with ticks == 0 (a NaN remainder) it is not |
| `FloorGrid.LineColor` | t2/surfaces.js:41 | the colour of iteration i is one of the two colours: the tick colour on a tick iteration, the plain colour otherwise |
| `Surfaces.GridParameterRange` | t2/surfaces.js:139-141 | the sample parameters i/(n-1) start at 0, end at 1 and strictly increase, so all lie in [0, 1] |
| `Surfaces.VertexPass` | t2/surfaces.js:133-147 | after the vertex pass, positions and normals each hold 3·2·n·m scalars; vertex t holds the position of the sample of its row and column, and the normal of that sample times the sign of its side |
| `Surfaces.RowMajorVertex` | t2/surfaces.js:136-145 | vertex side·n·m + i·m + j is below 2·n·m and holds the sample at u = i/(n-1), v = j/(m-1): its position, and its normal times 1 - 2·side |
| `Surfaces.BackVerticesMirrorFront` | t2/surfaces.js:137-144 | for every t < n·m, vertex n·m + t has the same position as vertex t, and its normal is the negation of the normal of vertex t |
| `Surfaces.VertexBuffersUnique` | t2/surfaces.js:136-147 | the vertex buffers are fixed by the resolution and the evaluator, so building the same surface twice gives the same buffers |
| `Surfaces.PushCell` | t2/surfaces.js:153-160 | the two pushes for a cell append exactly that cell's six indices, with the winding chosen by its side |
| `Surfaces.IndexPass` | t2/surfaces.js:150-163 | after the index pass, the buffer holds 6 indices per cell slot; cell slot q holds the two triangles of the side, row and column it decodes to, in the cell grid of (n-1)·(m-1) cells per side |
| `Surfaces.CellAt` | t2/surfaces.js:150-163 | cell (i, j) of a side sits at cell slot side·(n-1)·(m-1) + i·(m-1) + j, which is below 2·(n-1)·(m-1) |
| `Surfaces.CellTouchesCorners` | t2/surfaces.js:153-160 | the six indices of a cell use exactly its four corner vertices (side, i, j), (side, i, j+1), (side, i+1, j) and (side, i+1, j+1); all of them lie in the cell's own side block; each triangle has three distinct vertices |
| `Surfaces.IndicesInRange` | t2/surfaces.js:150-163 | the index buffer holds 2·6·(n-1)·(m-1) indices, a multiple of 3, and every index is below 2·n·m |
| `Surfaces.IndexBlocks` | t2/surfaces.js:153-159 | an index lies in the first half of the buffer exactly when it names a side-0 vertex (below n·m); indices of the second half lie in [n·m, 2·n·m) |
| `Surfaces.CellWindingReversed` | t2/surfaces.js:153-160 | the side-1 triangles of a cell are its side-0 triangles moved by n·m vertices, with the last two vertices of each triangle swapped |
| `Surfaces.BackTrianglesMirrorFront` | t2/surfaces.js:150-163 | in the buffer, the cell slot (n-1)·(m-1) + q holds the triangles of slot q moved to the back block with the winding reversed |
| `Surfaces.WindingConsistent` | t2/surfaces.js:153-160 | the two triangles of a cell, and a cell and its neighbour in the next column or the next row, traverse their shared edge in opposite directions and share no directed edge, on both sides |
| `Surfaces.IndexBufferUnique` | t2/surfaces.js:150-163 | the index buffer is fixed by the resolution alone |
| `Surfaces.SubMeshIsFrontBlock` | t2/surfaces.js:175 | the sub-mesh covers indices [0, 6·(n-1)·(m-1)), which is half the buffer, whole triangles, and exactly the indices that name side-0 vertices; its vertex range is [0, 2·vCount), the whole vertex buffer |
| `Surfaces.CreateSurface` | t2/surfaces.js:108-178 | the mesh carries the vertex buffers of the vertex pass, the index buffer of the index pass, and the sub-mesh (material 1, vertices 0 to 2·vCount, indices 0 to 6·(n-1)·(m-1)) |
| `FloorGrid.CreateGrid` | t2/surfaces.js:40-45 | after the loop both lists hold 2·max(count, 0) entries; entry p is the line of iteration p/2 (along z when p is even, along x when odd), coloured end to end with that iteration's colour |
| `FloorGrid.IterationLines` | t2/surfaces.js:40-45 | iteration i < count contributes entries 2i and 2i+1, along z and along x, with the same colour; that colour is the tick colour when i % ticks == 0 and the plain colour otherwise; when the two colours differ, the lines get the tick colour exactly when i % ticks == 0 |
| `FloorGrid.TickLinePattern` | t2/surfaces.js:41 | the tick iterations are exactly the multiples of abs(ticks); with ticks == 0 (a NaN remainder in the source) no iteration is a tick iteration |

## Left out

- `computeVertex` numerics (`t2/surfaces.js:99-103`): the central differences with `h = 0.001`, the cross product and the normalisation are floating point. The evaluator is a function parameter of the model, so any deterministic (pure) evaluator is covered; an exception it would raise is not modelled. The source evaluates `computeVertex` again for each side (`t2/surfaces.js:142`). The back vertices repeat the front positions (`BackVerticesMirrorFront`) only because the evaluator returns the same result for the same arguments.
- The sample parameters are exact rationals `i/(n-1)` here. The source computes them in double precision; the rounding is folded into the abstract evaluator.
- `sgn * x` is exact in IEEE arithmetic for `sgn = ±1`, so `1 · x` is modelled as `x` and `-1 · x` as `neg(x)`.
- The surface formulas `sphere`, `torus` and `strip` (`t2/surfaces.js:201-276`) are trigonometric formulas over doubles. They have no structural contract; any of them can be passed as the evaluator.
- The engine calls (`t2/surfaces.js:48-53`, `111-126`, `168-175`) are calls into the rendering library: the mesh, the two materials, the multi-material, `applyToMesh` and the line system. The model keeps the buffers and the arguments of the `SubMesh` call as plain values. The default sub-mesh that the engine itself creates in `applyToMesh` is not part of this model.
- The page set-up, camera, light and render loop (`t2/surfaces.js:61-95`) are engine plumbing.
- The grid line coordinates `u = -r + 2·r·i/(count-1)` and `r = size/2` (`t2/surfaces.js:37`, `42-44`) are floating point. A line is modelled by its iteration and direction. `count` and `ticks` are integers; fractional values are not modelled.
- `main.js` holds shader source strings for an external viewer and an animation loop with a floating-point time wrap. Nothing there is part of this model.
- The unused `faceCount` (`t2/surfaces.js:165`) has no effect. It equals the per-side triangle count 2·(n-1)·(m-1), a third of the per-side index count of `IndicesInRange`.
- Whether a triangle's face normal points into the same hemisphere as its stored vertex normal needs real vector arithmetic. The combinatorial side of winding is proved instead: `CellWindingReversed` and `WindingConsistent`.
