/** Mesh assembly of `createSurface`.

    The builder samples a surface on an n × m grid of parameters
    u = i/(n-1), v = j/(m-1) and fills three flat buffers:
    `positions` and `normals` (three scalars per vertex, the whole grid
    stored twice: side 0 with the estimated normal, side 1 with it
    negated) and `indices` (two triangles per grid cell and side, side 1
    with the reversed winding). One sub-mesh, material 1, is registered
    over the first 6·(n-1)·(m-1) indices.

    The floating-point work is abstract: the scalar type is a type
    parameter F, the vertex evaluator (position and estimated normal of a
    sample) is the parameter `computeVertex`, and scalar negation is the
    parameter `neg`. Everything proved here is about the buffer layout,
    which is integer arithmetic and holds exactly. */
module Surfaces {
  import opened Numbering

  /** A point or a direction: three scalars. */
  datatype Vec3<F> = Vec3(x: F, y: F, z: F)

  /** What the vertex evaluator returns for one parameter pair. */
  datatype VertexSample<F> = VertexSample(point: Vec3<F>, normal: Vec3<F>)

  /** The arguments of the sub-mesh registration (material index, first
      vertex, vertex count, first index, index count). */
  datatype SubMesh = SubMesh(materialIndex: nat, verticesStart: nat, verticesCount: nat,
                             indexStart: nat, indexCount: nat)

  /** The buffers handed to the rendering engine, and the sub-mesh. */
  datatype Mesh<F> = Mesh(positions: seq<F>, normals: seq<F>, indices: seq<nat>, subMesh: SubMesh)

  // ---------------------------------------------------------------------
  // Sampling and vertex layout
  // ---------------------------------------------------------------------

  /** Vertices per side, `vCount`: the back side starts at vertex vCount. */
  function VertexCount(n: nat, m: nat): (r: nat)
    ensures r == Slot(n, m, 1, 0, 0)
  {
    n * m
  }

  /** Grid cells per side: the cells (i, j) with i + 1 < n and j + 1 < m. */
  function CellCount(n: nat, m: nat): nat
    requires n >= 1 && m >= 1
  {
    (n - 1) * (m - 1)
  }

  /** The parameter of sample k out of `count` equally spaced samples of [0, 1]. */
  function GridParameter(count: nat, k: nat): (r: real)
    requires count >= 2
    ensures r * (count - 1) as real == k as real
  {
    k as real / (count - 1) as real
  }

  /** The samples run from u = 0 to u = 1 in increasing order. */
  lemma GridParameterRange(count: nat, k: nat, l: nat)
    requires count >= 2 && k < l < count
    ensures GridParameter(count, 0) == 0.0 && GridParameter(count, count - 1) == 1.0
    ensures 0.0 <= GridParameter(count, k) < GridParameter(count, l) <= 1.0
  {
    var d := (count - 1) as real;
    assert GridParameter(count, k) * d == k as real;
    assert GridParameter(count, l) * d == l as real;
  }

  /** sgn · x for a sign sgn of 1 or -1: multiplying by 1 leaves a scalar
      alone and multiplying by -1 negates it. */
  function Scale<F>(neg: F -> F, sgn: int, x: F): (r: F)
    ensures sgn == 1 ==> r == x
    ensures sgn == -1 ==> r == neg(x)
  {
    if sgn == 1 then x else neg(x)
  }

  function ScaleVec<F>(neg: F -> F, sgn: int, a: Vec3<F>): Vec3<F>
  {
    Vec3(Scale(neg, sgn, a.x), Scale(neg, sgn, a.y), Scale(neg, sgn, a.z))
  }

  function NegateVec<F>(neg: F -> F, a: Vec3<F>): Vec3<F>
  {
    Vec3(neg(a.x), neg(a.y), neg(a.z))
  }

  /** `sgn = 1 - 2*side`: +1 on side 0, -1 on side 1. */
  function SideSign(side: nat): (r: int)
    ensures side == 0 ==> r == 1
    ensures side == 1 ==> r == -1
  {
    1 - 2 * side
  }

  /** The three scalars of vertex t of a flat buffer. */
  function Vec3At<F>(buf: seq<F>, t: nat): Vec3<F>
    requires 3 * t + 3 <= |buf|
  {
    Vec3(buf[3 * t], buf[3 * t + 1], buf[3 * t + 2])
  }

  /** The sample whose result vertex t of the two-sided buffer stores:
      the grid point of t's row and column. */
  function SampleOf<F>(n: nat, m: nat, computeVertex: (real, real) -> VertexSample<F>, t: nat): VertexSample<F>
    requires n >= 2 && m >= 2
  {
    computeVertex(GridParameter(n, RowOf(n, m, t)), GridParameter(m, ColOf(n, m, t)))
  }

  /** The first `done` vertices of both buffers are in place: vertex t holds
      the position of its sample and the normal times its side's sign. */
  ghost predicate VerticesUpTo<F>(n: nat, m: nat, computeVertex: (real, real) -> VertexSample<F>, neg: F -> F,
                                  positions: seq<F>, normals: seq<F>, done: nat)
    requires n >= 2 && m >= 2
  {
    |positions| == 3 * done && |normals| == 3 * done &&
    forall t | 0 <= t < done ::
      Vec3At(positions, t) == SampleOf(n, m, computeVertex, t).point &&
      Vec3At(normals, t) == ScaleVec(neg, SideSign(SideOf(n, m, t)), SampleOf(n, m, computeVertex, t).normal)
  }

  /** The vertex buffers after the vertex pass: all 2·n·m vertices in place. */
  ghost predicate VertexBuffers<F>(n: nat, m: nat, computeVertex: (real, real) -> VertexSample<F>, neg: F -> F,
                                   positions: seq<F>, normals: seq<F>)
    requires n >= 2 && m >= 2
  {
    VerticesUpTo(n, m, computeVertex, neg, positions, normals, 2 * VertexCount(n, m))
  }

  /** Appending the next vertex, (i, j) of `side`, extends the filled
      prefix by one: its position, and its normal times the side's sign. */
  lemma AppendVertex<F>(n: nat, m: nat, computeVertex: (real, real) -> VertexSample<F>, neg: F -> F,
                        positions: seq<F>, normals: seq<F>, side: nat, i: nat, j: nat)
    requires n >= 2 && m >= 2 && i < n && j < m
    requires VerticesUpTo(n, m, computeVertex, neg, positions, normals, Slot(n, m, side, i, j))
    ensures var s := computeVertex(GridParameter(n, i), GridParameter(m, j));
            var q := ScaleVec(neg, SideSign(side), s.normal);
            VerticesUpTo(n, m, computeVertex, neg, positions + [s.point.x, s.point.y, s.point.z],
                         normals + [q.x, q.y, q.z], Slot(n, m, side, i, j) + 1)
  {
    var done := Slot(n, m, side, i, j);
    var s := computeVertex(GridParameter(n, i), GridParameter(m, j));
    var q := ScaleVec(neg, SideSign(side), s.normal);
    var positions', normals' := positions + [s.point.x, s.point.y, s.point.z], normals + [q.x, q.y, q.z];
    forall t | 0 <= t < done
      ensures Vec3At(positions', t) == Vec3At(positions, t) && Vec3At(normals', t) == Vec3At(normals, t)
    {
    }
    SlotDecodes(n, m, side, i, j);
    assert Vec3At(positions', done) == s.point && Vec3At(normals', done) == q;
  }

  /** The vertex pass (both `side` loops over i < n, j < m): evaluate each
      sample, push its position, and push its normal times `sgn`. */
  method VertexPass<F>(n: nat, m: nat, computeVertex: (real, real) -> VertexSample<F>, neg: F -> F)
    returns (positions: seq<F>, normals: seq<F>)
    requires n >= 2 && m >= 2
    ensures VertexBuffers(n, m, computeVertex, neg, positions, normals)
  {
    positions, normals := [], [];
    for side := 0 to 2
      invariant VerticesUpTo(n, m, computeVertex, neg, positions, normals, Slot(n, m, side, 0, 0))
    {
      var sgn := 1 - 2 * side;
      for i := 0 to n
        invariant VerticesUpTo(n, m, computeVertex, neg, positions, normals, Slot(n, m, side, i, 0))
      {
        var u := i as real / (n - 1) as real;
        for j := 0 to m
          invariant VerticesUpTo(n, m, computeVertex, neg, positions, normals, Slot(n, m, side, i, j))
        {
          var v := j as real / (m - 1) as real;
          var pn := computeVertex(u, v);
          var nrm := pn.normal;
          AppendVertex(n, m, computeVertex, neg, positions, normals, side, i, j);
          positions := positions + [pn.point.x, pn.point.y, pn.point.z];
          normals := normals + [Scale(neg, sgn, nrm.x), Scale(neg, sgn, nrm.y), Scale(neg, sgn, nrm.z)];
        }
      }
    }
  }

  /** Vertex side·n·m + i·m + j holds the sample at u = i/(n-1), v = j/(m-1):
      its position, and its normal times the side's sign. */
  lemma RowMajorVertex<F>(n: nat, m: nat, computeVertex: (real, real) -> VertexSample<F>, neg: F -> F,
                          positions: seq<F>, normals: seq<F>, side: nat, i: nat, j: nat)
    requires n >= 2 && m >= 2
    requires VertexBuffers(n, m, computeVertex, neg, positions, normals)
    requires side < 2 && i < n && j < m
    ensures Slot(n, m, side, i, j) < 2 * VertexCount(n, m)
    ensures Vec3At(positions, Slot(n, m, side, i, j)) == computeVertex(GridParameter(n, i), GridParameter(m, j)).point
    ensures Vec3At(normals, Slot(n, m, side, i, j))
         == ScaleVec(neg, SideSign(side), computeVertex(GridParameter(n, i), GridParameter(m, j)).normal)
  {
    SlotInBlock(n, m, side, i, j);
    SlotDecodes(n, m, side, i, j);
  }

  /** Both halves hold the same positions, and the normal of vertex n·m + t
      is the negation of the normal of vertex t. */
  lemma BackVerticesMirrorFront<F>(n: nat, m: nat, computeVertex: (real, real) -> VertexSample<F>, neg: F -> F,
                                   positions: seq<F>, normals: seq<F>, t: nat)
    requires n >= 2 && m >= 2
    requires VertexBuffers(n, m, computeVertex, neg, positions, normals)
    requires t < VertexCount(n, m)
    ensures Vec3At(positions, VertexCount(n, m) + t) == Vec3At(positions, t)
    ensures Vec3At(normals, VertexCount(n, m) + t) == NegateVec(neg, Vec3At(normals, t))
  {
    SlotEncodes(n, m, t);
    var i, j := RowOf(n, m, t), ColOf(n, m, t);
    assert SideOf(n, m, t) == 0;
    assert VertexCount(n, m) + t == Slot(n, m, 1, i, j);
    SlotDecodes(n, m, 1, i, j);
  }

  /** The vertex buffers are determined by the resolution and the evaluator:
      building the same surface twice gives identical buffers. */
  lemma VertexBuffersUnique<F>(n: nat, m: nat, computeVertex: (real, real) -> VertexSample<F>, neg: F -> F,
                               positions: seq<F>, normals: seq<F>, positions': seq<F>, normals': seq<F>)
    requires n >= 2 && m >= 2
    requires VertexBuffers(n, m, computeVertex, neg, positions, normals)
    requires VertexBuffers(n, m, computeVertex, neg, positions', normals')
    ensures positions == positions' && normals == normals'
  {
    var count := 2 * VertexCount(n, m);
    SameVec3s(positions, positions', count);
    SameVec3s(normals, normals', count);
  }

  /** Two flat buffers of the same length that agree vertex by vertex are equal. */
  lemma SameVec3s<F>(a: seq<F>, b: seq<F>, count: nat)
    requires |a| == |b| == 3 * count
    requires forall t | 0 <= t < count :: Vec3At(a, t) == Vec3At(b, t)
    ensures a == b
  {
    forall p | 0 <= p < |a|
      ensures a[p] == b[p]
    {
      var t := p / 3;
      assert Vec3At(a, t) == Vec3At(b, t);
    }
  }

  // ---------------------------------------------------------------------
  // Triangle layout
  // ---------------------------------------------------------------------

  /** The six indices pushed for cell (i, j) of `side`, with
      k = i·m + j + vCount·side: on side 0 the triangles (k, k+1, k+1+m)
      and (k, k+1+m, k+m); on side 1 the same triples, last two swapped. */
  function CellTriangles(n: nat, m: nat, side: nat, i: nat, j: nat): (r: seq<nat>)
    ensures |r| == 6 && r[0] == r[3] == Slot(n, m, side, i, j)
    ensures side == 0 ==> r[1] == Slot(n, m, side, i, j + 1) && r[2] == r[4] == Slot(n, m, side, i + 1, j + 1)
                          && r[5] == Slot(n, m, side, i + 1, j)
    ensures side != 0 ==> r[2] == Slot(n, m, side, i, j + 1) && r[1] == r[5] == Slot(n, m, side, i + 1, j + 1)
                          && r[4] == Slot(n, m, side, i + 1, j)
  {
    var k := i * m + j + VertexCount(n, m) * side;
    if side == 0 then [k, k + 1, k + 1 + m, k, k + 1 + m, k + m]
    else [k, k + 1 + m, k + 1, k, k + m, k + 1 + m]
  }

  /** The four vertices at the corners of cell (i, j) of `side`. */
  function CellCorners(n: nat, m: nat, side: nat, i: nat, j: nat): set<nat>
  {
    {Slot(n, m, side, i, j), Slot(n, m, side, i, j + 1), Slot(n, m, side, i + 1, j), Slot(n, m, side, i + 1, j + 1)}
  }

  /** A triangle pair of a cell, shifted by `offset` vertices. */
  function Shift(six: seq<nat>, offset: nat): (r: seq<nat>)
    ensures |r| == |six|
  {
    seq(|six|, p requires 0 <= p < |six| => six[p] + offset)
  }

  /** Both triangles of a pair with the opposite winding: the last two
      vertices of each triangle swapped. */
  function ReverseWinding(six: seq<nat>): seq<nat>
    requires |six| == 6
  {
    [six[0], six[2], six[1], six[3], six[5], six[4]]
  }

  /** Six consecutive indices: the two triangles stored for cell slot q. */
  function Six(buf: seq<nat>, q: nat): seq<nat>
    requires 6 * q + 6 <= |buf|
  {
    buf[6 * q .. 6 * q + 6]
  }

  /** The two triangles that belong in cell slot q, cells numbered
      row-major over the (n-1) × (m-1) cell grid of side 0, then side 1. */
  function TrianglesOfSlot(n: nat, m: nat, q: nat): seq<nat>
    requires n >= 2 && m >= 2
  {
    CellTriangles(n, m, SideOf(n - 1, m - 1, q), RowOf(n - 1, m - 1, q), ColOf(n - 1, m - 1, q))
  }

  /** The triangles of the first `done` cells are in place, cells numbered
      row-major over the (n-1) × (m-1) cell grid of side 0, then side 1. */
  predicate IndicesUpTo(n: nat, m: nat, indices: seq<nat>, done: nat)
    requires n >= 2 && m >= 2
  {
    |indices| == 6 * done &&
    forall q | 0 <= q < done :: Six(indices, q) == TrianglesOfSlot(n, m, q)
  }

  /** The index buffer after the index pass: both sides, all cells. */
  predicate IndexBuffer(n: nat, m: nat, indices: seq<nat>)
    requires n >= 2 && m >= 2
  {
    IndicesUpTo(n, m, indices, 2 * CellCount(n, m))
  }

  /** Appending the triangles of the next cell, (i, j) of `side`, extends
      the filled prefix by one cell. */
  lemma AppendCell(n: nat, m: nat, indices: seq<nat>, side: nat, i: nat, j: nat)
    requires n >= 2 && m >= 2 && i < n - 1 && j < m - 1
    requires IndicesUpTo(n, m, indices, Slot(n - 1, m - 1, side, i, j))
    ensures IndicesUpTo(n, m, indices + CellTriangles(n, m, side, i, j), Slot(n - 1, m - 1, side, i, j) + 1)
  {
    var done := Slot(n - 1, m - 1, side, i, j);
    var indices' := indices + CellTriangles(n, m, side, i, j);
    forall q | 0 <= q < done
      ensures Six(indices', q) == Six(indices, q)
    {
    }
    SlotDecodes(n - 1, m - 1, side, i, j);
    assert Six(indices', done) == TrianglesOfSlot(n, m, done);
  }

  /** The body of the index loops: push the two triangles of cell (i, j)
      of `side`, whose first corner is vertex k. */
  method PushCell(indices: seq<nat>, n: nat, m: nat, side: nat, i: nat, j: nat, k: nat) returns (indices': seq<nat>)
    requires k == i * m + j + VertexCount(n, m) * side
    ensures indices' == indices + CellTriangles(n, m, side, i, j)
  {
    indices' := indices;
    if side == 0 {
      indices' := indices' + [k, k + 1, k + 1 + m];
      indices' := indices' + [k, k + 1 + m, k + m];
    } else {
      indices' := indices' + [k, k + 1 + m, k + 1];
      indices' := indices' + [k, k + m, k + 1 + m];
    }
  }

  /** The index pass (both `side` loops over i + 1 < n, j + 1 < m): push the
      two triangles of each cell, side 1 with the reversed winding. */
  method IndexPass(n: nat, m: nat) returns (indices: seq<nat>)
    requires n >= 2 && m >= 2
    ensures IndexBuffer(n, m, indices)
  {
    var vCount := n * m;
    indices := [];
    for side := 0 to 2
      invariant IndicesUpTo(n, m, indices, Slot(n - 1, m - 1, side, 0, 0))
    {
      for i := 0 to n - 1
        invariant IndicesUpTo(n, m, indices, Slot(n - 1, m - 1, side, i, 0))
      {
        for j := 0 to m - 1
          invariant IndicesUpTo(n, m, indices, Slot(n - 1, m - 1, side, i, j))
        {
          var k := i * m + j + vCount * side;
          AppendCell(n, m, indices, side, i, j);
          indices := PushCell(indices, n, m, side, i, j, k);
        }
      }
    }
  }

  /** Cell (i, j) of `side` occupies cell slot side·(n-1)·(m-1) + i·(m-1) + j. */
  lemma CellAt(n: nat, m: nat, indices: seq<nat>, side: nat, i: nat, j: nat)
    requires n >= 2 && m >= 2
    requires IndexBuffer(n, m, indices)
    requires side < 2 && i < n - 1 && j < m - 1
    ensures Slot(n - 1, m - 1, side, i, j) < 2 * CellCount(n, m)
    ensures Six(indices, Slot(n - 1, m - 1, side, i, j)) == CellTriangles(n, m, side, i, j)
  {
    SlotInBlock(n - 1, m - 1, side, i, j);
    SlotDecodes(n - 1, m - 1, side, i, j);
  }

  /** The triangles of a cell use exactly its four corners, which are
      vertices of the cell's own side; each triangle has three distinct
      vertices. */
  lemma CellTouchesCorners(n: nat, m: nat, side: nat, i: nat, j: nat)
    requires n >= 2 && m >= 2
    requires side < 2 && i < n - 1 && j < m - 1
    ensures forall e :: e in CellTriangles(n, m, side, i, j) <==> e in CellCorners(n, m, side, i, j)
    ensures forall e | e in CellTriangles(n, m, side, i, j) ::
              side * VertexCount(n, m) <= e < (side + 1) * VertexCount(n, m)
    ensures var tri := CellTriangles(n, m, side, i, j);
            tri[0] != tri[1] && tri[1] != tri[2] && tri[0] != tri[2] &&
            tri[3] != tri[4] && tri[4] != tri[5] && tri[3] != tri[5]
  {
    var k := Slot(n, m, side, i, j);
    assert CellTriangles(n, m, side, i, j)[0] == k;
    assert Slot(n, m, side, i, j + 1) == k + 1;
    assert Slot(n, m, side, i + 1, j) == k + m;
    assert Slot(n, m, side, i + 1, j + 1) == k + m + 1;
    SlotInBlock(n, m, side, i, j);
    SlotInBlock(n, m, side, i + 1, j + 1);
  }

  /** Every index names a vertex: it is below 2·n·m = |positions| / 3. The
      buffer holds 2·6·(n-1)·(m-1) indices, whole triangles. */
  lemma IndicesInRange(n: nat, m: nat, indices: seq<nat>)
    requires n >= 2 && m >= 2
    requires IndexBuffer(n, m, indices)
    ensures |indices| == 2 * 6 * (n - 1) * (m - 1) && |indices| % 3 == 0
    ensures forall p | 0 <= p < |indices| :: indices[p] < 2 * VertexCount(n, m)
  {
    forall p | 0 <= p < |indices|
      ensures indices[p] < 2 * VertexCount(n, m)
    {
      IndexInSideBlock(n, m, indices, p);
    }
  }

  /** Index p lies in the block of the side its cell was emitted for. */
  lemma IndexInSideBlock(n: nat, m: nat, indices: seq<nat>, p: nat)
    requires n >= 2 && m >= 2
    requires IndexBuffer(n, m, indices)
    requires p < |indices|
    ensures p < 6 * CellCount(n, m) ==> indices[p] < VertexCount(n, m)
    ensures p >= 6 * CellCount(n, m) ==> VertexCount(n, m) <= indices[p] < 2 * VertexCount(n, m)
  {
    var q := p / 6;
    assert indices[p] in Six(indices, q);
    SlotInSideBlock(n, m, q);
  }

  /** The triangles of cell slot q name vertices of the side the slot is on. */
  lemma SlotInSideBlock(n: nat, m: nat, q: nat)
    requires n >= 2 && m >= 2 && q < 2 * CellCount(n, m)
    ensures q < CellCount(n, m) ==> forall e | e in TrianglesOfSlot(n, m, q) :: e < VertexCount(n, m)
    ensures q >= CellCount(n, m) ==>
              forall e | e in TrianglesOfSlot(n, m, q) :: VertexCount(n, m) <= e < 2 * VertexCount(n, m)
  {
    SlotEncodes(n - 1, m - 1, q);
    var i, j := RowOf(n - 1, m - 1, q), ColOf(n - 1, m - 1, q);
    assert TrianglesOfSlot(n, m, q) == CellTriangles(n, m, SideOf(n - 1, m - 1, q), i, j);
    if q < CellCount(n, m) {
      CellInSideBlock(n, m, 0, i, j);
    } else {
      CellInSideBlock(n, m, 1, i, j);
    }
  }

  /** The indices of a cell name vertices of the cell's own side. */
  lemma CellInSideBlock(n: nat, m: nat, side: nat, i: nat, j: nat)
    requires n >= 2 && m >= 2
    requires side < 2 && i < n - 1 && j < m - 1
    ensures forall e | e in CellTriangles(n, m, side, i, j) ::
              side * VertexCount(n, m) <= e < (side + 1) * VertexCount(n, m)
  {
    SlotInBlock(n, m, side, i, j);
    SlotInBlock(n, m, side, i + 1, j + 1);
  }

  /** Side-0 indices lie in [0, n·m) and side-1 indices in [n·m, 2·n·m):
      the first half of the index buffer names only front vertices and the
      second half only back vertices. */
  lemma IndexBlocks(n: nat, m: nat, indices: seq<nat>)
    requires n >= 2 && m >= 2
    requires IndexBuffer(n, m, indices)
    ensures forall p | 0 <= p < |indices| :: p < |indices| / 2 <==> indices[p] < VertexCount(n, m)
    ensures forall p | |indices| / 2 <= p < |indices| :: indices[p] < 2 * VertexCount(n, m)
  {
    forall p | 0 <= p < |indices|
      ensures (p < |indices| / 2 <==> indices[p] < VertexCount(n, m)) && indices[p] < 2 * VertexCount(n, m)
    {
      IndexInSideBlock(n, m, indices, p);
    }
  }

  /** The back triangles are the front triangles of the same cell moved to
      the back vertex block with the winding reversed. */
  lemma BackTrianglesMirrorFront(n: nat, m: nat, indices: seq<nat>, q: nat)
    requires n >= 2 && m >= 2
    requires IndexBuffer(n, m, indices)
    requires q < CellCount(n, m)
    ensures Six(indices, CellCount(n, m) + q) == ReverseWinding(Shift(Six(indices, q), VertexCount(n, m)))
  {
    SlotEncodes(n - 1, m - 1, q);
    var i, j := RowOf(n - 1, m - 1, q), ColOf(n - 1, m - 1, q);
    assert Six(indices, q) == CellTriangles(n, m, 0, i, j);
    assert CellCount(n, m) + q == Slot(n - 1, m - 1, 1, i, j);
    SlotDecodes(n - 1, m - 1, 1, i, j);
    assert Six(indices, CellCount(n, m) + q) == CellTriangles(n, m, 1, i, j);
    CellWindingReversed(n, m, i, j);
  }

  /** Per cell: the side-1 triangles are the side-0 ones moved by vCount
      vertices with the last two vertices of each triangle swapped. */
  lemma CellWindingReversed(n: nat, m: nat, i: nat, j: nat)
    ensures CellTriangles(n, m, 1, i, j) == ReverseWinding(Shift(CellTriangles(n, m, 0, i, j), VertexCount(n, m)))
  {
  }

  /** The directed edges of triangle t (0 or 1) of a cell's pair, in the
      order its vertices are listed. */
  function Edges(six: seq<nat>, t: nat): set<(nat, nat)>
    requires |six| == 6 && t < 2
  {
    var a, b, c := six[3 * t], six[3 * t + 1], six[3 * t + 2];
    {(a, b), (b, c), (c, a)}
  }

  /** Two triangles are consistently oriented across a shared edge: they
      share it, traverse it in opposite directions, and have no directed
      edge in common. */
  predicate Consistent(e1: set<(nat, nat)>, e2: set<(nat, nat)>, a: nat, b: nat)
  {
    (a, b) in e1 && (b, a) in e2 && e1 !! e2
  }

  /** The winding is consistent across the cell grid: the two triangles of a
      cell meet along the diagonal k–k+1+m, a cell meets its neighbour in the
      next column along the edge between vertex columns j+1 of rows i and i+1,
      and its neighbour in the next row along the edge between vertex
      columns j and j+1 of row i+1; each shared edge is traversed in opposite
      directions by the two triangles on it, on both sides. */
  lemma WindingConsistent(n: nat, m: nat, side: nat, i: nat, j: nat)
    requires n >= 2 && m >= 2
    requires side < 2 && i < n - 1 && j < m - 1
    ensures var c, k := CellTriangles(n, m, side, i, j), Slot(n, m, side, i, j);
            var (a, b) := if side == 0 then (k + 1 + m, k) else (k, k + 1 + m);
            Consistent(Edges(c, 0), Edges(c, 1), a, b)
    ensures j + 1 < m - 1 ==>
              var c, r, k := CellTriangles(n, m, side, i, j), CellTriangles(n, m, side, i, j + 1), Slot(n, m, side, i, j);
              var (a, b) := if side == 0 then (k + 1, k + 1 + m) else (k + 1 + m, k + 1);
              Consistent(Edges(c, 0), Edges(r, 1), a, b) && Edges(c, 1) !! Edges(r, 0) && Edges(c, 1) !! Edges(r, 1)
    ensures i + 1 < n - 1 ==>
              var c, d, k := CellTriangles(n, m, side, i, j), CellTriangles(n, m, side, i + 1, j), Slot(n, m, side, i, j);
              var (a, b) := if side == 0 then (k + 1 + m, k + m) else (k + m, k + 1 + m);
              Consistent(Edges(c, 1), Edges(d, 0), a, b) && Edges(c, 0) !! Edges(d, 0) && Edges(c, 0) !! Edges(d, 1)
  {
  }

  /** The index buffer is determined by the resolution alone. */
  lemma IndexBufferUnique(n: nat, m: nat, indices: seq<nat>, indices': seq<nat>)
    requires n >= 2 && m >= 2
    requires IndexBuffer(n, m, indices) && IndexBuffer(n, m, indices')
    ensures indices == indices'
  {
    forall p | 0 <= p < |indices|
      ensures indices[p] == indices'[p]
    {
      var q := p / 6;
      assert indices[p] == Six(indices, q)[p % 6];
      assert indices'[p] == Six(indices', q)[p % 6];
    }
  }

  // ---------------------------------------------------------------------
  // The whole mesh
  // ---------------------------------------------------------------------

  /** The sub-mesh registration: material 1 over vertices [0, 2·vCount)
      and indices [0, 6·(n-1)·(m-1)). */
  function SurfaceSubMesh(n: nat, m: nat): (r: SubMesh)
    requires n >= 1 && m >= 1
    ensures r.materialIndex == 1
    ensures r.verticesStart == 0 && r.verticesCount == 2 * VertexCount(n, m)
    ensures r.indexStart == 0 && r.indexCount == 6 * CellCount(n, m)
  {
    SubMesh(1, 0, VertexCount(n, m) * 2, 0, 6 * (n - 1) * (m - 1))
  }

  /** The registered index range is exactly the block of indices emitted
      for side 0, whole triangles; its vertex range is the whole vertex
      buffer. */
  lemma SubMeshIsFrontBlock(n: nat, m: nat, indices: seq<nat>)
    requires n >= 2 && m >= 2
    requires IndexBuffer(n, m, indices)
    ensures var sm := SurfaceSubMesh(n, m);
            sm.indexStart == 0 && sm.indexCount == |indices| / 2 && sm.indexCount % 3 == 0 &&
            (forall p | 0 <= p < |indices| ::
               sm.indexStart <= p < sm.indexStart + sm.indexCount <==> indices[p] < VertexCount(n, m)) &&
            sm.verticesStart == 0 && sm.verticesCount == 2 * VertexCount(n, m)
  {
    assert 6 * (n - 1) * (m - 1) == 6 * CellCount(n, m);
    IndexBlocks(n, m, indices);
  }

  /** `createSurface` without the engine calls: the vertex pass, the index
      pass and the sub-mesh registration. */
  method CreateSurface<F>(n: nat, m: nat, computeVertex: (real, real) -> VertexSample<F>, neg: F -> F)
    returns (mesh: Mesh<F>)
    requires n >= 2 && m >= 2
    ensures VertexBuffers(n, m, computeVertex, neg, mesh.positions, mesh.normals)
    ensures IndexBuffer(n, m, mesh.indices)
    ensures mesh.subMesh == SurfaceSubMesh(n, m)
  {
    var vCount := n * m;
    var positions, normals := VertexPass(n, m, computeVertex, neg);
    var indices := IndexPass(n, m);
    mesh := Mesh(positions, normals, indices, SubMesh(1, 0, vCount * 2, 0, 6 * (n - 1) * (m - 1)));
  }
}
