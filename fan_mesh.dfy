/** The inner `generateMesh` of the planet mesh builder: every cell becomes a
    fan of triangles around its centroid, appended to four flat buffers. */
module FanMesh {
  import opened Geometry

  /** The position, colour and normal buffers (three numbers per mesh
      vertex) and the index buffer (three mesh-vertex numbers per
      triangle). */
  datatype MeshData = MeshData(position: seq<real>, color: seq<real>, normal: seq<real>, index: seq<int>)

  const Empty := MeshData([], [], [], [])

  function Max(a: int, b: int): int { if a < b then b else a }

  /** One more than the largest index pushed so far, or 0 for none: the
      mesh-vertex number the next centroid is given. */
  function StartingIndex(index: seq<int>): nat {
    if index == [] then 0
    else Max(StartingIndex(index[..|index| - 1]), index[|index| - 1] + 1)
  }

  /** The starting index is above every index pushed so far, and is 0 or
      one above one of them. */
  lemma {:induction false} StartingIndexBounds(index: seq<int>)
    ensures forall i :: 0 <= i < |index| ==> index[i] < StartingIndex(index)
    ensures StartingIndex(index) == 0 || StartingIndex(index) - 1 in index
  {
    if index != [] {
      var prefix, last := index[..|index| - 1], index[|index| - 1];
      StartingIndexBounds(prefix);
      assert index == prefix + [last];
    }
  }

  /** The vertex after vertex `i` going round a cell of `n` vertices. */
  function Next(i: nat, n: nat): nat {
    if i + 1 < n then i + 1 else 0
  }

  /** The source's `i % n` and `(i + 1) % n` for a vertex `i` of the cell. */
  lemma WrapAround(i: nat, n: nat)
    requires i < n
    ensures i % n == i && (i + 1) % n == Next(i, n)
  {
  }

  /** Fan triangle `i` of a cell whose centroid is mesh vertex `s` and whose
      vertex `k` is mesh vertex `s + k + 1`: the centroid, vertex `i` and
      the vertex after it. */
  function FanTriangle(s: int, n: nat, i: nat): seq<int> {
    [s, s + i + 1, s + Next(i, n) + 1]
  }

  /** The buffers once the centroid of `cell` and its first `i` vertices
      (with their triangles) have been appended to `acc`. */
  function FanAfter(acc: MeshData, cell: Cell, color: Rgb, s: int, i: nat): MeshData
    requires i <= |cell.vertices|
  {
    if i == 0 then
      MeshData(acc.position + Coords(cell.centroid), acc.color + Channels(color), acc.normal + Coords(cell.centroid), acc.index)
    else
      var m := FanAfter(acc, cell, color, s, i - 1);
      var n := |cell.vertices|;
      var a := cell.vertices[i - 1];
      MeshData(m.position + Coords(a), m.color + Channels(color), m.normal + Coords(a), m.index + FanTriangle(s, n, i - 1))
  }

  /** One step of the reduce: the cell's fan appended after everything
      already in `acc`. */
  function AddCell(acc: MeshData, cell: Cell, color: Rgb): MeshData {
    FanAfter(acc, cell, color, StartingIndex(acc.index), |cell.vertices|)
  }

  /** The buffers after the first `k` cells, each in the colour of the pair
      at the same position. */
  function MeshOf(cells: seq<Cell>, colors: seq<Colored>, k: nat): MeshData
    requires k <= |cells| <= |colors|
  {
    if k == 0 then Empty else AddCell(MeshOf(cells, colors, k - 1), cells[k - 1], colors[k - 1].color)
  }

  /** `generateMesh`: a reduce over the cells whose step pushes the
      centroid, then each vertex with the triangle it closes. */
  method GenerateMesh(cells: seq<Cell>, colors: seq<Colored>) returns (mesh: MeshData)
    requires |cells| <= |colors|
    ensures mesh == MeshOf(cells, colors, |cells|)
    ensures |mesh.position| == |mesh.color| == |mesh.normal| == 3 * (|cells| + VertexCount(cells))
    ensures |mesh.index| == 3 * VertexCount(cells)
  {
    mesh := Empty;
    for k := 0 to |cells|
      invariant mesh == MeshOf(cells, colors, k)
    {
      var v, color := cells[k], colors[k].color;
      var startingIndex := StartingIndex(mesh.index);
      ghost var before := mesh;
      mesh := MeshData(mesh.position + Coords(v.centroid), mesh.color + Channels(color), mesh.normal + Coords(v.centroid), mesh.index);
      var n := |v.vertices|;
      for i := 0 to n
        invariant mesh == FanAfter(before, v, color, startingIndex, i)
      {
        WrapAround(i, n);
        var a := v.vertices[i % n];
        var triangle := [startingIndex, startingIndex + i % n + 1, startingIndex + (i + 1) % n + 1];
        assert a == v.vertices[i] && triangle == FanTriangle(startingIndex, n, i);
        mesh := MeshData(mesh.position + Coords(a), mesh.color + Channels(color), mesh.normal + Coords(a), mesh.index + triangle);
      }
    }
    MeshSizes(cells, colors, |cells|);
    assert cells[..|cells|] == cells;
  }

  // ---------------------------------------------------------------------
  // What a fan adds

  /** The three numbers of mesh vertex `j` in a position, colour or normal
      buffer. */
  function Point(buffer: seq<real>, j: nat): seq<real>
    requires 3 * j + 3 <= |buffer|
  {
    buffer[3 * j .. 3 * j + 3]
  }

  lemma PointOfPrefix(xs: seq<real>, ys: seq<real>, j: nat)
    requires xs <= ys && 3 * j + 3 <= |xs|
    ensures Point(ys, j) == Point(xs, j)
  {
    assert ys[..|xs|] == xs;
  }

  lemma PointOfLast(xs: seq<real>, chunk: seq<real>, j: nat)
    requires |xs| == 3 * j && |chunk| == 3
    ensures Point(xs + chunk, j) == chunk
  {
  }

  /** A fan only appends: one mesh vertex for the centroid and one per
      vertex, one triangle per vertex, and the earlier contents stay. */
  lemma {:induction false} FanLengths(acc: MeshData, cell: Cell, color: Rgb, s: int, i: nat)
    requires i <= |cell.vertices|
    ensures var r := FanAfter(acc, cell, color, s, i);
            && |r.position| == |acc.position| + 3 * (i + 1)
            && |r.color| == |acc.color| + 3 * (i + 1)
            && |r.normal| == |acc.normal| + 3 * (i + 1)
            && |r.index| == |acc.index| + 3 * i
  {
    if i > 0 {
      FanLengths(acc, cell, color, s, i - 1);
    }
  }

  /** ... and the earlier contents stay as they were. */
  lemma {:induction false} FanExtends(acc: MeshData, cell: Cell, color: Rgb, s: int, i: nat)
    requires i <= |cell.vertices|
    ensures var r := FanAfter(acc, cell, color, s, i);
            acc.position <= r.position && acc.color <= r.color && acc.normal <= r.normal && acc.index <= r.index
  {
    if i > 0 {
      FanExtends(acc, cell, color, s, i - 1);
    }
  }

  /** The centroid is stored at the first new mesh vertex. */
  lemma FanCentroid(acc: MeshData, cell: Cell, color: Rgb, s: int, i: nat, base: nat)
    requires i <= |cell.vertices| && |acc.position| == |acc.normal| == 3 * base
    ensures var r := FanAfter(acc, cell, color, s, i);
            && 3 * base + 3 <= |r.position| && 3 * base + 3 <= |r.normal|
            && Point(r.position, base) == Coords(cell.centroid)
            && Point(r.normal, base) == Coords(cell.centroid)
  {
    var first := FanAfter(acc, cell, color, s, 0);
    var r := FanAfter(acc, cell, color, s, i);
    FanLengths(first, cell, color, s, 0);
    PointOfLast(acc.position, Coords(cell.centroid), base);
    PointOfLast(acc.normal, Coords(cell.centroid), base);
    FanPrefix(acc, cell, color, s, 0, i);
    PointOfPrefix(first.position, r.position, base);
    PointOfPrefix(first.normal, r.normal, base);
  }

  /** A later stage of the same fan extends an earlier one. */
  lemma {:induction false} FanPrefix(acc: MeshData, cell: Cell, color: Rgb, s: int, j: nat, i: nat)
    requires j <= i <= |cell.vertices|
    ensures var early, late := FanAfter(acc, cell, color, s, j), FanAfter(acc, cell, color, s, i);
            early.position <= late.position && early.color <= late.color
            && early.normal <= late.normal && early.index <= late.index
  {
    if j < i {
      FanPrefix(acc, cell, color, s, j, i - 1);
    }
  }

  /** Vertex `k` of the cell is stored right after the centroid and the
      vertices before it. */
  lemma FanVertex(acc: MeshData, cell: Cell, color: Rgb, s: int, i: nat, k: nat, base: nat)
    requires k < i <= |cell.vertices| && |acc.position| == |acc.normal| == 3 * base
    ensures var r := FanAfter(acc, cell, color, s, i);
            && 3 * (base + k + 1) + 3 <= |r.position| && 3 * (base + k + 1) + 3 <= |r.normal|
            && Point(r.position, base + k + 1) == Coords(cell.vertices[k])
            && Point(r.normal, base + k + 1) == Coords(cell.vertices[k])
  {
    var m := FanAfter(acc, cell, color, s, k);
    var pushed := FanAfter(acc, cell, color, s, k + 1);
    var r := FanAfter(acc, cell, color, s, i);
    FanLengths(acc, cell, color, s, k);
    FanLengths(acc, cell, color, s, i);
    PointOfLast(m.position, Coords(cell.vertices[k]), base + k + 1);
    PointOfLast(m.normal, Coords(cell.vertices[k]), base + k + 1);
    FanPrefix(acc, cell, color, s, k + 1, i);
    PointOfPrefix(pushed.position, r.position, base + k + 1);
    PointOfPrefix(pushed.normal, r.normal, base + k + 1);
  }

  /** Every mesh vertex of the fan carries the cell's colour. */
  lemma FanColor(acc: MeshData, cell: Cell, color: Rgb, s: int, i: nat, k: nat, base: nat)
    requires k <= i <= |cell.vertices| && |acc.color| == 3 * base
    ensures var r := FanAfter(acc, cell, color, s, i);
            && 3 * (base + k) + 3 <= |r.color|
            && Point(r.color, base + k) == Channels(color)
  {
    var pushed := FanAfter(acc, cell, color, s, k);
    var r := FanAfter(acc, cell, color, s, i);
    FanLengths(acc, cell, color, s, i);
    if k == 0 {
      PointOfLast(acc.color, Channels(color), base);
    } else {
      var m := FanAfter(acc, cell, color, s, k - 1);
      FanLengths(acc, cell, color, s, k - 1);
      PointOfLast(m.color, Channels(color), base + k);
    }
    FanPrefix(acc, cell, color, s, k, i);
    PointOfPrefix(pushed.color, r.color, base + k);
  }

  /** The three indices of triangle `k` among those pushed from position
      `from` of the index buffer on. */
  function TriangleOf(index: seq<int>, from: nat, k: nat): seq<int>
    requires from + 3 * k + 3 <= |index|
  {
    index[from + 3 * k .. from + 3 * k + 3]
  }

  /** Triangle `k` of the fan is the centroid, vertex `k` and the vertex
      after it. */
  lemma FanTriangleAt(acc: MeshData, cell: Cell, color: Rgb, s: int, i: nat, k: nat)
    requires k < i <= |cell.vertices|
    ensures var r := FanAfter(acc, cell, color, s, i);
            && |acc.index| + 3 * k + 3 <= |r.index|
            && TriangleOf(r.index, |acc.index|, k) == FanTriangle(s, |cell.vertices|, k)
  {
    var m := FanAfter(acc, cell, color, s, k);
    var pushed := FanAfter(acc, cell, color, s, k + 1);
    var r := FanAfter(acc, cell, color, s, i);
    FanLengths(acc, cell, color, s, k);
    FanLengths(acc, cell, color, s, i);
    assert pushed.index == m.index + FanTriangle(s, |cell.vertices|, k);
    FanPrefix(acc, cell, color, s, k + 1, i);
    assert r.index[..|pushed.index|] == pushed.index;
  }

  /** Every index a fan pushes lies between its centroid `s` and its last
      vertex `s + n`, and the last vertex is referenced. */
  lemma {:induction false} FanIndexRange(acc: MeshData, cell: Cell, color: Rgb, s: int, i: nat)
    requires i <= |cell.vertices|
    ensures var r := FanAfter(acc, cell, color, s, i);
            && |r.index| == |acc.index| + 3 * i
            && (forall j :: |acc.index| <= j < |r.index| ==> s <= r.index[j] <= s + |cell.vertices|)
            && (i == |cell.vertices| > 0 ==> r.index[|r.index| - 2] == s + |cell.vertices|)
  {
    if i > 0 {
      FanIndexRange(acc, cell, color, s, i - 1);
      var m := FanAfter(acc, cell, color, s, i - 1);
      var r := FanAfter(acc, cell, color, s, i);
      var n := |cell.vertices|;
      assert r.index == m.index + FanTriangle(s, n, i - 1);
    }
  }

  /** A cell with at least one vertex moves the starting index past its last
      vertex: the next centroid gets the number right after it. */
  lemma CellAdvancesStartingIndex(acc: MeshData, cell: Cell, color: Rgb)
    requires |cell.vertices| > 0
    ensures StartingIndex(AddCell(acc, cell, color).index) == StartingIndex(acc.index) + |cell.vertices| + 1
  {
    var s, n := StartingIndex(acc.index), |cell.vertices|;
    var r := AddCell(acc, cell, color);
    FanIndexRange(acc, cell, color, s, n);
    FanExtends(acc, cell, color, s, n);
    StartingIndexBounds(acc.index);
    StartingIndexBounds(r.index);
    forall j | 0 <= j < |r.index|
      ensures r.index[j] <= s + n
    {
      if j < |acc.index| {
        assert r.index[j] == acc.index[j];
      }
    }
    assert r.index[|r.index| - 2] in r.index;
  }

  /** When every cell has a vertex, the mesh-vertex number the next centroid
      receives is exactly the number of mesh vertices already stored, so
      every triangle refers to its own cell's centroid and vertices. */
  lemma {:induction false} StartingIndexCountsVertices(cells: seq<Cell>, colors: seq<Colored>, k: nat)
    requires k <= |cells| <= |colors|
    requires forall c :: 0 <= c < k ==> |cells[c].vertices| > 0
    ensures var m := MeshOf(cells, colors, k);
            |m.position| == |m.color| == |m.normal| == 3 * StartingIndex(m.index)
  {
    if k > 0 {
      StartingIndexCountsVertices(cells, colors, k - 1);
      var acc, cell, color := MeshOf(cells, colors, k - 1), cells[k - 1], colors[k - 1].color;
      var s, n := StartingIndex(acc.index), |cell.vertices|;
      assert MeshOf(cells, colors, k) == FanAfter(acc, cell, color, s, n);
      FanLengths(acc, cell, color, s, n);
      CellAdvancesStartingIndex(acc, cell, color);
    }
  }

  /** The fan of cell `c` in the finished mesh: its centroid and then its
      vertices are stored, in its colour, at consecutive mesh vertices from
      its starting index, which is the number of mesh vertices before it. */
  lemma CellFanVertices(cells: seq<Cell>, colors: seq<Colored>, c: nat)
    requires c < |cells| <= |colors|
    requires forall d :: 0 <= d <= c ==> |cells[d].vertices| > 0
    ensures var before, after := MeshOf(cells, colors, c), MeshOf(cells, colors, c + 1);
            var s, n := StartingIndex(before.index), |cells[c].vertices|;
            && |before.position| == 3 * s
            && |after.position| == |after.color| == 3 * (s + n + 1)
            && Point(after.position, s) == Coords(cells[c].centroid)
            && (forall k :: 0 <= k < n ==> Point(after.position, s + k + 1) == Coords(cells[c].vertices[k]))
            && (forall j :: s <= j <= s + n ==> Point(after.color, j) == Channels(colors[c].color))
  {
    var before, after := MeshOf(cells, colors, c), MeshOf(cells, colors, c + 1);
    var cell, color := cells[c], colors[c].color;
    var s, n := StartingIndex(before.index), |cell.vertices|;
    StartingIndexCountsVertices(cells, colors, c);
    assert after == FanAfter(before, cell, color, s, n);
    FanLengths(before, cell, color, s, n);
    FanCentroid(before, cell, color, s, n, s);
    forall k | 0 <= k < n
      ensures Point(after.position, s + k + 1) == Coords(cell.vertices[k])
    {
      FanVertex(before, cell, color, s, n, k, s);
    }
    forall j | s <= j <= s + n
      ensures Point(after.color, j) == Channels(color)
    {
      FanColor(before, cell, color, s, n, j - s, s);
    }
  }

  /** The triangles of cell `c` in the finished mesh: one per vertex, and
      triangle `k` joins the centroid to vertices `k` and `k + 1`, wrapping
      to vertex 0. */
  lemma CellFanTriangles(cells: seq<Cell>, colors: seq<Colored>, c: nat)
    requires c < |cells| <= |colors|
    ensures var before, after := MeshOf(cells, colors, c), MeshOf(cells, colors, c + 1);
            var s, n := StartingIndex(before.index), |cells[c].vertices|;
            && |after.index| == |before.index| + 3 * n
            && (forall k :: 0 <= k < n ==> TriangleOf(after.index, |before.index|, k) == FanTriangle(s, n, k))
  {
    var before, after := MeshOf(cells, colors, c), MeshOf(cells, colors, c + 1);
    var cell, color := cells[c], colors[c].color;
    var s, n := StartingIndex(before.index), |cell.vertices|;
    assert after == FanAfter(before, cell, color, s, n);
    FanLengths(before, cell, color, s, n);
    forall k | 0 <= k < n
      ensures TriangleOf(after.index, |before.index|, k) == FanTriangle(s, n, k)
    {
      FanTriangleAt(before, cell, color, s, n, k);
    }
  }

  /** The number of boundary vertices of all cells together. */
  function VertexCount(cells: seq<Cell>): nat {
    if cells == [] then 0 else VertexCount(cells[..|cells| - 1]) + |cells[|cells| - 1].vertices|
  }

  /** The buffers hold one mesh vertex per centroid and per boundary
      vertex, and one triangle per boundary vertex. */
  lemma {:induction false} MeshSizes(cells: seq<Cell>, colors: seq<Colored>, k: nat)
    requires k <= |cells| <= |colors|
    ensures var m := MeshOf(cells, colors, k);
            && |m.position| == |m.color| == |m.normal| == 3 * (k + VertexCount(cells[..k]))
            && |m.index| == 3 * VertexCount(cells[..k])
  {
    if k > 0 {
      MeshSizes(cells, colors, k - 1);
      var acc, cell := MeshOf(cells, colors, k - 1), cells[k - 1];
      assert MeshOf(cells, colors, k) == FanAfter(acc, cell, colors[k - 1].color, StartingIndex(acc.index), |cell.vertices|);
      FanLengths(acc, cell, colors[k - 1].color, StartingIndex(acc.index), |cell.vertices|);
      assert cells[..k][..k - 1] == cells[..k - 1];
    }
  }

  /** A cell without vertices still stores its centroid but pushes no
      index, so the next cell's first triangle starts at mesh vertex 0, the
      first cell's centroid, instead of its own centroid at mesh vertex 1. */
  lemma EmptyCellShiftsNumbering(p: Vec3, q: Vec3, color: Rgb)
    ensures var cells := [Cell(p, []), Cell(q, [q, q, q])];
            var colors := [Colored(cells[0], color), Colored(cells[1], color)];
            var m := MeshOf(cells, colors, 2);
            && |m.position| == 15 && |m.index| == 9
            && TriangleOf(m.index, 0, 0) == [0, 1, 2]
            && Point(m.position, 0) == Coords(p)
            && Point(m.position, 1) == Coords(q)
  {
    var cells := [Cell(p, []), Cell(q, [q, q, q])];
    var colors := [Colored(cells[0], color), Colored(cells[1], color)];
    assert MeshOf(cells, colors, 0) == Empty;
    var first := MeshOf(cells, colors, 1);
    assert first == AddCell(Empty, cells[0], color);
    assert first == FanAfter(Empty, cells[0], color, 0, 0);
    assert first.position == Coords(p) && first.index == [];
    var m := MeshOf(cells, colors, 2);
    assert m == FanAfter(first, cells[1], color, 0, 3);
    FanLengths(first, cells[1], color, 0, 3);
    FanExtends(first, cells[1], color, 0, 3);
    FanTriangleAt(first, cells[1], color, 0, 3, 0);
    FanCentroid(first, cells[1], color, 0, 3, 1);
    PointOfPrefix(first.position, m.position, 0);
  }
}
