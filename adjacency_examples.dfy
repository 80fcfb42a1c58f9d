/** Small meshes on which the neighbour lists can be worked out by hand. */
module AdjacencyExamples {
  import opened Wrappers
  import opened AdjacencySpec
  import opened Geometry
  import opened TriangleAdjacency

  /** Two triangles over the same three vertices, wound in opposite
      directions: the smallest closed mesh with one edge per triangle side. */
  const PillowEdges: seq<Edge> := [(0, 1), (1, 2), (2, 0), (1, 0), (2, 1), (0, 2)]
  const PillowTriangles: seq<seq<nat>> := [[0, 1, 2], [3, 4, 5]]
  const PillowTwins: seq<nat> := [3, 4, 5, 0, 1, 2]

  lemma PillowIsClosed()
    ensures TwinnedEdges(PillowEdges, PillowTwins)
    ensures ListedOnce(|PillowEdges|, PillowTriangles)
    ensures EdgeIndicesInRange(|PillowEdges|, PillowTriangles)
  {
    PillowTwinned();
    PillowListedOnce();
    PillowInRange();
  }

  lemma PillowTwinned()
    ensures TwinnedEdges(PillowEdges, PillowTwins)
  {
    assert PillowEdges[0] == (0, 1) && PillowEdges[1] == (1, 2) && PillowEdges[2] == (2, 0);
    assert PillowEdges[3] == (1, 0) && PillowEdges[4] == (2, 1) && PillowEdges[5] == (0, 2);
    assert PillowTwins[0] == 3 && PillowTwins[1] == 4 && PillowTwins[2] == 5;
    assert PillowTwins[3] == 0 && PillowTwins[4] == 1 && PillowTwins[5] == 2;
    forall e | 0 <= e < 6
      ensures forall f :: 0 <= f < 6 && f != e && SharesEndpoints(PillowEdges[e], PillowEdges[f]) ==> f == PillowTwins[e]
    {
    }
  }

  lemma PillowInRange()
    ensures EdgeIndicesInRange(|PillowEdges|, PillowTriangles)
  {
    assert PillowTriangles[0] == [0, 1, 2] && PillowTriangles[1] == [3, 4, 5];
  }

  lemma PillowListedOnce()
    ensures ListedOnce(|PillowEdges|, PillowTriangles)
  {
    forall e: nat | e < 6
      ensures Listed(PillowTriangles, e)
    {
      assert e in PillowTriangles[e / 3];
    }
  }

  /** Edges 0 to 2 belong to the first triangle, 3 to 5 to the second. */
  lemma PillowOwners()
    ensures forall e :: 0 <= e < 6 ==> Owners(|PillowEdges|, PillowTriangles)[e] == Some(e / 3)
  {
  }

  lemma PillowSharing(e: nat)
    requires e < 6
    ensures PillowTwins[e] < 6 && Sharing(PillowEdges, e) == [PillowTwins[e]]
  {
    PillowTwinned();
    TwinSharing(PillowEdges, PillowTwins, e);
  }

  /** Each side of either pillow triangle is shared with the other one, so
      each lists the other three times. */
  lemma PillowNeighbors()
    ensures EdgeIndicesInRange(|PillowEdges|, PillowTriangles)
    ensures Neighbors(PillowEdges, PillowTriangles, 0) == [Some(1), Some(1), Some(1)]
    ensures Neighbors(PillowEdges, PillowTriangles, 1) == [Some(0), Some(0), Some(0)]
  {
    PillowSide(0, [0, 1, 2], [Some(1), Some(1), Some(1)]);
    PillowSide(1, [3, 4, 5], [Some(0), Some(0), Some(0)]);
  }

  lemma PillowSide(t: nat, tri: seq<nat>, expected: seq<Option<nat>>)
    requires t < 2 && tri == PillowTriangles[t] && |expected| == 3
    requires forall k :: 0 <= k < 3 ==> expected[k] == Some(1 - t)
    ensures EdgeIndicesInRange(|PillowEdges|, PillowTriangles)
    ensures Neighbors(PillowEdges, PillowTriangles, t) == expected
  {
    var owner := Owners(|PillowEdges|, PillowTriangles);
    PillowInRange();
    PillowOwners();
    forall k | 0 <= k < 3
      ensures tri[k] < 6 && PillowTwins[tri[k]] < 6 && Sharing(PillowEdges, tri[k]) == [PillowTwins[tri[k]]]
      ensures owner[PillowTwins[tri[k]]] == Some(1 - t)
    {
      PillowSharing(tri[k]);
    }
    TwinnedNeighborsAfter(PillowEdges, owner, PillowTwins, tri, 3);
  }

  /** Every edge sharing the vertex pair contributes its owner, so a
      neighbour reached through two edges is listed twice. */
  const DoubledEdges: seq<Edge> := [(0, 1), (1, 0), (0, 1)]
  const DoubledTriangles: seq<seq<nat>> := [[0], [1, 2]]

  lemma RepeatedNeighbor()
    ensures EdgeIndicesInRange(|DoubledEdges|, DoubledTriangles)
    ensures Neighbors(DoubledEdges, DoubledTriangles, 0) == [Some(1), Some(1)]
  {
    var edges, triangles := DoubledEdges, DoubledTriangles;
    DoubledInRange();
    DoubledSharing();
    DoubledOwners();
    var owner := Owners(|edges|, triangles);
    assert Contribution(edges, owner, 0) == [Some(1), Some(1)];
    assert triangles[0] == [0];
    assert NeighborsAfter(edges, owner, [0], 1) == [Some(1), Some(1)];
  }

  lemma DoubledInRange()
    ensures EdgeIndicesInRange(|DoubledEdges|, DoubledTriangles)
  {
    assert DoubledTriangles[0] == [0] && DoubledTriangles[1] == [1, 2];
  }

  /** Both other edges lie on the vertex pair of edge 0. */
  lemma DoubledSharing()
    ensures Sharing(DoubledEdges, 0) == [1, 2]
  {
    var edges := DoubledEdges;
    assert edges[0] == (0, 1) && edges[1] == (1, 0) && edges[2] == (0, 1);
    assert SharingAfter(edges, 1, 0) == [];
    assert SharingAfter(edges, 2, 0) == [1];
  }

  /** The second triangle owns edges 1 and 2. */
  lemma DoubledOwners()
    ensures Owners(|DoubledEdges|, DoubledTriangles)[1] == Some(1)
    ensures Owners(|DoubledEdges|, DoubledTriangles)[2] == Some(1)
  {
    assert 1 in DoubledTriangles[1] && 2 in DoubledTriangles[1];
  }

  /** An edge no triangle lists keeps the placeholder owner, which lands in
      the list of every triangle with an edge sharing its vertex pair. */
  lemma UnlistedTwin()
    ensures var edges := [(0, 1), (1, 0)];
            var triangles := [[0]];
            && EdgeIndicesInRange(|edges|, triangles)
            && Neighbors(edges, triangles, 0) == [None]
  {
    var edges := [(0, 1), (1, 0)];
    var triangles := [[0]];
    assert SharingAfter(edges, 2, 0) == [1];
    var owner := Owners(|edges|, triangles);
    assert owner[1] == None;
    assert Contribution(edges, owner, 0) == [None];
    assert NeighborsAfter(edges, owner, [0], 1) == [None];
  }

  /** Building the class on the pillow: every lookup of the first triangle
      returns the second one's edges, once per side. */
  method PillowLookup() returns (data: Result<seq<seq<nat>>, LookupError>)
    ensures data == Ok([[3, 4, 5], [3, 4, 5], [3, 4, 5]])
  {
    var positions := [Vec3(0.0, 0.0, 0.0), Vec3(1.0, 0.0, 0.0), Vec3(0.0, 1.0, 0.0)];
    var mesh := new NearestNeighbor(positions, PillowEdges, PillowTriangles);
    PillowNeighbors();
    data := mesh.NearestNeighborData(0);
    assert data.Ok? && |data.value| == 3;
    assert forall k :: 0 <= k < 3 ==> data.value[k] == PillowTriangles[1] == [3, 4, 5];
    assert data.value == [[3, 4, 5], [3, 4, 5], [3, 4, 5]];
  }
}
