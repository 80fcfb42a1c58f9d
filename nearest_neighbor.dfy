/** The NearestNeighbor class: built once from vertex, edge and triangle
    arrays, it records for each triangle the owners of the edges that share
    a vertex pair with one of its edges. */
module TriangleAdjacency {
  import opened Wrappers
  import opened Geometry
  import opened AdjacencySpec

  /** Both lookups fail the way the source does when it indexes `undefined`. */
  datatype LookupError =
    | UnknownTriangle  // the index or array is not one of the constructor's triangles
    | MissingOwner     // a neighbour entry is the undefined owner of an unlisted edge

  /** A JavaScript `Set.add`: append unless already present. */
  function Add(members: seq<nat>, x: nat): seq<nat> {
    if x in members then members else members + [x]
  }

  /** The loop that intersects two incident-edge sets, walking the first
      in insertion order. */
  method Intersect(setA: seq<nat>, setB: seq<nat>) returns (intersection: seq<nat>)
    ensures intersection == KeepIn(setA, setB)
  {
    intersection := [];
    for i := 0 to |setA|
      invariant intersection == KeepIn(setA[..i], setB)
    {
      assert setA[..i + 1] == setA[..i] + [setA[i]];
      KeepInSnoc(setA[..i], setA[i], setB);
      if setA[i] in setB {
        intersection := intersection + [setA[i]];
      }
    }
    assert setA[..|setA|] == setA;
  }

  /** Adding edge `i` to the sets of both its endpoints turns the sets of
      the first `i` edges into those of the first `i + 1`: `i` is new to
      both, so the second `add` of a loop edge changes nothing. */
  lemma IncidentStep(edges: seq<Edge>, i: nat, sets: seq<seq<nat>>)
    requires i < |edges| && edges[i].0 < |sets| && edges[i].1 < |sets|
    requires forall v :: 0 <= v < |sets| ==> sets[v] == IncidentAfter(edges, i, v)
    ensures var (a, b) := edges[i];
            var once := sets[a := Add(sets[a], i)];
            var twice := once[b := Add(once[b], i)];
            forall v :: 0 <= v < |sets| ==> twice[v] == IncidentAfter(edges, i + 1, v)
  {
    var (a, b) := edges[i];
    IncidentAfterMembers(edges, i, a);
    IncidentAfterMembers(edges, i, b);
    assert Add(sets[a], i) == sets[a] + [i];
    assert Add(sets[b], i) == sets[b] + [i];
  }

  /** The loop over the intersection: skip `e` itself and look up the owner
      slot of every other edge, in order. */
  method OwnersSkipping(owner: seq<Option<nat>>, intersection: seq<nat>, e: nat) returns (found: seq<Option<nat>>)
    requires forall i :: 0 <= i < |intersection| ==> intersection[i] < |owner|
    ensures forall i :: 0 <= i < |Without(intersection, e)| ==> Without(intersection, e)[i] < |owner|
    ensures found == OwnersOf(owner, Without(intersection, e))
  {
    found := [];
    for k := 0 to |intersection|
      invariant AllBelow(Without(intersection[..k], e), |owner|)
      invariant found == OwnersOf(owner, Without(intersection[..k], e))
    {
      OwnersSkippingStep(owner, intersection, k, e);
      if intersection[k] != e {
        found := found + [owner[intersection[k]]];
      }
    }
    assert intersection[..|intersection|] == intersection;
  }

  lemma OwnersSkippingStep(owner: seq<Option<nat>>, xs: seq<nat>, k: nat, e: nat)
    requires k < |xs| && forall i :: 0 <= i < |xs| ==> xs[i] < |owner|
    requires AllBelow(Without(xs[..k], e), |owner|)
    ensures AllBelow(Without(xs[..k + 1], e), |owner|)
    ensures OwnersOf(owner, Without(xs[..k + 1], e))
            == OwnersOf(owner, Without(xs[..k], e)) + (if xs[k] != e then [owner[xs[k]]] else [])
  {
    assert xs[..k + 1] == xs[..k] + [xs[k]];
    WithoutSnoc(xs[..k], xs[k], e);
    WithoutBounded(xs[..k + 1], e, |owner|);
    if xs[k] != e {
      OwnersOfSnoc(owner, Without(xs[..k], e), xs[k]);
    } else {
      assert Without(xs[..k + 1], e) == Without(xs[..k], e);
      assert OwnersOf(owner, Without(xs[..k], e)) + [] == OwnersOf(owner, Without(xs[..k], e));
    }
  }

  class NearestNeighbor {
    /** Vertex positions, never read by the construction. */
    const positions: seq<Vec3>
    /** Endpoint pairs of the edges. */
    const edges: seq<Edge>
    /** Edge lists of the triangles. */
    const triangles: seq<seq<nat>>

    /** Owner slot per edge: the triangle last seen listing it, None for the placeholder. */
    var owner: seq<Option<nat>>
    /** Incident-edge set per vertex, in insertion order. */
    var incident: seq<seq<nat>>
    /** Neighbour list per triangle. */
    var neighbors: seq<seq<Option<nat>>>

    ghost predicate Valid()
      reads this
    {
      && EndpointsInRange(|positions|, edges)
      && EdgeIndicesInRange(|edges|, triangles)
      && owner == Owners(|edges|, triangles)
      && |incident| == |positions|
      && (forall v :: 0 <= v < |positions| ==> incident[v] == Incident(edges, v))
      && |neighbors| == |triangles|
      && (forall t :: 0 <= t < |triangles| ==> neighbors[t] == Neighbors(edges, triangles, t))
    }

    constructor (positions: seq<Vec3>, edges: seq<Edge>, triangles: seq<seq<nat>>)
      requires EndpointsInRange(|positions|, edges)
      requires EdgeIndicesInRange(|edges|, triangles)
      ensures this.positions == positions && this.edges == edges && this.triangles == triangles
      ensures Valid()
    {
      this.positions := positions;
      this.edges := edges;
      this.triangles := triangles;
      owner := seq(|edges|, _ => None);
      incident := seq(|positions|, _ => []);
      neighbors := seq(|triangles|, _ => []);
      new;
      AssignOwners();
      CollectIncidentEdges();
      BuildNeighborLists();
    }

    /** Each triangle, in order, writes itself into the owner slot of each
        of its edges. */
    method AssignOwners()
      requires EdgeIndicesInRange(|edges|, triangles)
      requires owner == seq(|edges|, _ => None)
      modifies this
      ensures owner == Owners(|edges|, triangles)
      ensures incident == old(incident) && neighbors == old(neighbors)
    {
      for t := 0 to |triangles|
        invariant |owner| == |edges|
        invariant forall e :: 0 <= e < |edges| ==> owner[e] == OwnerAfter(triangles, t, e)
        invariant incident == old(incident) && neighbors == old(neighbors)
      {
        var triangle := triangles[t];
        for j := 0 to |triangle|
          invariant |owner| == |edges|
          invariant forall e :: 0 <= e < |edges| ==>
                      owner[e] == if e in triangle[..j] then Some(t) else OwnerAfter(triangles, t, e)
          invariant incident == old(incident) && neighbors == old(neighbors)
        {
          assert triangle[..j + 1] == triangle[..j] + [triangle[j]];
          owner := owner[triangle[j] := Some(t)];
        }
        assert triangle[..|triangle|] == triangle;
      }
    }

    /** Each edge, in order, is added to the sets of both its endpoints
        (the sets are updated in a local table that is stored at the end). */
    method CollectIncidentEdges()
      requires EndpointsInRange(|positions|, edges)
      requires incident == seq(|positions|, _ => [])
      modifies this
      ensures |incident| == |positions|
      ensures forall v :: 0 <= v < |positions| ==> incident[v] == Incident(edges, v)
      ensures owner == old(owner) && neighbors == old(neighbors)
    {
      var sets := incident;
      for i := 0 to |edges|
        modifies {}
        invariant |sets| == |positions|
        invariant forall v :: 0 <= v < |positions| ==> sets[v] == IncidentAfter(edges, i, v)
      {
        var (a, b) := edges[i];
        IncidentStep(edges, i, sets);
        sets := sets[a := Add(sets[a], i)];
        sets := sets[b := Add(sets[b], i)];
      }
      incident := sets;
    }

    /** For every edge of every triangle, in order, push the owners of the
        edges that share its vertex pair onto the triangle's list. */
    method BuildNeighborLists()
      requires EndpointsInRange(|positions|, edges)
      requires EdgeIndicesInRange(|edges|, triangles)
      requires owner == Owners(|edges|, triangles)
      requires |incident| == |positions|
      requires forall v :: 0 <= v < |positions| ==> incident[v] == Incident(edges, v)
      requires neighbors == seq(|triangles|, _ => [])
      modifies this
      ensures |neighbors| == |triangles|
      ensures forall t :: 0 <= t < |triangles| ==> neighbors[t] == Neighbors(edges, triangles, t)
      ensures owner == old(owner) && incident == old(incident)
    {
      for t := 0 to |triangles|
        invariant |neighbors| == |triangles|
        invariant forall u :: 0 <= u < t ==> neighbors[u] == Neighbors(edges, triangles, u)
        invariant forall u :: t <= u < |triangles| ==> neighbors[u] == []
        invariant owner == old(owner) && incident == old(incident)
      {
        FillNeighborList(t);
      }
    }

    /** The inner loop for triangle `t`: each of its edges, in order,
        appends what it contributes to the list of `t`. */
    method FillNeighborList(t: nat)
      requires EndpointsInRange(|positions|, edges)
      requires EdgeIndicesInRange(|edges|, triangles)
      requires t < |triangles| == |neighbors| && |owner| == |edges|
      requires |incident| == |positions|
      requires forall v :: 0 <= v < |positions| ==> incident[v] == Incident(edges, v)
      requires neighbors[t] == []
      modifies this
      ensures owner == old(owner) && incident == old(incident)
      ensures neighbors == old(neighbors)[t := NeighborsAfter(edges, owner, triangles[t], |triangles[t]|)]
    {
      var triangle := triangles[t];
      for j := 0 to |triangle|
        invariant owner == old(owner) && incident == old(incident)
        invariant neighbors == old(neighbors)[t := NeighborsAfter(edges, owner, triangle, j)]
      {
        PushSharingOwners(t, triangle[j]);
      }
    }

    /** The body of the inner loop for edge `e` of triangle `t`: intersect
        the sets of its two endpoints, and push the owner of every edge found
        there, other than `e` itself, onto the list of `t` (collected in a
        local and appended once, which nothing in between can observe). */
    method PushSharingOwners(t: nat, e: nat)
      requires EndpointsInRange(|positions|, edges)
      requires t < |neighbors| && e < |edges| && |owner| == |edges|
      requires |incident| == |positions|
      requires forall v :: 0 <= v < |positions| ==> incident[v] == Incident(edges, v)
      modifies this
      ensures owner == old(owner) && incident == old(incident)
      ensures neighbors == old(neighbors)[t := old(neighbors)[t] + Contribution(edges, owner, e)]
    {
      var (vertexA, vertexB) := edges[e];
      var intersection := Intersect(incident[vertexA], incident[vertexB]);
      IntersectionBounded(edges, vertexA, vertexB);
      var found := OwnersSkipping(owner, intersection, e);
      IntersectionIsSharing(edges, e);
      neighbors := neighbors[t := neighbors[t] + found];
    }

    /** `getNearestNeighborIndicesFromIndex`: the stored list. */
    function NearestNeighborIndicesFromIndex(triangleIndex: int): (r: Result<seq<Option<nat>>, LookupError>)
      reads this
      requires Valid()
      ensures r.Ok? <==> 0 <= triangleIndex < |triangles|
      ensures r.Ok? ==> r.value == Neighbors(edges, triangles, triangleIndex)
    {
      if 0 <= triangleIndex < |neighbors| then Ok(neighbors[triangleIndex]) else Err(UnknownTriangle)
    }

    /** `getNearestNeighborIndices`: the triangle array is looked up by
        identity; an array is named by its position among the constructor's
        triangles, and any other value names an array it was not given. */
    function NearestNeighborIndices(triangle: int): (r: Result<seq<Option<nat>>, LookupError>)
      reads this
      requires Valid()
      ensures r.Ok? <==> 0 <= triangle < |triangles|
      ensures r.Ok? ==> r.value == Neighbors(edges, triangles, triangle)
    {
      NearestNeighborIndicesFromIndex(triangle)
    }

    /** `getNearestNeighborData`: each stored index replaced by that
        triangle's edge list, in order. */
    function NearestNeighborData(triangle: int): (r: Result<seq<seq<nat>>, LookupError>)
      reads this
      requires Valid()
      ensures r.Ok? <==> 0 <= triangle < |triangles|
                         && forall k :: 0 <= k < |Neighbors(edges, triangles, triangle)| ==> Neighbors(edges, triangles, triangle)[k].Some?
      ensures r.Ok? ==> var ns := Neighbors(edges, triangles, triangle);
                        |r.value| == |ns| &&
                        forall k :: 0 <= k < |ns| ==> ns[k].value < |triangles| && r.value[k] == triangles[ns[k].value]
    {
      match NearestNeighborIndices(triangle)
      case Err(error) => Err(error)
      case Ok(indices) =>
        if forall k :: 0 <= k < |indices| ==> indices[k].Some? then
          NeighborEntriesInRange(triangle);
          Ok(seq(|indices|, k requires 0 <= k < |indices| => triangles[indices[k].value]))
        else
          Err(MissingOwner)
    }

    /** On a closed mesh whose edges come in twinned pairs, each listed by
        exactly one triangle, the data lookup succeeds for every triangle and
        pairs each of its edges, in order, with the edge list holding that
        edge's twin. */
    lemma TwinnedData(twin: seq<nat>, t: nat)
      requires Valid() && TwinnedEdges(edges, twin) && ListedOnce(|edges|, triangles)
      requires t < |triangles|
      ensures NearestNeighborData(t).Ok?
      ensures |NearestNeighborData(t).value| == |triangles[t]|
      ensures forall k :: 0 <= k < |triangles[t]| ==> twin[triangles[t][k]] in NearestNeighborData(t).value[k]
    {
      TwinnedNeighbors(edges, triangles, twin, t);
    }

    /** Every defined neighbour entry names a triangle. */
    lemma NeighborEntriesInRange(t: nat)
      requires Valid() && t < |triangles|
      ensures forall k :: 0 <= k < |neighbors[t]| && neighbors[t][k].Some? ==> neighbors[t][k].value < |triangles|
    {
      forall k | 0 <= k < |neighbors[t]| && neighbors[t][k].Some?
        ensures neighbors[t][k].value < |triangles|
      {
        var x := neighbors[t][k];
        NeighborMembers(edges, triangles, t, x);
        var j :| 0 <= j < |triangles[t]| && Contributes(edges, owner, triangles[t][j], x);
      }
    }
  }
}
