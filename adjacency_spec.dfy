/** What the NearestNeighbor constructor leaves in each of its tables, stated
    over integer indices: edges and triangles are named by their position in
    the caller's arrays (the source keys its maps by object identity). */
module AdjacencySpec {
  import opened Wrappers

  /** An edge as the caller passes it: a pair of vertex indices. */
  type Edge = (nat, nat)

  predicate Touches(e: Edge, v: nat) { e.0 == v || e.1 == v }

  /** `f` lies in the incident-edge sets of both endpoints of `e`, so it
      survives the set intersection the constructor computes for `e`. */
  predicate SharesEndpoints(e: Edge, f: Edge) { Touches(f, e.0) && Touches(f, e.1) }

  predicate StrictlyIncreasing(s: seq<nat>) {
    forall i, j :: 0 <= i < j < |s| ==> s[i] < s[j]
  }

  /** Every vertex index an edge names exists. */
  predicate EndpointsInRange(vertexCount: nat, edges: seq<Edge>) {
    forall e :: 0 <= e < |edges| ==> edges[e].0 < vertexCount && edges[e].1 < vertexCount
  }

  /** Every edge index a triangle names exists. */
  predicate EdgeIndicesInRange(edgeCount: nat, triangles: seq<seq<nat>>) {
    forall t, j :: 0 <= t < |triangles| && 0 <= j < |triangles[t]| ==> triangles[t][j] < edgeCount
  }

  // ---------------------------------------------------------------------
  // Edge ownership

  /** The owner slot of edge `e` once the first `n` triangles have been
      visited: the last of them that lists `e`, or None (the `[null, null]`
      placeholder) when none does. */
  function OwnerAfter(triangles: seq<seq<nat>>, n: nat, e: nat): (r: Option<nat>)
    requires n <= |triangles|
    ensures r.Some? ==> r.value < n && e in triangles[r.value]
    ensures r.Some? ==> forall u :: r.value < u < n ==> e !in triangles[u]
    ensures r.None? <==> forall u :: 0 <= u < n ==> e !in triangles[u]
  {
    if n == 0 then None
    else if e in triangles[n - 1] then Some(n - 1)
    else OwnerAfter(triangles, n - 1, e)
  }

  function Owner(triangles: seq<seq<nat>>, e: nat): Option<nat> {
    OwnerAfter(triangles, |triangles|, e)
  }

  /** The owner slots of all `edgeCount` edges after the ownership loop. */
  function Owners(edgeCount: nat, triangles: seq<seq<nat>>): seq<Option<nat>> {
    seq(edgeCount, (e: int) requires 0 <= e => Owner(triangles, e))
  }

  // ---------------------------------------------------------------------
  // Vertex -> incident edges

  /** The incident-edge set of vertex `v` after the first `n` edges were
      added, in insertion order. */
  function IncidentAfter(edges: seq<Edge>, n: nat, v: nat): seq<nat>
    requires n <= |edges|
  {
    if n == 0 then []
    else IncidentAfter(edges, n - 1, v) + (if Touches(edges[n - 1], v) then [n - 1] else [])
  }

  function Incident(edges: seq<Edge>, v: nat): seq<nat> {
    IncidentAfter(edges, |edges|, v)
  }

  /** The set built for `v` holds exactly the edges with `v` as an endpoint,
      each once, in ascending order. */
  lemma {:induction false} IncidentAfterMembers(edges: seq<Edge>, n: nat, v: nat)
    requires n <= |edges|
    ensures forall e: nat :: e in IncidentAfter(edges, n, v) <==> e < n && Touches(edges[e], v)
    ensures forall i :: 0 <= i < |IncidentAfter(edges, n, v)| ==> IncidentAfter(edges, n, v)[i] < n
    ensures StrictlyIncreasing(IncidentAfter(edges, n, v))
  {
    if n > 0 {
      IncidentAfterMembers(edges, n - 1, v);
    }
  }

  lemma IncidentMembers(edges: seq<Edge>, v: nat)
    ensures forall e: nat :: e in Incident(edges, v) <==> e < |edges| && Touches(edges[e], v)
    ensures forall i :: 0 <= i < |Incident(edges, v)| ==> Incident(edges, v)[i] < |edges|
    ensures StrictlyIncreasing(Incident(edges, v))
  {
    IncidentAfterMembers(edges, |edges|, v);
  }

  // ---------------------------------------------------------------------
  // Neighbour lists

  /** The edges among the first `n`, other than `e` itself, whose endpoints
      include both endpoints of `e`, in ascending order. */
  function SharingAfter(edges: seq<Edge>, n: nat, e: nat): seq<nat>
    requires n <= |edges| && e < |edges|
  {
    if n == 0 then []
    else
      SharingAfter(edges, n - 1, e)
      + (if n - 1 != e && SharesEndpoints(edges[e], edges[n - 1]) then [n - 1] else [])
  }

  function Sharing(edges: seq<Edge>, e: nat): seq<nat>
    requires e < |edges|
  {
    SharingAfter(edges, |edges|, e)
  }

  lemma {:induction false} SharingAfterMembers(edges: seq<Edge>, n: nat, e: nat)
    requires n <= |edges| && e < |edges|
    ensures forall f: nat :: f in SharingAfter(edges, n, e) <==> f < n && f != e && SharesEndpoints(edges[e], edges[f])
    ensures forall i :: 0 <= i < |SharingAfter(edges, n, e)| ==> SharingAfter(edges, n, e)[i] < n
    ensures StrictlyIncreasing(SharingAfter(edges, n, e))
  {
    if n > 0 {
      SharingAfterMembers(edges, n - 1, e);
    }
  }

  /** The sharing edges of `e`: every other edge on both of its endpoints,
      ascending. */
  lemma SharingMembers(edges: seq<Edge>, e: nat)
    requires e < |edges|
    ensures forall f: nat :: f in Sharing(edges, e) <==> f < |edges| && f != e && SharesEndpoints(edges[e], edges[f])
    ensures forall i :: 0 <= i < |Sharing(edges, e)| ==> Sharing(edges, e)[i] < |edges|
    ensures StrictlyIncreasing(Sharing(edges, e))
  {
    SharingAfterMembers(edges, |edges|, e);
  }

  /** Every entry of `fs` is an index into a sequence of length `bound`. */
  predicate AllBelow(fs: seq<nat>, bound: nat) {
    forall i :: 0 <= i < |fs| ==> fs[i] < bound
  }

  /** The owner slots of the edges `fs`, in the order of `fs`. */
  function OwnersOf(owner: seq<Option<nat>>, fs: seq<nat>): (r: seq<Option<nat>>)
    requires forall i :: 0 <= i < |fs| ==> fs[i] < |owner|
    ensures |r| == |fs|
    ensures forall i :: 0 <= i < |fs| ==> r[i] == owner[fs[i]]
  {
    if fs == [] then [] else OwnersOf(owner, fs[..|fs| - 1]) + [owner[fs[|fs| - 1]]]
  }

  /** What edge `e` of a triangle adds to the triangle's list. */
  function Contribution(edges: seq<Edge>, owner: seq<Option<nat>>, e: nat): seq<Option<nat>>
    requires e < |edges| && |owner| == |edges|
  {
    SharingMembers(edges, e);
    OwnersOf(owner, Sharing(edges, e))
  }

  /** The neighbour list of a triangle with edge list `tri` after its first
      `j` edges. */
  function NeighborsAfter(edges: seq<Edge>, owner: seq<Option<nat>>, tri: seq<nat>, j: nat): seq<Option<nat>>
    requires j <= |tri| && |owner| == |edges|
    requires forall k :: 0 <= k < |tri| ==> tri[k] < |edges|
  {
    if j == 0 then []
    else NeighborsAfter(edges, owner, tri, j - 1) + Contribution(edges, owner, tri[j - 1])
  }

  /** The neighbour list of triangle `t` once construction is done. */
  function Neighbors(edges: seq<Edge>, triangles: seq<seq<nat>>, t: nat): seq<Option<nat>>
    requires EdgeIndicesInRange(|edges|, triangles) && t < |triangles|
  {
    NeighborsAfter(edges, Owners(|edges|, triangles), triangles[t], |triangles[t]|)
  }

  // ---------------------------------------------------------------------
  // The intersection loop and what it computes

  /** The elements of `xs` that occur in `ys`, in the order of `xs`. */
  function KeepIn(xs: seq<nat>, ys: seq<nat>): seq<nat> {
    if xs == [] then []
    else KeepIn(xs[..|xs| - 1], ys) + (if xs[|xs| - 1] in ys then [xs[|xs| - 1]] else [])
  }

  /** `xs` with every occurrence of `x` skipped. */
  function Without(xs: seq<nat>, x: nat): seq<nat> {
    if xs == [] then []
    else Without(xs[..|xs| - 1], x) + (if xs[|xs| - 1] != x then [xs[|xs| - 1]] else [])
  }

  lemma {:induction false} KeepInMembers(xs: seq<nat>, ys: seq<nat>)
    ensures forall x :: x in KeepIn(xs, ys) <==> x in xs && x in ys
  {
    if xs != [] {
      KeepInMembers(xs[..|xs| - 1], ys);
      assert xs == xs[..|xs| - 1] + [xs[|xs| - 1]];
    }
  }

  lemma {:induction false} WithoutMembers(xs: seq<nat>, x: nat)
    ensures forall y :: y in Without(xs, x) <==> y in xs && y != x
  {
    if xs != [] {
      WithoutMembers(xs[..|xs| - 1], x);
      assert xs == xs[..|xs| - 1] + [xs[|xs| - 1]];
    }
  }

  lemma KeepInSnoc(xs: seq<nat>, x: nat, ys: seq<nat>)
    ensures KeepIn(xs + [x], ys) == KeepIn(xs, ys) + (if x in ys then [x] else [])
  {
    assert (xs + [x])[..|xs|] == xs;
  }

  /** Skipping entries keeps every remaining one under a bound the input keeps. */
  lemma {:induction false} WithoutBounded(xs: seq<nat>, x: nat, bound: nat)
    requires forall i :: 0 <= i < |xs| ==> xs[i] < bound
    ensures forall i :: 0 <= i < |Without(xs, x)| ==> Without(xs, x)[i] < bound
  {
    if xs != [] {
      WithoutBounded(xs[..|xs| - 1], x, bound);
    }
  }

  lemma WithoutSnoc(xs: seq<nat>, y: nat, x: nat)
    ensures Without(xs + [y], x) == Without(xs, x) + (if y != x then [y] else [])
  {
    assert (xs + [y])[..|xs|] == xs;
  }

  lemma OwnersOfSnoc(owner: seq<Option<nat>>, fs: seq<nat>, f: nat)
    requires forall i :: 0 <= i < |fs| ==> fs[i] < |owner|
    requires f < |owner|
    ensures OwnersOf(owner, fs + [f]) == OwnersOf(owner, fs) + [owner[f]]
  {
    assert (fs + [f])[..|fs|] == fs;
  }

  /** The intersection walk and the skip of `e` in one pass: the elements
      of `xs` that occur in `ys` and are not `e`, in the order of `xs`. */
  function Common(xs: seq<nat>, ys: seq<nat>, e: nat): seq<nat> {
    if xs == [] then []
    else Common(xs[..|xs| - 1], ys, e) + (if xs[|xs| - 1] in ys && xs[|xs| - 1] != e then [xs[|xs| - 1]] else [])
  }

  lemma {:induction false} CommonIsWithoutKeepIn(xs: seq<nat>, ys: seq<nat>, e: nat)
    ensures Without(KeepIn(xs, ys), e) == Common(xs, ys, e)
  {
    if xs != [] {
      var prefix, x := xs[..|xs| - 1], xs[|xs| - 1];
      CommonIsWithoutKeepIn(prefix, ys, e);
      if x in ys {
        WithoutSnoc(KeepIn(prefix, ys), x, e);
      } else {
        assert KeepIn(xs, ys) == KeepIn(prefix, ys) + [];
        assert KeepIn(prefix, ys) + [] == KeepIn(prefix, ys);
      }
    }
  }

  lemma CommonSnoc(xs: seq<nat>, x: nat, ys: seq<nat>, e: nat)
    ensures Common(xs + [x], ys, e) == Common(xs, ys, e) + (if x in ys && x != e then [x] else [])
  {
    assert (xs + [x])[..|xs|] == xs;
  }

  /** Walking the incident set of the first endpoint of `e` through any set
      `ys` holding exactly the edges on its second endpoint, and skipping
      `e`, leaves the sharing edges of `e`. */
  lemma {:induction false} CommonIsSharingAfter(edges: seq<Edge>, n: nat, e: nat, ys: seq<nat>)
    requires n <= |edges| && e < |edges|
    requires forall f: nat :: f in ys <==> f < |edges| && Touches(edges[f], edges[e].1)
    ensures Common(IncidentAfter(edges, n, edges[e].0), ys, e) == SharingAfter(edges, n, e)
  {
    if n > 0 {
      CommonIsSharingAfter(edges, n - 1, e, ys);
      CommonStep(edges, n, e, ys);
    }
  }

  /** The walk over the first `n` edges extends the walk over the first
      `n - 1` by edge `n - 1` exactly when that edge is a sharing edge. */
  lemma CommonStep(edges: seq<Edge>, n: nat, e: nat, ys: seq<nat>)
    requires 0 < n <= |edges| && e < |edges|
    requires forall f: nat :: f in ys <==> f < |edges| && Touches(edges[f], edges[e].1)
    ensures Common(IncidentAfter(edges, n, edges[e].0), ys, e)
            == Common(IncidentAfter(edges, n - 1, edges[e].0), ys, e)
               + (if n - 1 != e && SharesEndpoints(edges[e], edges[n - 1]) then [n - 1] else [])
  {
    var xs := IncidentAfter(edges, n - 1, edges[e].0);
    if Touches(edges[n - 1], edges[e].0) {
      CommonSnoc(xs, n - 1, ys, e);
    } else {
      assert xs + [] == xs;
    }
  }

  /** Every edge in the intersection of two incident-edge sets exists. */
  lemma IntersectionBounded(edges: seq<Edge>, a: nat, b: nat)
    ensures forall i :: 0 <= i < |KeepIn(Incident(edges, a), Incident(edges, b))| ==>
              KeepIn(Incident(edges, a), Incident(edges, b))[i] < |edges|
  {
    var common := KeepIn(Incident(edges, a), Incident(edges, b));
    IncidentMembers(edges, a);
    KeepInMembers(Incident(edges, a), Incident(edges, b));
    forall i | 0 <= i < |common|
      ensures common[i] < |edges|
    {
      assert common[i] in Incident(edges, a);
    }
  }

  lemma IntersectionIsSharing(edges: seq<Edge>, e: nat)
    requires e < |edges|
    ensures Without(KeepIn(Incident(edges, edges[e].0), Incident(edges, edges[e].1)), e) == Sharing(edges, e)
  {
    var a, b := edges[e].0, edges[e].1;
    IncidentMembers(edges, b);
    CommonIsWithoutKeepIn(Incident(edges, a), Incident(edges, b), e);
    CommonIsSharingAfter(edges, |edges|, e, Incident(edges, b));
  }

  // ---------------------------------------------------------------------
  // Properties of the neighbour relation

  /** `x` is the owner slot of some edge, other than `e`, on both endpoints of `e`. */
  predicate Contributes(edges: seq<Edge>, owner: seq<Option<nat>>, e: nat, x: Option<nat>)
    requires e < |edges| && |owner| == |edges|
  {
    exists f :: 0 <= f < |edges| && f != e && SharesEndpoints(edges[e], edges[f]) && owner[f] == x
  }

  lemma ContributionMembers(edges: seq<Edge>, owner: seq<Option<nat>>, e: nat, x: Option<nat>)
    requires e < |edges| && |owner| == |edges|
    ensures x in Contribution(edges, owner, e) <==> Contributes(edges, owner, e, x)
  {
    var sh := Sharing(edges, e);
    var os := Contribution(edges, owner, e);
    SharingMembers(edges, e);
    if x in os {
      var i :| 0 <= i < |os| && os[i] == x;
      assert sh[i] in sh;
    }
    if Contributes(edges, owner, e, x) {
      var f :| 0 <= f < |edges| && f != e && SharesEndpoints(edges[e], edges[f]) && owner[f] == x;
      assert f in sh;
      var i :| 0 <= i < |sh| && sh[i] == f;
      assert os[i] == x;
    }
  }

  lemma {:induction false} NeighborsAfterMembers(edges: seq<Edge>, owner: seq<Option<nat>>, tri: seq<nat>, j: nat, x: Option<nat>)
    requires j <= |tri| && |owner| == |edges|
    requires forall k :: 0 <= k < |tri| ==> tri[k] < |edges|
    ensures x in NeighborsAfter(edges, owner, tri, j) <==>
            exists k :: 0 <= k < j && Contributes(edges, owner, tri[k], x)
  {
    if j > 0 {
      NeighborsAfterMembers(edges, owner, tri, j - 1, x);
      ContributionMembers(edges, owner, tri[j - 1], x);
      var prior := NeighborsAfter(edges, owner, tri, j - 1);
      var added := Contribution(edges, owner, tri[j - 1]);
      assert NeighborsAfter(edges, owner, tri, j) == prior + added;
      assert (x in prior + added) == (x in prior || x in added);
      if x !in prior && x !in added {
        forall k | 0 <= k < j
          ensures !Contributes(edges, owner, tri[k], x)
        {
          if k == j - 1 {
          }
        }
      }
    }
  }

  /** Triangle `t`'s list holds `x` exactly when some edge of `t` has
      another edge on both its endpoints whose owner slot is `x`; the edge
      itself never contributes. */
  lemma NeighborMembers(edges: seq<Edge>, triangles: seq<seq<nat>>, t: nat, x: Option<nat>)
    requires EdgeIndicesInRange(|edges|, triangles) && t < |triangles|
    ensures x in Neighbors(edges, triangles, t) <==>
            exists k :: 0 <= k < |triangles[t]| && Contributes(edges, Owners(|edges|, triangles), triangles[t][k], x)
  {
    NeighborsAfterMembers(edges, Owners(|edges|, triangles), triangles[t], |triangles[t]|, x);
  }

  /** When no two distinct edges share a vertex pair, every neighbour list
      is empty. */
  lemma NoSharedPairsNoNeighbors(edges: seq<Edge>, triangles: seq<seq<nat>>, t: nat)
    requires EdgeIndicesInRange(|edges|, triangles) && t < |triangles|
    requires forall e, f :: 0 <= e < |edges| && 0 <= f < |edges| && e != f ==> !SharesEndpoints(edges[e], edges[f])
    ensures Neighbors(edges, triangles, t) == []
  {
    var ns := Neighbors(edges, triangles, t);
    if ns != [] {
      NeighborMembers(edges, triangles, t, ns[0]);
      assert false;
    }
  }

  /** Each edge `e` has exactly one twin: another edge on the same two
      (distinct) vertices, as in a half-edge list. */
  predicate TwinnedEdges(edges: seq<Edge>, twin: seq<nat>) {
    && |twin| == |edges|
    && forall e :: 0 <= e < |edges| ==>
         && edges[e].0 != edges[e].1
         && twin[e] < |edges| && twin[e] != e
         && SharesEndpoints(edges[e], edges[twin[e]])
         && forall f :: 0 <= f < |edges| && f != e && SharesEndpoints(edges[e], edges[f]) ==> f == twin[e]
  }

  /** Some triangle lists edge `e`. */
  predicate Listed(triangles: seq<seq<nat>>, e: nat) {
    exists t :: 0 <= t < |triangles| && e in triangles[t]
  }

  /** Every edge is listed by exactly one triangle. */
  predicate ListedOnce(edgeCount: nat, triangles: seq<seq<nat>>) {
    && (forall e: nat :: e < edgeCount ==> Listed(triangles, e))
    && (forall t, u, e :: 0 <= t < |triangles| && 0 <= u < |triangles| && e in triangles[t] && e in triangles[u] ==> t == u)
  }

  lemma {:induction false} TwinSharingAfter(edges: seq<Edge>, twin: seq<nat>, n: nat, e: nat)
    requires TwinnedEdges(edges, twin) && n <= |edges| && e < |edges|
    ensures SharingAfter(edges, n, e) == if twin[e] < n then [twin[e]] else []
  {
    if n > 0 {
      TwinSharingAfter(edges, twin, n - 1, e);
      assert (n - 1 != e && SharesEndpoints(edges[e], edges[n - 1])) == (n - 1 == twin[e]);
    }
  }

  /** A twinned edge shares its endpoints with its twin and nothing else. */
  lemma TwinSharing(edges: seq<Edge>, twin: seq<nat>, e: nat)
    requires TwinnedEdges(edges, twin) && e < |edges|
    ensures Sharing(edges, e) == [twin[e]]
  {
    TwinSharingAfter(edges, twin, |edges|, e);
  }

  /** The owner slot of a listed-once edge is the triangle listing it. */
  lemma OwnerOfListedOnce(triangles: seq<seq<nat>>, edgeCount: nat, e: nat, t: nat)
    requires ListedOnce(edgeCount, triangles) && e < edgeCount
    requires t < |triangles| && e in triangles[t]
    ensures Owner(triangles, e) == Some(t)
  {
    var o := OwnerAfter(triangles, |triangles|, e);
    if o.Some? {
      assert e in triangles[o.value];
      assert o.value == t;
    }
  }

  lemma OwnerOfListed(triangles: seq<seq<nat>>, edgeCount: nat, e: nat)
    requires ListedOnce(edgeCount, triangles) && e < edgeCount
    ensures Owner(triangles, e).Some?
  {
    assert Listed(triangles, e);
  }

  /** When every edge of `tri` shares its vertex pair only with its twin,
      the list holds one entry per edge slot: the owner slot of that edge's
      twin. */
  lemma {:induction false} TwinnedNeighborsAfter(edges: seq<Edge>, owner: seq<Option<nat>>, twin: seq<nat>, tri: seq<nat>, j: nat)
    requires |owner| == |edges| == |twin| && j <= |tri|
    requires forall k :: 0 <= k < |tri| ==> tri[k] < |edges| && twin[tri[k]] < |edges| && Sharing(edges, tri[k]) == [twin[tri[k]]]
    ensures var ns := NeighborsAfter(edges, owner, tri, j);
            |ns| == j && forall k :: 0 <= k < j ==> ns[k] == owner[twin[tri[k]]]
  {
    if j > 0 {
      TwinnedNeighborsAfter(edges, owner, twin, tri, j - 1);
      var e := tri[j - 1];
      assert Contribution(edges, owner, e) == OwnersOf(owner, [twin[e]]);
    }
  }

  /** With half-edge twins each listed by exactly one triangle, a triangle
      gets exactly one neighbour per edge slot: the triangle that lists the
      twin of that edge. */
  lemma TwinnedNeighbors(edges: seq<Edge>, triangles: seq<seq<nat>>, twin: seq<nat>, t: nat)
    requires EdgeIndicesInRange(|edges|, triangles) && t < |triangles|
    requires TwinnedEdges(edges, twin) && ListedOnce(|edges|, triangles)
    ensures var ns := Neighbors(edges, triangles, t);
            |ns| == |triangles[t]| &&
            forall k :: 0 <= k < |ns| ==> ns[k].Some? && ns[k].value < |triangles| && twin[triangles[t][k]] in triangles[ns[k].value]
  {
    var tri, owner := triangles[t], Owners(|edges|, triangles);
    forall k | 0 <= k < |tri|
      ensures twin[tri[k]] < |edges| && Sharing(edges, tri[k]) == [twin[tri[k]]]
      ensures owner[twin[tri[k]]].Some? && owner[twin[tri[k]]].value < |triangles|
      ensures twin[tri[k]] in triangles[owner[twin[tri[k]]].value]
    {
      TwinSharing(edges, twin, tri[k]);
      OwnerOfListed(triangles, |edges|, twin[tri[k]]);
    }
    TwinnedNeighborsAfter(edges, owner, twin, tri, |tri|);
  }

  /** Under the same hypotheses the neighbour relation is symmetric. */
  lemma TwinnedNeighborsSymmetric(edges: seq<Edge>, triangles: seq<seq<nat>>, twin: seq<nat>, t: nat, u: nat)
    requires EdgeIndicesInRange(|edges|, triangles) && t < |triangles| && u < |triangles|
    requires TwinnedEdges(edges, twin) && ListedOnce(|edges|, triangles)
    requires Some(u) in Neighbors(edges, triangles, t)
    ensures Some(t) in Neighbors(edges, triangles, u)
  {
    var ns := Neighbors(edges, triangles, t);
    TwinnedNeighbors(edges, triangles, twin, t);
    var k :| 0 <= k < |ns| && ns[k] == Some(u);
    var e := triangles[t][k];
    var f := twin[e];
    assert f in triangles[u];
    assert SharesEndpoints(edges[f], edges[e]);
    assert twin[f] == e;
    var k' :| 0 <= k' < |triangles[u]| && triangles[u][k'] == f;
    var ms := Neighbors(edges, triangles, u);
    TwinnedNeighbors(edges, triangles, twin, u);
    assert e in triangles[ms[k'].value];
    assert e in triangles[t];
    assert ms[k'] == Some(t);
  }
}
