/** Height seeding and the five-pass relaxation over the area cells. Cells
    are named by their index in the area list; the neighbour query (a
    spatial index rebuilt each pass and filtered by angular distance) is a
    function from a cell index to the indices it returns. */
module HeightRelaxation {
  import opened Geometry

  /** The number of relaxation passes. */
  const Passes: nat := 5

  /** The initial height map: 0 for a cell whose inherited green channel is
      exactly 1 (land), -1 otherwise (water). */
  function Seed(colors: seq<Rgb>): (h: seq<int>)
    ensures |h| == |colors|
    ensures forall i :: 0 <= i < |h| ==> (h[i] == 0 <==> colors[i].g == 1.0)
    ensures forall i :: 0 <= i < |h| ==> (h[i] == -1 <==> colors[i].g != 1.0)
  {
    seq(|colors|, i requires 0 <= i < |colors| => if colors[i].g == 1.0 then 0 else -1)
  }

  /** `Math.min` over a non-empty argument list. */
  function Min(xs: seq<int>): (m: int)
    requires xs != []
    ensures m in xs
    ensures forall x :: x in xs ==> m <= x
  {
    if |xs| == 1 then xs[0]
    else
      var rest := Min(xs[1..]);
      assert xs == [xs[0]] + xs[1..];
      if xs[0] <= rest then xs[0] else rest
  }

  /** The heights of the neighbours that have one, in query order: a lookup
      outside the map gives `undefined`, which the finiteness filter drops. */
  function Known(h: seq<int>, ids: seq<nat>): seq<int> {
    if ids == [] then []
    else (if ids[0] < |h| then [h[ids[0]]] else []) + Known(h, ids[1..])
  }

  /** The known heights are exactly the heights of the queried cells that
      are in the map. */
  lemma {:induction false} KnownMembers(h: seq<int>, ids: seq<nat>)
    ensures forall k :: 0 <= k < |ids| && ids[k] < |h| ==> h[ids[k]] in Known(h, ids)
    ensures forall y :: y in Known(h, ids) ==> exists k :: 0 <= k < |ids| && ids[k] < |h| && h[ids[k]] == y
  {
    if ids != [] {
      KnownMembers(h, ids[1..]);
      forall y | y in Known(h, ids)
        ensures exists k :: 0 <= k < |ids| && ids[k] < |h| && h[ids[k]] == y
      {
        if y !in Known(h, ids[1..]) {
          assert h[ids[0]] == y;
        } else {
          var k :| 0 <= k < |ids[1..]| && ids[1..][k] < |h| && h[ids[1..][k]] == y;
          assert ids[k + 1] == ids[1..][k];
        }
      }
      forall k | 0 <= k < |ids| && ids[k] < |h|
        ensures h[ids[k]] in Known(h, ids)
      {
        if k > 0 {
          assert ids[1..][k - 1] == ids[k];
        }
      }
    }
  }

  /** How far below sea level a height is. */
  function Depth(y: int): nat {
    if y < 0 then -y else 0
  }

  function Depths(ys: seq<int>): (ds: seq<int>)
    ensures |ds| == |ys| && forall i :: 0 <= i < |ys| ==> ds[i] == Depth(ys[i])
  {
    seq(|ys|, i requires 0 <= i < |ys| => Depth(ys[i]))
  }

  /** The land rule on the known neighbour heights: `Math.min` of them (of
      `[-1]` when there are none) plus one. */
  function LandHeight(known: seq<int>): int {
    Min(if known == [] then [-1] else known) + 1
  }

  /** The water rule: minus one more than `Math.min` of 2 and the
      neighbour depths (of 2 and 0 when there are none). */
  function WaterHeight(known: seq<int>): int {
    -(Min([2] + (if known == [] then [0] else Depths(known))) + 1)
  }

  /** The new height of cell `x` from the previous map `h`. */
  function NewHeight(h: seq<int>, x: nat, ids: seq<nat>): int
    requires x < |h|
  {
    if h[x] >= 0 then LandHeight(Known(h, ids)) else WaterHeight(Known(h, ids))
  }

  lemma LandHeightFacts(known: seq<int>)
    ensures forall y :: y in known ==> LandHeight(known) <= y + 1
    ensures known == [] ==> LandHeight(known) == 0
    ensures known != [] ==> LandHeight(known) - 1 in known
  {
  }

  lemma WaterHeightFacts(known: seq<int>)
    ensures -3 <= WaterHeight(known) <= -1
    ensures forall y :: y in known ==> -WaterHeight(known) - 1 <= Depth(y)
    ensures known == [] ==> WaterHeight(known) == -1
    ensures known != [] ==> WaterHeight(known) == -3 || exists y :: y in known && Depth(y) == -WaterHeight(known) - 1
  {
    if known != [] {
      var depths := [2] + Depths(known);
      var m := Min(depths);
      assert WaterHeight(known) == -(m + 1);
      forall y | y in known
        ensures m <= Depth(y)
      {
        var j :| 0 <= j < |known| && known[j] == y;
        assert depths[j + 1] == Depth(y) && depths[j + 1] in depths;
      }
      if m != 2 {
        var j :| 0 <= j < |depths| && depths[j] == m;
        assert known[j - 1] in known && Depth(known[j - 1]) == m;
      }
    }
  }

  /** A land cell ends one above a neighbour height (or at 0 with none), and
      never more than one above any neighbour. */
  lemma LandRule(h: seq<int>, x: nat, ids: seq<nat>)
    requires x < |h| && h[x] >= 0
    ensures var r := NewHeight(h, x, ids);
            && (forall k :: 0 <= k < |ids| && ids[k] < |h| ==> r <= h[ids[k]] + 1)
            && (Known(h, ids) != [] ==> exists k :: 0 <= k < |ids| && ids[k] < |h| && h[ids[k]] == r - 1)
            && (Known(h, ids) == [] ==> r == 0)
  {
    KnownMembers(h, ids);
    LandHeightFacts(Known(h, ids));
  }

  /** A water cell ends at -1, -2 or -3: one below the smaller of 2 and
      the shallowest neighbour depth. */
  lemma WaterRule(h: seq<int>, x: nat, ids: seq<nat>)
    requires x < |h| && h[x] < 0
    ensures var r := NewHeight(h, x, ids);
            && -3 <= r <= -1
            && (forall k :: 0 <= k < |ids| && ids[k] < |h| ==> -r - 1 <= Depth(h[ids[k]]))
            && (Known(h, ids) == [] ==> r == -1)
            && (Known(h, ids) != [] ==> r == -3 || exists k :: 0 <= k < |ids| && ids[k] < |h| && Depth(h[ids[k]]) == -r - 1)
  {
    KnownMembers(h, ids);
    WaterHeightFacts(Known(h, ids));
  }

  /** A water cell next to any cell at or above sea level becomes -1. */
  lemma WaterBesideLand(h: seq<int>, x: nat, ids: seq<nat>, k: nat)
    requires x < |h| && h[x] < 0
    requires k < |ids| && ids[k] < |h| && h[ids[k]] >= 0
    ensures NewHeight(h, x, ids) == -1
  {
    WaterRule(h, x, ids);
  }

  /** One synchronous pass: every new height is computed from `h`. */
  function Pass(h: seq<int>, neighbors: nat -> seq<nat>): (r: seq<int>)
    ensures |r| == |h|
  {
    seq(|h|, x requires 0 <= x < |h| => NewHeight(h, x, neighbors(x)))
  }

  /** The height map after `k` passes from `seed`. */
  function Relaxed(seed: seq<int>, neighbors: nat -> seq<nat>, k: nat): (r: seq<int>)
    ensures |r| == |seed|
  {
    if k == 0 then seed else Pass(Relaxed(seed, neighbors, k - 1), neighbors)
  }

  predicate Between(h: seq<int>, lo: int, hi: int) {
    forall i :: 0 <= i < |h| ==> lo <= h[i] <= hi
  }

  /** A pass raises the ceiling by at most one and never goes below -3. */
  lemma PassBounds(h: seq<int>, neighbors: nat -> seq<nat>, k: nat)
    requires Between(h, -3, k)
    ensures Between(Pass(h, neighbors), -3, k + 1)
  {
    forall x | 0 <= x < |h|
      ensures -3 <= Pass(h, neighbors)[x] <= k + 1
    {
      if h[x] >= 0 {
        LandRule(h, x, neighbors(x));
      } else {
        WaterRule(h, x, neighbors(x));
      }
    }
  }

  /** After `k` passes from a map in [-3, 0], every height lies in [-3, k]. */
  lemma {:induction false} RelaxedBounds(seed: seq<int>, neighbors: nat -> seq<nat>, k: nat)
    requires Between(seed, -3, 0)
    ensures Between(Relaxed(seed, neighbors, k), -3, k)
  {
    if k > 0 {
      RelaxedBounds(seed, neighbors, k - 1);
      PassBounds(Relaxed(seed, neighbors, k - 1), neighbors, k - 1);
    }
  }

  /** The seeded map relaxed the fixed number of times lies in [-3, 5]. */
  lemma SeededBounds(colors: seq<Rgb>, neighbors: nat -> seq<nat>)
    ensures Between(Relaxed(Seed(colors), neighbors, Passes), -3, 5)
  {
    RelaxedBounds(Seed(colors), neighbors, Passes);
  }

  /** Water never rises: a cell below sea level stays below it. */
  lemma {:induction false} WaterStaysWater(seed: seq<int>, neighbors: nat -> seq<nat>, k: nat, x: nat)
    requires x < |seed| && seed[x] < 0
    ensures Relaxed(seed, neighbors, k)[x] < 0
  {
    if k > 0 {
      WaterStaysWater(seed, neighbors, k - 1, x);
      var h := Relaxed(seed, neighbors, k - 1);
      WaterHeightFacts(Known(h, neighbors(x)));
    }
  }

  /** Every cell's query returns at least one cell of the map. */
  predicate Connected(size: nat, neighbors: nat -> seq<nat>) {
    forall x :: 0 <= x < size ==> exists k :: 0 <= k < |neighbors(x)| && neighbors(x)[k] < size
  }

  /** Every cell of the map is at height `level`. */
  predicate Level(h: seq<int>, level: int) {
    forall i :: 0 <= i < |h| ==> h[i] == level
  }

  /** On a level map, the known heights of a query that reaches the map
      are all that level. */
  lemma KnownOnLevel(h: seq<int>, ids: seq<nat>, level: int, j: nat)
    requires Level(h, level)
    requires j < |ids| && ids[j] < |h|
    ensures Known(h, ids) != []
    ensures forall y :: y in Known(h, ids) ==> y == level
  {
    KnownMembers(h, ids);
  }

  /** The level a level map moves to in one pass: land one higher, water
      one lower down to -3. */
  function NextLevel(level: int): int {
    if level >= 0 then level + 1 else if level == -3 then -3 else level - 1
  }

  /** A pass over a level map, at a cell whose query reaches the map. */
  lemma PassOnLevel(h: seq<int>, neighbors: nat -> seq<nat>, level: int, x: nat, j: nat)
    requires Level(h, level)
    requires x < |h| && -3 <= level
    requires j < |neighbors(x)| && neighbors(x)[j] < |h|
    ensures Pass(h, neighbors)[x] == NextLevel(level)
  {
    var ids := neighbors(x);
    KnownOnLevel(h, ids, level, j);
    LandHeightFacts(Known(h, ids));
    WaterHeightFacts(Known(h, ids));
  }

  /** A pass over a level map whose queries all reach the map is level
      again, one step further. */
  lemma LevelStep(h: seq<int>, neighbors: nat -> seq<nat>, level: int, size: nat)
    requires Level(h, level) && -3 <= level
    requires Connected(size, neighbors) && |h| == size
    ensures Level(Pass(h, neighbors), NextLevel(level))
  {
    forall x | 0 <= x < |h|
      ensures Pass(h, neighbors)[x] == NextLevel(level)
    {
      var j :| 0 <= j < |neighbors(x)| && neighbors(x)[j] < |h|;
      PassOnLevel(h, neighbors, level, x, j);
    }
  }

  /** An all-land map in which every cell has a neighbour climbs one level
      per pass. */
  lemma AllLandClimbs(seed: seq<int>, neighbors: nat -> seq<nat>, k: nat)
    requires Level(seed, 0)
    requires Connected(|seed|, neighbors)
    ensures Level(Relaxed(seed, neighbors, k), k)
  {
    var h, i := seed, 0;
    while i < k
      invariant i <= k && h == Relaxed(seed, neighbors, i) && Level(h, i)
    {
      LevelStep(h, neighbors, i, |seed|);
      h, i := Pass(h, neighbors), i + 1;
    }
  }

  /** An all-water map in which every cell has a neighbour sinks one level
      per pass until it reaches -3. */
  lemma AllWaterSinks(seed: seq<int>, neighbors: nat -> seq<nat>, k: nat)
    requires Level(seed, -1)
    requires Connected(|seed|, neighbors)
    ensures Level(Relaxed(seed, neighbors, k), if k < 2 then -1 - k else -3)
  {
    var h, i := seed, 0;
    while i < k
      invariant i <= k && h == Relaxed(seed, neighbors, i) && Level(h, if i < 2 then -1 - i else -3)
    {
      LevelStep(h, neighbors, if i < 2 then -1 - i else -3, |seed|);
      h, i := Pass(h, neighbors), i + 1;
    }
  }

  // ---------------------------------------------------------------------
  // The `heightMap.set` loop

  /** Writing `(cell, height)` pairs into the map, in order. */
  function ApplyUpdates(h: seq<int>, updates: seq<(nat, int)>): (r: seq<int>)
    requires forall k :: 0 <= k < |updates| ==> updates[k].0 < |h|
    ensures |r| == |h|
  {
    if updates == [] then h
    else
      var last := updates[|updates| - 1];
      ApplyUpdates(h, updates[..|updates| - 1])[last.0 := last.1]
  }

  lemma ApplySnoc(h: seq<int>, updates: seq<(nat, int)>, last: (nat, int))
    requires forall k :: 0 <= k < |updates| ==> updates[k].0 < |h|
    requires last.0 < |h|
    ensures ApplyUpdates(h, updates + [last]) == ApplyUpdates(h, updates)[last.0 := last.1]
  {
    assert (updates + [last])[..|updates|] == updates;
  }

  predicate DistinctCells(updates: seq<(nat, int)>) {
    forall j, k :: 0 <= j < k < |updates| ==> updates[j].0 != updates[k].0
  }

  /** With one update per cell, a cell holds its update's value, and a cell
      without one keeps its old height. */
  lemma {:induction false} UpdatedValue(h: seq<int>, updates: seq<(nat, int)>, x: nat)
    requires forall k :: 0 <= k < |updates| ==> updates[k].0 < |h|
    requires DistinctCells(updates) && x < |h|
    ensures forall k :: 0 <= k < |updates| && updates[k].0 == x ==> ApplyUpdates(h, updates)[x] == updates[k].1
    ensures (forall k :: 0 <= k < |updates| ==> updates[k].0 != x) ==> ApplyUpdates(h, updates)[x] == h[x]
  {
    if updates != [] {
      UpdatedValue(h, updates[..|updates| - 1], x);
    }
  }

  /** Because all new heights are computed before any is written, the order
      of the writes does not matter: any reordering of one-per-cell updates
      gives the same map. */
  lemma UpdateOrderIrrelevant(h: seq<int>, updates: seq<(nat, int)>, reordered: seq<(nat, int)>)
    requires forall k :: 0 <= k < |updates| ==> updates[k].0 < |h|
    requires DistinctCells(updates) && DistinctCells(reordered)
    requires multiset(reordered) == multiset(updates)
    ensures forall k :: 0 <= k < |reordered| ==> reordered[k].0 < |h|
    ensures ApplyUpdates(h, reordered) == ApplyUpdates(h, updates)
  {
    forall p
      ensures p in reordered <==> p in updates
    {
      assert p in reordered <==> p in multiset(reordered);
      assert p in updates <==> p in multiset(updates);
    }
    forall k | 0 <= k < |reordered|
      ensures reordered[k].0 < |h|
    {
      assert reordered[k] in updates;
    }
    forall x | 0 <= x < |h|
      ensures ApplyUpdates(h, reordered)[x] == ApplyUpdates(h, updates)[x]
    {
      UpdatedValue(h, updates, x);
      UpdatedValue(h, reordered, x);
      if k :| 0 <= k < |updates| && updates[k].0 == x {
        assert updates[k] in reordered;
      } else if k :| 0 <= k < |reordered| && reordered[k].0 == x {
        assert reordered[k] in updates;
      }
    }
  }

  /** The list of `[cell, newHeight]` pairs a pass builds, in map order. */
  function PassUpdates(h: seq<int>, neighbors: nat -> seq<nat>): (updates: seq<(nat, int)>)
    ensures |updates| == |h|
    ensures forall k :: 0 <= k < |updates| ==> updates[k].0 == k
  {
    seq(|h|, x requires 0 <= x < |h| => (x as nat, NewHeight(h, x, neighbors(x))))
  }

  /** Writing a pass's pairs back gives exactly the synchronous pass. */
  lemma WritingBackIsPass(h: seq<int>, neighbors: nat -> seq<nat>)
    ensures ApplyUpdates(h, PassUpdates(h, neighbors)) == Pass(h, neighbors)
  {
    var updates := PassUpdates(h, neighbors);
    forall x | 0 <= x < |h|
      ensures ApplyUpdates(h, updates)[x] == Pass(h, neighbors)[x]
    {
      UpdatedValue(h, updates, x);
      assert updates[x] == (x, NewHeight(h, x, neighbors(x)));
    }
  }

  /** The `heightMap.set` loop: writes the pairs back in order. */
  method WriteBack(previous: seq<int>, minHeight: seq<(nat, int)>) returns (heights: seq<int>)
    requires forall k :: 0 <= k < |minHeight| ==> minHeight[k].0 < |previous|
    ensures heights == ApplyUpdates(previous, minHeight)
  {
    heights := previous;
    for k := 0 to |minHeight|
      invariant heights == ApplyUpdates(previous, minHeight[..k])
    {
      assert minHeight[..k + 1] == minHeight[..k] + [minHeight[k]];
      ApplySnoc(previous, minHeight[..k], minHeight[k]);
      heights := heights[minHeight[k].0 := minHeight[k].1];
    }
    assert minHeight[..|minHeight|] == minHeight;
  }

  /** The five passes: build all pairs from the current map, then write
      them back. */
  method RelaxHeights(seed: seq<int>, neighbors: nat -> seq<nat>) returns (heights: seq<int>)
    ensures heights == Relaxed(seed, neighbors, Passes)
  {
    heights := seed;
    for pass := 0 to Passes
      invariant heights == Relaxed(seed, neighbors, pass)
    {
      var minHeight := PassUpdates(heights, neighbors);
      WritingBackIsPass(heights, neighbors);
      heights := WriteBack(heights, minHeight);
    }
  }
}
