/** `generatePlanetMesh`: colours the planet cells at random, passes the
    colours down through the optional biome, area and walking levels, builds
    and shades a height map over the area cells, and draws the finest level
    supplied as a fan mesh. */
module PlanetMesh {
  import opened Wrappers
  import opened Geometry
  import opened FanMesh
  import opened ColorInheritance
  import opened HeightRelaxation

  /** What the builder asks of code outside it. */
  datatype Oracles = Oracles(
    random: nat -> real,              // the n-th draw of the game's seeded generator
    contains: (Cell, Vec3) -> bool,   // whether a cell contains a point
    distance: (Vec3, Vec3) -> real,   // the angular distance of two points
    neighbors: nat -> seq<nat>)       // the area cells the spatial query finds near area cell x

  /** Reading a property of `undefined`, named by what was undefined. */
  datatype PlanetError =
    | MissingBiomeCells  // area or walking cells given without biome cells
    | MissingAreaCells   // walking cells given without area cells
    | NoCoarseColor      // a non-empty level inherits from an empty one

  /** The mesh buffers, and for the area and walking levels the
      `[area index, colour]` and `[area index, height]` lists. */
  datatype PlanetGeometry = PlanetGeometry(mesh: MeshData, colorData: Option<seq<(nat, Rgb)>>, heightMapData: Option<seq<(nat, int)>>)

  // ---------------------------------------------------------------------
  // Shading and jitter

  /** The colour of an area cell shaded by its height: land loses 0.132 of
      green per level, water gains 0.066 of red and green per level above
      -3. */
  function Shade(c: Rgb, height: int): Rgb {
    if height >= 0 then Rgb(c.r, c.g - (height as real) / 5.0 * 0.66, c.b)
    else Rgb(c.r + (3.0 + height as real) / 10.0 * 0.66, c.g + (3.0 + height as real) / 10.0 * 0.66, c.b)
  }

  predicate GreenDominant(c: Rgb) { c.g > c.r && c.g > c.b }
  predicate BlueDominant(c: Rgb) { c.b > c.r && c.b > c.g }

  /** Within the heights the relaxation produces, shading keeps land green
      and water blue. */
  lemma ShadingKeepsHue(c: Rgb, height: int)
    requires c == Land || c == Water
    requires -3 <= height <= 5
    requires c == Water ==> height < 0
    ensures c == Land ==> GreenDominant(Shade(c, height))
    ensures c == Water ==> BlueDominant(Shade(c, height))
  {
  }

  /** Each channel scaled by its own draw: `channel * (draw * 0.1 + 0.9)`,
      red first. */
  function Jitter(c: Rgb, random: nat -> real, first: nat): Rgb {
    Rgb(c.r * (random(first) * 0.1 + 0.9), c.g * (random(first + 1) * 0.1 + 0.9), c.b * (random(first + 2) * 0.1 + 0.9))
  }

  /** With draws in [0, 1), a non-negative channel keeps between 90% and
      100% of its value. */
  lemma JitterBounds(c: Rgb, random: nat -> real, first: nat)
    requires 0.0 <= c.r && 0.0 <= c.g && 0.0 <= c.b
    requires forall n :: first <= n < first + 3 ==> 0.0 <= random(n) < 1.0
    ensures var j := Jitter(c, random, first);
            && 0.9 * c.r <= j.r <= c.r
            && 0.9 * c.g <= j.g <= c.g
            && 0.9 * c.b <= j.b <= c.b
  {
    var j := Jitter(c, random, first);
    var dr, dg, db := random(first), random(first + 1), random(first + 2);
    assert j.r == c.r * 0.9 + c.r * (dr * 0.1);
    assert j.g == c.g * 0.9 + c.g * (dg * 0.1);
    assert j.b == c.b * 0.9 + c.b * (db * 0.1);
    assert 0.0 <= c.r * dr <= c.r;
    assert 0.0 <= c.g * dg <= c.g;
    assert 0.0 <= c.b * db <= c.b;
  }

  /** The area colours shaded by the relaxed heights. */
  function ShadeAll(cs: seq<Colored>, heights: seq<int>): (r: seq<Colored>)
    requires |heights| == |cs|
    ensures |r| == |cs|
    ensures forall i :: 0 <= i < |cs| ==> r[i].cell == cs[i].cell && r[i].color == Shade(cs[i].color, heights[i])
  {
    seq(|cs|, i requires 0 <= i < |cs| => Colored(cs[i].cell, Shade(cs[i].color, heights[i])))
  }

  /** The walking colours: inherited from the shaded area colours, then
      jittered with three draws per cell after the `offset` draws already
      used. */
  function WalkingColors(shaded: seq<Colored>, walking: seq<Cell>, o: Oracles, offset: nat): (r: Result<seq<Colored>, InheritError>)
    ensures r.Err? <==> shaded == [] && walking != []
    ensures r.Ok? ==> |r.value| == |walking|
    ensures r.Ok? ==> forall i :: 0 <= i < |walking| ==>
              && r.value[i].cell == walking[i]
              && var source := InheritedFrom(shaded, walking[i].centroid, o.contains, o.distance);
                 source.Some? && r.value[i].color == Jitter(shaded[source.value].color, o.random, offset + 3 * i)
  {
    match InheritColors(shaded, walking, o.contains, o.distance)
    case Err(e) => Err(e)
    case Ok(inherited) =>
      Ok(seq(|walking|, i requires 0 <= i < |walking| => Colored(walking[i], Jitter(inherited[i].color, o.random, offset + 3 * i))))
  }

  /** `[index, height]` per area cell, in map order, which is area order. */
  function HeightEntries(heights: seq<int>): (r: seq<(nat, int)>)
    ensures |r| == |heights|
    ensures forall i :: 0 <= i < |heights| ==> r[i].0 == i && r[i].1 == heights[i]
  {
    seq(|heights|, i requires 0 <= i < |heights| => (i as nat, heights[i]))
  }

  /** `[index, colour]` per area cell, in area order. */
  function ColorEntries(cs: seq<Colored>): (r: seq<(nat, Rgb)>)
    ensures |r| == |cs|
    ensures forall i :: 0 <= i < |cs| ==> r[i].0 == i && r[i].1 == cs[i].color
  {
    seq(|cs|, i requires 0 <= i < |cs| => (i as nat, cs[i].color))
  }

  // ---------------------------------------------------------------------
  // The builder

  /** The area stage shared by the third and fourth branches: inherit,
      seed, relax and shade. */
  function AreaStage(colors2: seq<Colored>, area: seq<Cell>, o: Oracles): (r: Result<(seq<Colored>, seq<int>), PlanetError>)
    ensures r.Err? <==> colors2 == [] && area != []
    ensures r.Ok? ==> |r.value.0| == |r.value.1| == |area|
  {
    match InheritColors(colors2, area, o.contains, o.distance)
    case Err(_) => Err(NoCoarseColor)
    case Ok(colors3) =>
      var heights := Relaxed(Seed(Palette(colors3)), o.neighbors, Passes);
      Ok((ShadeAll(colors3, heights), heights))
  }

  /** What the builder returns, or the error it stops with, for the planet
      cells and the optional finer levels (`None` is `undefined`; an empty
      list is supplied). */
  function Planet(planet: seq<Cell>, biome: Option<seq<Cell>>, area: Option<seq<Cell>>, walking: Option<seq<Cell>>, o: Oracles): Result<PlanetGeometry, PlanetError> {
    var colors := PlanetColors(planet, o.random);
    if biome.None? && area.None? && walking.None? then
      Ok(PlanetGeometry(MeshOf(planet, colors, |planet|), None, None))
    else if area.None? && walking.None? then
      match InheritColors(colors, biome.value, o.contains, o.distance)
      case Err(_) => Err(NoCoarseColor)
      case Ok(colors2) => Ok(PlanetGeometry(MeshOf(biome.value, colors2, |biome.value|), None, None))
    else if biome.None? then
      Err(MissingBiomeCells)
    else
      match InheritColors(colors, biome.value, o.contains, o.distance)
      case Err(_) => Err(NoCoarseColor)
      case Ok(colors2) =>
        if area.None? then Err(MissingAreaCells)
        else
          match AreaStage(colors2, area.value, o)
          case Err(e) => Err(e)
          case Ok((shaded, heights)) =>
            var colorData, heightMapData := Some(ColorEntries(shaded)), Some(HeightEntries(heights));
            if walking.None? then
              Ok(PlanetGeometry(MeshOf(area.value, shaded, |area.value|), colorData, heightMapData))
            else
              match WalkingColors(shaded, walking.value, o, |planet|)
              case Err(_) => Err(NoCoarseColor)
              case Ok(colors4) => Ok(PlanetGeometry(MeshOf(walking.value, colors4, |walking.value|), colorData, heightMapData))
  }

  /** `generatePlanetMesh`, with the mesh built and the heights relaxed by
      their loops. */
  method GeneratePlanetMesh(planet: seq<Cell>, biome: Option<seq<Cell>>, area: Option<seq<Cell>>, walking: Option<seq<Cell>>, o: Oracles)
    returns (r: Result<PlanetGeometry, PlanetError>)
    ensures r == Planet(planet, biome, area, walking, o)
  {
    var colors := PlanetColors(planet, o.random);
    if biome.None? && area.None? && walking.None? {
      var mesh := GenerateMesh(planet, colors);
      return Ok(PlanetGeometry(mesh, None, None));
    }
    if biome.None? {
      return Err(MissingBiomeCells);
    }
    var inherited := InheritColors(colors, biome.value, o.contains, o.distance);
    if inherited.Err? {
      return Err(NoCoarseColor);
    }
    var colors2 := inherited.value;
    if area.None? && walking.None? {
      var mesh := GenerateMesh(biome.value, colors2);
      return Ok(PlanetGeometry(mesh, None, None));
    }
    if area.None? {
      return Err(MissingAreaCells);
    }
    var inheritedArea := InheritColors(colors2, area.value, o.contains, o.distance);
    if inheritedArea.Err? {
      return Err(NoCoarseColor);
    }
    var colors3 := inheritedArea.value;
    var heights := RelaxHeights(Seed(Palette(colors3)), o.neighbors);
    var shaded := ShadeAll(colors3, heights);
    var colorData, heightMapData := Some(ColorEntries(shaded)), Some(HeightEntries(heights));
    if walking.None? {
      var mesh := GenerateMesh(area.value, shaded);
      return Ok(PlanetGeometry(mesh, colorData, heightMapData));
    }
    var jittered := WalkingColors(shaded, walking.value, o, |planet|);
    if jittered.Err? {
      return Err(NoCoarseColor);
    }
    var mesh := GenerateMesh(walking.value, jittered.value);
    r := Ok(PlanetGeometry(mesh, colorData, heightMapData));
  }

  // ---------------------------------------------------------------------
  // What the builder promises

  /** A level can inherit from the one above it: the coarser level has a
      cell, or the finer one has none. */
  predicate Feeds(coarse: seq<Cell>, fine: seq<Cell>) { coarse != [] || fine == [] }

  /** The builder succeeds exactly when every level it reads is supplied and
      each non-empty level has a non-empty level above it. */
  lemma PlanetSucceeds(planet: seq<Cell>, biome: Option<seq<Cell>>, area: Option<seq<Cell>>, walking: Option<seq<Cell>>, o: Oracles)
    ensures Planet(planet, biome, area, walking, o).Ok? <==>
              && (area.Some? || walking.Some? ==> biome.Some?)
              && (walking.Some? ==> area.Some?)
              && (biome.Some? ==> Feeds(planet, biome.value))
              && (biome.Some? && area.Some? ==> Feeds(biome.value, area.value))
              && (area.Some? && walking.Some? ==> Feeds(area.value, walking.value))
  {
    if biome.Some? && area.Some? {
      var colors := PlanetColors(planet, o.random);
      var inherited := InheritColors(colors, biome.value, o.contains, o.distance);
      if inherited.Ok? {
        var stage := AreaStage(inherited.value, area.value, o);
        assert stage.Ok? <==> Feeds(biome.value, area.value);
      }
    }
  }

  /** Which error the builder stops with: the first level it reads that is
      undefined. */
  lemma PlanetErrors(planet: seq<Cell>, biome: Option<seq<Cell>>, area: Option<seq<Cell>>, walking: Option<seq<Cell>>, o: Oracles)
    ensures Planet(planet, biome, area, walking, o) == Err(MissingBiomeCells) <==> (area.Some? || walking.Some?) && biome.None?
    ensures Planet(planet, biome, area, walking, o) == Err(MissingAreaCells) <==>
              walking.Some? && area.None? && biome.Some? && Feeds(planet, biome.value)
  {
  }

  /** The level that is drawn: the finest one supplied. */
  function Finest(planet: seq<Cell>, biome: Option<seq<Cell>>, area: Option<seq<Cell>>, walking: Option<seq<Cell>>): seq<Cell> {
    if walking.Some? then walking.value
    else if area.Some? then area.value
    else if biome.Some? then biome.value
    else planet
  }

  /** The mesh draws every cell of the finest level: one mesh vertex per
      centroid and per boundary vertex, and one triangle per boundary
      vertex. */
  lemma PlanetMeshSizes(planet: seq<Cell>, biome: Option<seq<Cell>>, area: Option<seq<Cell>>, walking: Option<seq<Cell>>, o: Oracles)
    requires Planet(planet, biome, area, walking, o).Ok?
    ensures var mesh, cells := Planet(planet, biome, area, walking, o).value.mesh, Finest(planet, biome, area, walking);
            && |mesh.position| == |mesh.color| == |mesh.normal| == 3 * (|cells| + VertexCount(cells))
            && |mesh.index| == 3 * VertexCount(cells)
  {
    var cells := Finest(planet, biome, area, walking);
    var colors := PlanetColors(planet, o.random);
    assert cells[..|cells|] == cells;
    if biome.None? && area.None? && walking.None? {
      MeshSizes(cells, colors, |cells|);
    } else {
      var colors2 := InheritColors(colors, biome.value, o.contains, o.distance).value;
      if area.None? {
        MeshSizes(cells, colors2, |cells|);
      } else {
        var shaded := AreaStage(colors2, area.value, o).value.0;
        if walking.None? {
          MeshSizes(cells, shaded, |cells|);
        } else {
          MeshSizes(cells, WalkingColors(shaded, walking.value, o, |planet|).value, |cells|);
        }
      }
    }
  }

  /** The colour and height lists exist exactly when area cells are
      supplied. */
  lemma PlanetDataOnlyWithArea(planet: seq<Cell>, biome: Option<seq<Cell>>, area: Option<seq<Cell>>, walking: Option<seq<Cell>>, o: Oracles)
    requires Planet(planet, biome, area, walking, o).Ok?
    ensures var g := Planet(planet, biome, area, walking, o).value;
            && (g.colorData.Some? <==> area.Some?)
            && (g.heightMapData.Some? <==> area.Some?)
  {
  }

  /** The area stage's shaded colours: every area cell keeps its inherited
      land or water hue, heights lie in [-3, 5], and a cell at or above sea
      level is land. */
  lemma AreaStageHues(colors2: seq<Colored>, area: seq<Cell>, o: Oracles)
    requires LandOrWater(colors2)
    requires AreaStage(colors2, area, o).Ok?
    ensures var (shaded, heights) := AreaStage(colors2, area, o).value;
            forall i :: 0 <= i < |area| ==>
              && -3 <= heights[i] <= 5
              && (GreenDominant(shaded[i].color) || BlueDominant(shaded[i].color))
              && (heights[i] >= 0 ==> GreenDominant(shaded[i].color))
  {
    var colors3 := InheritColors(colors2, area, o.contains, o.distance).value;
    InheritKeepsLandOrWater(colors2, area, o.contains, o.distance);
    var seed := Seed(Palette(colors3));
    var heights := Relaxed(seed, o.neighbors, Passes);
    SeededBounds(Palette(colors3), o.neighbors);
    var shaded := ShadeAll(colors3, heights);
    assert AreaStage(colors2, area, o).value == (shaded, heights);
    forall i | 0 <= i < |area|
      ensures -3 <= heights[i] <= 5
      ensures GreenDominant(shaded[i].color) || BlueDominant(shaded[i].color)
      ensures heights[i] >= 0 ==> GreenDominant(shaded[i].color)
    {
      var c := colors3[i].color;
      assert c in Palette(colors3);
      assert Palette(colors3)[i] == c;
      if c == Water {
        WaterStaysWater(seed, o.neighbors, Passes, i);
      }
      ShadingKeepsHue(c, heights[i]);
      assert shaded[i].color == Shade(c, heights[i]);
    }
  }

  /** With area cells, both lists name each area cell once, in order; the
      heights lie in [-3, 5]; each shaded colour is still green (land) or
      blue (water); and a cell at or above sea level is shaded as land. */
  lemma PlanetAreaData(planet: seq<Cell>, biome: Option<seq<Cell>>, area: Option<seq<Cell>>, walking: Option<seq<Cell>>, o: Oracles)
    requires biome.Some? && area.Some? && Feeds(planet, biome.value) && Feeds(biome.value, area.value)
    requires walking.Some? ==> Feeds(area.value, walking.value)
    ensures Planet(planet, biome, area, walking, o).Ok?
    ensures var g := Planet(planet, biome, area, walking, o).value;
            && g.colorData.Some? && g.heightMapData.Some?
            && |g.colorData.value| == |g.heightMapData.value| == |area.value|
            && forall i :: 0 <= i < |area.value| ==>
                 && g.colorData.value[i].0 == i && g.heightMapData.value[i].0 == i
                 && -3 <= g.heightMapData.value[i].1 <= 5
                 && (GreenDominant(g.colorData.value[i].1) || BlueDominant(g.colorData.value[i].1))
                 && (g.heightMapData.value[i].1 >= 0 ==> GreenDominant(g.colorData.value[i].1))
  {
    PlanetSucceeds(planet, biome, area, walking, o);
    var colors := PlanetColors(planet, o.random);
    var colors2 := InheritColors(colors, biome.value, o.contains, o.distance).value;
    PlanetColorsLandOrWater(planet, o.random);
    InheritKeepsLandOrWater(colors, biome.value, o.contains, o.distance);
    AreaStageHues(colors2, area.value, o);
  }
}
