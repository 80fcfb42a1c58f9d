/** Coarse-to-fine colour inheritance: a fine cell takes the colour of the
    first coarse cell containing its centroid, or else of the head of the
    coarse cells stably sorted by angular distance to its centroid. The
    point-in-cell test and the angular distance are oracles. */
module ColorInheritance {
  import opened Wrappers
  import opened Geometry

  /** Green for land, blue for water, chosen by one random draw per
      planet cell. */
  const Land := Rgb(0.33, 1.0, 0.33)
  const Water := Rgb(0.33, 0.33, 1.0)

  /** The planet cells' colours: a draw above 0.33 makes the cell water. */
  function PlanetColors(cells: seq<Cell>, random: nat -> real): (r: seq<Colored>)
    ensures |r| == |cells|
    ensures forall i :: 0 <= i < |r| ==> r[i].cell == cells[i]
    ensures forall i :: 0 <= i < |r| ==> (r[i].color == Water <==> random(i) > 0.33)
    ensures forall i :: 0 <= i < |r| ==> (r[i].color == Land <==> random(i) <= 0.33)
  {
    seq(|cells|, i requires 0 <= i < |cells| => Colored(cells[i], if random(i) > 0.33 then Water else Land))
  }

  // ---------------------------------------------------------------------
  // The first coarse cell containing the point

  function FindFrom(coarse: seq<Colored>, p: Vec3, contains: (Cell, Vec3) -> bool, i: nat): (r: Option<nat>)
    requires i <= |coarse|
    ensures r.Some? ==> i <= r.value < |coarse| && contains(coarse[r.value].cell, p)
    ensures r.Some? ==> forall j :: i <= j < r.value ==> !contains(coarse[j].cell, p)
    ensures r.None? <==> forall j :: i <= j < |coarse| ==> !contains(coarse[j].cell, p)
    decreases |coarse| - i
  {
    if i == |coarse| then None
    else if contains(coarse[i].cell, p) then Some(i)
    else FindFrom(coarse, p, contains, i + 1)
  }

  /** The first coarse cell, in list order, that contains `p`. */
  function FirstContaining(coarse: seq<Colored>, p: Vec3, contains: (Cell, Vec3) -> bool): Option<nat> {
    FindFrom(coarse, p, contains, 0)
  }

  // ---------------------------------------------------------------------
  // The head of the coarse cells stably sorted by distance to the point

  /** Each coarse index paired with its distance, in list order. */
  function Keyed(coarse: seq<Colored>, p: Vec3, distance: (Vec3, Vec3) -> real): (r: seq<(nat, real)>)
    ensures |r| == |coarse|
    ensures forall i :: 0 <= i < |r| ==> r[i] == (i, distance(coarse[i].cell.centroid, p))
  {
    seq(|coarse|, i requires 0 <= i < |coarse| => (i as nat, distance(coarse[i].cell.centroid, p)))
  }

  /** Inserts `x` after every entry whose key is not larger, which keeps
      entries with equal keys in their original order. */
  function Insert(sorted: seq<(nat, real)>, x: (nat, real)): seq<(nat, real)> {
    if sorted == [] then [x]
    else if x.1 < sorted[0].1 then [x] + sorted
    else [sorted[0]] + Insert(sorted[1..], x)
  }

  /** A stable sort by distance, ascending: equal distances keep their
      list order, as the JavaScript array sort guarantees. */
  function SortByDistance(pairs: seq<(nat, real)>): seq<(nat, real)> {
    if pairs == [] then []
    else Insert(SortByDistance(pairs[..|pairs| - 1]), pairs[|pairs| - 1])
  }

  /** The first index holding the least key. */
  function FirstLeast(pairs: seq<(nat, real)>): (r: nat)
    requires pairs != []
    ensures r < |pairs|
    ensures forall j :: 0 <= j < |pairs| ==> pairs[r].1 <= pairs[j].1
    ensures forall j :: 0 <= j < r ==> pairs[j].1 > pairs[r].1
  {
    if |pairs| == 1 then 0
    else
      var m := FirstLeast(pairs[..|pairs| - 1]);
      if pairs[|pairs| - 1].1 < pairs[m].1 then |pairs| - 1 else m
  }

  lemma InsertHead(sorted: seq<(nat, real)>, x: (nat, real))
    ensures Insert(sorted, x) != []
    ensures Insert(sorted, x)[0] == if sorted == [] || x.1 < sorted[0].1 then x else sorted[0]
  {
  }

  /** The head of the stably sorted list is the first entry with the least
      key. */
  lemma {:induction false} SortHead(pairs: seq<(nat, real)>)
    requires pairs != []
    ensures SortByDistance(pairs) != []
    ensures SortByDistance(pairs)[0] == pairs[FirstLeast(pairs)]
  {
    var prefix, x := pairs[..|pairs| - 1], pairs[|pairs| - 1];
    if prefix == [] {
      InsertHead([], x);
    } else {
      SortHead(prefix);
      InsertHead(SortByDistance(prefix), x);
    }
  }

  /** The coarse cell of least distance to `p`, ties going to the earliest:
      the head of the sorted list. */
  function Nearest(coarse: seq<Colored>, p: Vec3, distance: (Vec3, Vec3) -> real): (r: nat)
    requires coarse != []
    ensures r < |coarse|
    ensures forall j :: 0 <= j < |coarse| ==> distance(coarse[r].cell.centroid, p) <= distance(coarse[j].cell.centroid, p)
    ensures forall j :: 0 <= j < r ==> distance(coarse[j].cell.centroid, p) > distance(coarse[r].cell.centroid, p)
  {
    var keyed := Keyed(coarse, p, distance);
    SortHead(keyed);
    SortByDistance(keyed)[0].0
  }

  // ---------------------------------------------------------------------
  // One fine cell, then the whole `map`

  /** The coarse cell a point inherits from: the first containing one, else
      the nearest; none only when there are no coarse cells, where the
      source reads a property of `undefined`. */
  function InheritedFrom(coarse: seq<Colored>, p: Vec3, contains: (Cell, Vec3) -> bool, distance: (Vec3, Vec3) -> real): (r: Option<nat>)
    ensures r.None? <==> coarse == []
    ensures r.Some? ==> r.value < |coarse|
    ensures (exists j :: 0 <= j < |coarse| && contains(coarse[j].cell, p)) ==> r == FirstContaining(coarse, p, contains)
    ensures (forall j :: 0 <= j < |coarse| ==> !contains(coarse[j].cell, p)) && coarse != [] ==> r == Some(Nearest(coarse, p, distance))
  {
    match FirstContaining(coarse, p, contains)
    case Some(i) => Some(i)
    case None => if coarse == [] then None else Some(Nearest(coarse, p, distance))
  }

  datatype InheritError = NoCoarseCell  // the TypeError of indexing `undefined`

  /** Each fine cell, in order, paired with the colour it inherits from `coarse`. */
  function InheritColors(coarse: seq<Colored>, fine: seq<Cell>, contains: (Cell, Vec3) -> bool, distance: (Vec3, Vec3) -> real): (r: Result<seq<Colored>, InheritError>)
    ensures r.Err? <==> coarse == [] && fine != []
    ensures r.Ok? ==> |r.value| == |fine|
    ensures r.Ok? ==> forall i :: 0 <= i < |fine| ==>
              && r.value[i].cell == fine[i]
              && var source := InheritedFrom(coarse, fine[i].centroid, contains, distance);
                 source.Some? && r.value[i].color == coarse[source.value].color
  {
    if coarse == [] && fine != [] then Err(NoCoarseCell)
    else
      Ok(seq(|fine|, i requires 0 <= i < |fine| =>
        Colored(fine[i], coarse[InheritedFrom(coarse, fine[i].centroid, contains, distance).value].color)))
  }

  /** The colours of a list of coloured cells, in order. */
  function Palette(cs: seq<Colored>): (p: seq<Rgb>)
    ensures |p| == |cs| && forall j :: 0 <= j < |cs| ==> p[j] == cs[j].color
  {
    seq(|cs|, j requires 0 <= j < |cs| => cs[j].color)
  }

  /** Inheritance only copies colours: every inherited colour is some coarse
      cell's colour. */
  lemma InheritedColorsComeFromCoarse(coarse: seq<Colored>, fine: seq<Cell>, contains: (Cell, Vec3) -> bool, distance: (Vec3, Vec3) -> real)
    requires InheritColors(coarse, fine, contains, distance).Ok?
    ensures forall c :: c in Palette(InheritColors(coarse, fine, contains, distance).value) ==> c in Palette(coarse)
  {
    var r := InheritColors(coarse, fine, contains, distance).value;
    forall c | c in Palette(r)
      ensures c in Palette(coarse)
    {
      var i :| 0 <= i < |r| && Palette(r)[i] == c;
      var j := InheritedFrom(coarse, fine[i].centroid, contains, distance).value;
      assert Palette(coarse)[j] == c;
    }
  }

  /** Every colour of the planet cells is land or water, and inheritance
      keeps it so at every level below. */
  predicate LandOrWater(cs: seq<Colored>) {
    forall c :: c in Palette(cs) ==> c == Land || c == Water
  }

  lemma PlanetColorsLandOrWater(cells: seq<Cell>, random: nat -> real)
    ensures LandOrWater(PlanetColors(cells, random))
  {
  }

  lemma InheritKeepsLandOrWater(coarse: seq<Colored>, fine: seq<Cell>, contains: (Cell, Vec3) -> bool, distance: (Vec3, Vec3) -> real)
    requires LandOrWater(coarse)
    requires InheritColors(coarse, fine, contains, distance).Ok?
    ensures LandOrWater(InheritColors(coarse, fine, contains, distance).value)
  {
    InheritedColorsComeFromCoarse(coarse, fine, contains, distance);
  }
}
