/** The geometric values the mesh code moves around without computing on them. */
module Geometry {
  /** A point or direction on the unit sphere. */
  datatype Vec3 = Vec3(x: real, y: real, z: real)

  /** A colour with red, green and blue channels. */
  datatype Rgb = Rgb(r: real, g: real, b: real)

  /** A Voronoi cell: its centroid and its ordered boundary vertices. */
  datatype Cell = Cell(centroid: Vec3, vertices: seq<Vec3>)

  /** A cell paired with its colour, as the `[VoronoiCell, color]` tuples are. */
  datatype Colored = Colored(cell: Cell, color: Rgb)

  /** The three numbers `push.apply` appends for a point. */
  function Coords(v: Vec3): seq<real> { [v.x, v.y, v.z] }

  /** The three numbers `push.apply` appends for a colour. */
  function Channels(c: Rgb): seq<real> { [c.r, c.g, c.b] }
}
