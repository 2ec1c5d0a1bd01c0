/** The Voronoi library (Delaunay namespace) is foreign code. Its constructor
    receives a site list, one colour per site and plot bounds; this model keeps
    that constructor input as the diagram value and treats every query the
    engine makes of a built diagram as an oracle: a total function of that input,
    since the library builds its diagram deterministically from it. */
module Voronoi {
  import opened Geometry

  /** `new Voronoi(points, colors, plotBounds)`: what the library is built from. */
  datatype Diagram = Diagram(points: seq<Point>, colors: seq<nat>, plotBounds: Rect)

  /** The queries of a built diagram. */
  datatype Library = Library(
    siteCoords: Diagram -> seq<Point>,             // Voronoi.SiteCoords()
    boundary: (Diagram, Point) -> seq<Segment>,    // Voronoi.VoronoiBoundaryForSite(site)
    neighbors: (Diagram, Point) -> seq<Point>,     // Voronoi.NeighborSitesForSite(site)
    siteColors: Diagram -> seq<nat>                // Voronoi.SiteColors()
  )
}

/** Helpers whose source is not part of this model (VectorUtil, RandomUtil),
    passed to the generators as parameters. */
module Helpers {
  import opened Geometry

  /** VectorUtil.SortClockwise; the model relies only on its being a permutation. */
  type Sorter = seq<Point> -> seq<Point>

  ghost predicate IsPermutation(sort: Sorter) {
    forall s :: multiset(sort(s)) == multiset(s)
  }

  /** An integer draw of System.Random.Next(lo, hi) or UnityEngine.Random.Range(lo, hi)
      for lo <= hi: lo when the bounds are equal, otherwise in [lo, hi). */
  predicate InRandomRange(v: int, lo: int, hi: int) {
    if hi == lo then v == lo else lo <= v < hi
  }

  /** VectorUtil.FindOrigin: some point derived from a vertex list (the centroid). */
  type Centroid = seq<Point> -> Point

  /** RandomUtil.RandomElement(items, false, seed) picks an index from the
      item count and the seed; picker(n, seed) % n is that index. */
  type Picker = (nat, string) -> nat

  function RandomElement<T>(items: seq<T>, seed: string, picker: Picker): (r: T)
    requires |items| > 0
    ensures r in items
  {
    items[picker(|items|, seed) % |items|]
  }
}
