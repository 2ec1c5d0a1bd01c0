/** LayoutUtil: list algorithms over a built Voronoi diagram (vertex
    extraction, closest-site search, greedy path routing, square filtering,
    random diagram input and one step of Lloyd relaxation). */
module LayoutUtil {
  import opened Geometry
  import opened Voronoi
  import opened Helpers

  // ---------------------------------------------------------------------------
  // Vertices of a list of line segments

  /** The endpoints of the segments in visiting order: p0 then p1, segment by segment. */
  function Endpoints(segs: seq<Segment>): (ps: seq<Point>)
    ensures |ps| == 2 * |segs|
  {
    if segs == [] then []
    else Endpoints(segs[..|segs| - 1]) + [segs[|segs| - 1].p0, segs[|segs| - 1].p1]
  }

  lemma {:induction false} EndpointsAt(segs: seq<Segment>, k: nat)
    requires k < |segs|
    ensures Endpoints(segs)[2 * k] == segs[k].p0 && Endpoints(segs)[2 * k + 1] == segs[k].p1
  {
    var n := |segs| - 1;
    if k < n {
      EndpointsAt(segs[..n], k);
      assert segs[..n][k] == segs[k];
    }
  }

  lemma EndpointsMembers(segs: seq<Segment>, p: Point)
    ensures p in Endpoints(segs) <==> exists k :: 0 <= k < |segs| && (segs[k].p0 == p || segs[k].p1 == p)
  {
    var e := Endpoints(segs);
    if p in e {
      var m :| 0 <= m < |e| && e[m] == p;
      var k := m / 2;
      EndpointsAt(segs, k);
      assert m == 2 * k || m == 2 * k + 1;
    }
    if exists k :: 0 <= k < |segs| && (segs[k].p0 == p || segs[k].p1 == p) {
      var k :| 0 <= k < |segs| && (segs[k].p0 == p || segs[k].p1 == p);
      EndpointsAt(segs, k);
    }
  }

  /** GetVerticesFromLineSegments: the distinct endpoints of the segments, in
      first-occurrence order. */
  method GetVerticesFromLineSegments(segs: seq<Segment>) returns (vs: seq<Point>)
    ensures vs == Dedup(Endpoints(segs))
    ensures Distinct(vs)
    ensures forall p :: p in vs <==> exists k :: 0 <= k < |segs| && (segs[k].p0 == p || segs[k].p1 == p)
    ensures forall i, j :: 0 <= i < j < |vs| ==> IndexOf(Endpoints(segs), vs[i]) < IndexOf(Endpoints(segs), vs[j])
  {
    vs := [];
    for i := 0 to |segs|
      invariant vs == Dedup(Endpoints(segs[..i]))
    {
      var p0 := segs[i].p0;
      var p1 := segs[i].p1;
      EndpointsStep(segs, i);
      if p0 !in vs {
        vs := vs + [p0];
      }
      if p1 !in vs {
        vs := vs + [p1];
      }
    }
    assert segs[..|segs|] == segs;
    DedupSpec(Endpoints(segs));
    forall p ensures p in vs <==> exists k :: 0 <= k < |segs| && (segs[k].p0 == p || segs[k].p1 == p) {
      EndpointsMembers(segs, p);
    }
  }

  /** One more segment adds its two endpoints, each unless already present. */
  lemma EndpointsStep(segs: seq<Segment>, i: nat)
    requires i < |segs|
    ensures Dedup(Endpoints(segs[..i + 1])) == AddAbsent(AddAbsent(Dedup(Endpoints(segs[..i])), segs[i].p0), segs[i].p1)
  {
    var e := Endpoints(segs[..i]);
    assert segs[..i + 1][..i] == segs[..i];
    assert Endpoints(segs[..i + 1]) == e + [segs[i].p0, segs[i].p1];
    assert (e + [segs[i].p0, segs[i].p1])[..|e| + 1] == e + [segs[i].p0];
    assert (e + [segs[i].p0])[..|e|] == e;
  }

  // ---------------------------------------------------------------------------
  // Cells as vertex loops

  /** GetVerticesForSite: the cell's distinct boundary vertices, sorted clockwise. */
  function CellVertices(lib: Library, d: Diagram, sort: Sorter, site: Point): seq<Point> {
    sort(Dedup(Endpoints(lib.boundary(d, site))))
  }

  /** With a permuting sorter, a cell's vertex loop holds each boundary endpoint exactly once. */
  lemma CellVerticesSpec(lib: Library, d: Diagram, sort: Sorter, site: Point)
    requires IsPermutation(sort)
    ensures Distinct(CellVertices(lib, d, sort, site))
    ensures forall p :: p in CellVertices(lib, d, sort, site) <==> p in Endpoints(lib.boundary(d, site))
  {
    var dd := Dedup(Endpoints(lib.boundary(d, site)));
    DedupSpec(Endpoints(lib.boundary(d, site)));
    PermutationDistinct(dd, sort(dd));
    forall p ensures p in sort(dd) <==> p in dd {
      assert p in sort(dd) <==> p in multiset(sort(dd));
    }
  }

  /** A rearrangement of a duplicate-free sequence is duplicate-free. */
  lemma PermutationDistinct(a: seq<Point>, b: seq<Point>)
    requires Distinct(a) && multiset(a) == multiset(b)
    ensures Distinct(b)
  {
    forall i, j | 0 <= i < j < |b| ensures b[i] != b[j] {
      assert b[i] in multiset(a);
      DistinctCount(a, b[i]);
      TwoOccurrences(b, i, j);
    }
  }

  lemma TwoOccurrences(b: seq<Point>, i: nat, j: nat)
    requires i < j < |b|
    ensures b[i] == b[j] ==> multiset(b)[b[i]] >= 2
  {
    assert b == b[..i] + [b[i]] + b[i + 1..];
    assert b[i + 1..] == b[i + 1..j] + [b[j]] + b[j + 1..];
  }

  lemma DistinctCount(a: seq<Point>, p: Point)
    requires Distinct(a) && p in a
    ensures multiset(a)[p] == 1
  {
    if a[0] == p {
      assert a == [a[0]] + a[1..];
      assert p !in a[1..];
    } else {
      assert a == [a[0]] + a[1..];
      DistinctCount(a[1..], p);
    }
  }

  method GetVerticesForSite(lib: Library, d: Diagram, sort: Sorter, site: Point) returns (vs: seq<Point>)
    ensures vs == CellVertices(lib, d, sort, site)
    ensures IsPermutation(sort) ==> Distinct(vs) && forall p :: p in vs <==> p in Endpoints(lib.boundary(d, site))
  {
    var boundary := lib.boundary(d, site);
    var vertices := GetVerticesFromLineSegments(boundary);
    vs := sort(vertices);
    if IsPermutation(sort) {
      CellVerticesSpec(lib, d, sort, site);
    }
  }

  /** GetVerticesForSites: one clockwise vertex loop per site, in site order. */
  method GetVerticesForSites(lib: Library, d: Diagram, sort: Sorter, sites: seq<Point>) returns (loops: seq<seq<Point>>)
    ensures |loops| == |sites|
    ensures forall i :: 0 <= i < |sites| ==> loops[i] == CellVertices(lib, d, sort, sites[i])
  {
    loops := [];
    for i := 0 to |sites|
      invariant |loops| == i
      invariant forall k :: 0 <= k < i ==> loops[k] == CellVertices(lib, d, sort, sites[k])
    {
      var vs := GetVerticesForSite(lib, d, sort, sites[i]);
      loops := loops + [vs];
    }
  }

  // ---------------------------------------------------------------------------
  // Closest site

  /** The initial closestDistance is 1e10; squared distances compare against its square. */
  const Sentinel: int := 100_000_000_000_000_000_000

  /** options[k] may be chosen: it is not excluded and lies within the sentinel distance. */
  predicate Eligible(options: seq<Point>, target: Point, excluded: seq<Point>, k: int)
    requires 0 <= k < |options|
  {
    options[k] !in excluded && SqDist(options[k], target) < Sentinel
  }

  predicate HasEligible(options: seq<Point>, target: Point, excluded: seq<Point>) {
    exists k :: 0 <= k < |options| && Eligible(options, target, excluded, k)
  }

  /** options[k] is eligible, no eligible option is closer, and every eligible
      option before it is strictly farther. */
  predicate ClosestAt(options: seq<Point>, target: Point, excluded: seq<Point>, k: int) {
    0 <= k < |options| && Eligible(options, target, excluded, k) &&
    (forall j :: 0 <= j < |options| && Eligible(options, target, excluded, j) ==>
      SqDist(options[j], target) >= SqDist(options[k], target)) &&
    (forall j :: 0 <= j < k && Eligible(options, target, excluded, j) ==>
      SqDist(options[j], target) > SqDist(options[k], target))
  }

  /** What GetSiteClosestToTarget returns: the earliest closest eligible option,
      or (0,0) when no option is eligible. */
  ghost predicate IsClosest(options: seq<Point>, target: Point, excluded: seq<Point>, c: Point) {
    if HasEligible(options, target, excluded) then
      exists k :: ClosestAt(options, target, excluded, k) && c == options[k]
    else c == Origin
  }

  /** The description determines the result. */
  lemma ClosestUnique(options: seq<Point>, target: Point, excluded: seq<Point>, c1: Point, c2: Point)
    requires IsClosest(options, target, excluded, c1) && IsClosest(options, target, excluded, c2)
    ensures c1 == c2
  {
    if HasEligible(options, target, excluded) {
      var k1 :| ClosestAt(options, target, excluded, k1) && c1 == options[k1];
      var k2 :| ClosestAt(options, target, excluded, k2) && c2 == options[k2];
      assert k1 == k2;
    }
  }

  /** The closest site is an option that is not excluded, unless it is the (0,0) fallback. */
  lemma ClosestIsOption(options: seq<Point>, target: Point, excluded: seq<Point>, c: Point)
    requires IsClosest(options, target, excluded, c)
    ensures HasEligible(options, target, excluded) ==> c in options && c !in excluded
    ensures !HasEligible(options, target, excluded) ==> c == Origin
  {
  }

  method GetSiteClosestToTarget(options: seq<Point>, target: Point, excluded: seq<Point>) returns (closest: Point)
    ensures IsClosest(options, target, excluded, closest)
  {
    closest := Origin;
    var closestDistance := Sentinel;
    ghost var best := -1;
    for i := 0 to |options|
      invariant best == -1 ==> closest == Origin && closestDistance == Sentinel
      invariant best == -1 ==> forall j :: 0 <= j < i ==> !Eligible(options, target, excluded, j)
      invariant best != -1 ==> 0 <= best < i && closest == options[best]
      invariant best != -1 ==> closestDistance == SqDist(closest, target) && Eligible(options, target, excluded, best)
      invariant best != -1 ==> forall j :: 0 <= j < i && Eligible(options, target, excluded, j) ==>
        SqDist(options[j], target) >= closestDistance
      invariant best != -1 ==> forall j :: 0 <= j < best && Eligible(options, target, excluded, j) ==>
        SqDist(options[j], target) > closestDistance
    {
      var site := options[i];
      var distance := SqDist(site, target);
      if site !in excluded && distance < closestDistance {
        closestDistance := distance;
        closest := site;
        best := i;
      }
    }
    if best != -1 {
      assert ClosestAt(options, target, excluded, best);
    }
  }

  // ---------------------------------------------------------------------------
  // Greedy path routing

  /** The site a routing step starts from: start, then each appended site. */
  function StepFrom(start: Point, path: seq<Point>, i: nat): Point
    requires i <= |path|
  {
    if i == 0 then start else path[i - 1]
  }

  /** Every step of the path was taken because the target was not yet a
      neighbour, and took the closest neighbour not already on the path. */
  ghost predicate RouteSteps(lib: Library, d: Diagram, start: Point, target: Point, path: seq<Point>) {
    forall i :: 0 <= i < |path| ==>
      target !in lib.neighbors(d, StepFrom(start, path, i)) &&
      IsClosest(lib.neighbors(d, StepFrom(start, path, i)), target, path[..i], path[i])
  }

  /** Outcome of routing: the path found, or the path so far when the step budget ran out. */
  datatype Route = Found(path: seq<Point>) | OutOfSteps(path: seq<Point>)

  /** GetSitePathToTarget, with a step budget: the source loop has none and may
      run forever. */
  method GetSitePathToTarget(lib: Library, d: Diagram, start: Point, target: Point, maxSteps: nat) returns (r: Route)
    ensures RouteSteps(lib, d, start, target, r.path)
    ensures r.Found? ==> target in lib.neighbors(d, StepFrom(start, r.path, |r.path|))
    ensures r.OutOfSteps? ==> |r.path| == maxSteps && target !in lib.neighbors(d, StepFrom(start, r.path, maxSteps))
    ensures target in lib.neighbors(d, start) ==> r == Found([])
  {
    var path: seq<Point> := [];
    var lastSite := start;
    while true
      invariant |path| <= maxSteps
      invariant lastSite == StepFrom(start, path, |path|)
      invariant RouteSteps(lib, d, start, target, path)
      invariant target in lib.neighbors(d, start) ==> path == []
      decreases maxSteps - |path|
    {
      var neighbors := lib.neighbors(d, lastSite);
      if target in neighbors {
        return Found(path);
      }
      if |path| == maxSteps {
        return OutOfSteps(path);
      }
      var closestSite := GetSiteClosestToTarget(neighbors, target, path);
      ghost var old_path := path;
      path := path + [closestSite];
      lastSite := closestSite;
      assert path[..|old_path|] == old_path;
      forall i | 0 <= i < |path|
        ensures target !in lib.neighbors(d, StepFrom(start, path, i))
        ensures IsClosest(lib.neighbors(d, StepFrom(start, path, i)), target, path[..i], path[i])
      {
        if i < |old_path| {
          assert path[..i] == old_path[..i];
          assert StepFrom(start, path, i) == StepFrom(start, old_path, i);
        }
      }
    }
  }

  /** A route returned at once when the target already neighbours start is empty. */
  lemma RouteEmptyWhenAdjacent(lib: Library, d: Diagram, start: Point, target: Point, path: seq<Point>)
    requires RouteSteps(lib, d, start, target, path)
    requires target in lib.neighbors(d, start)
    ensures path == []
  {
    assert StepFrom(start, path, 0) == start;
  }

  /** Each routed site neighbours the site before it and repeats no earlier site,
      as long as that step had an eligible neighbour; it is the target only when
      the target is (0,0) and the step fell back to (0,0). */
  lemma {:induction false} RouteShape(lib: Library, d: Diagram, start: Point, target: Point, path: seq<Point>, i: nat)
    requires RouteSteps(lib, d, start, target, path)
    requires i < |path|
    ensures HasEligible(lib.neighbors(d, StepFrom(start, path, i)), target, path[..i]) ==>
      path[i] in lib.neighbors(d, StepFrom(start, path, i)) && path[i] !in path[..i] && path[i] != target
    ensures path[i] == target ==> target == Origin
  {
    var nbs := lib.neighbors(d, StepFrom(start, path, i));
    assert target !in nbs && IsClosest(nbs, target, path[..i], path[i]);
    ClosestIsOption(nbs, target, path[..i], path[i]);
  }

  // ---------------------------------------------------------------------------
  // Sites in a square window

  predicate InSquare(p: Point, start: Point, w: int) {
    start.x - w <= p.x <= start.x + w && start.y - w <= p.y <= start.y + w
  }

  /** The sites inside the window, in site order. */
  function SitesInSquare(sites: seq<Point>, start: Point, w: int): seq<Point> {
    if sites == [] then []
    else
      var rest := SitesInSquare(sites[..|sites| - 1], start, w);
      if InSquare(sites[|sites| - 1], start, w) then rest + [sites[|sites| - 1]] else rest
  }

  /** The window keeps exactly the sites inside it. */
  lemma {:induction false} SitesInSquareMembers(sites: seq<Point>, start: Point, w: int)
    ensures forall p :: p in SitesInSquare(sites, start, w) <==> p in sites && InSquare(p, start, w)
    ensures |SitesInSquare(sites, start, w)| <= |sites|
  {
    if sites != [] {
      var n := |sites| - 1;
      SitesInSquareMembers(sites[..n], start, w);
      assert sites == sites[..n] + [sites[n]];
    }
  }

  /** Filtering commutes with concatenation, so the window keeps site order. */
  lemma {:induction false} SitesInSquareAppend(a: seq<Point>, b: seq<Point>, start: Point, w: int)
    ensures SitesInSquare(a + b, start, w) == SitesInSquare(a, start, w) + SitesInSquare(b, start, w)
  {
    if b != [] {
      var n := |b| - 1;
      assert (a + b)[..|a + b| - 1] == a + b[..n];
      assert (a + b)[|a + b| - 1] == b[n];
      SitesInSquareAppend(a, b[..n], start, w);
    } else {
      assert a + b == a;
    }
  }

  /** The start site is in its own window whenever it is a site and w >= 0. */
  lemma SitesInSquareHasStart(sites: seq<Point>, start: Point, w: int)
    requires start in sites && w >= 0
    ensures start in SitesInSquare(sites, start, w)
  {
    SitesInSquareMembers(sites, start, w);
  }

  method GetSitesInSquare(lib: Library, d: Diagram, start: Point, squareWidth: int) returns (r: seq<Point>)
    ensures r == SitesInSquare(lib.siteCoords(d), start, squareWidth)
    ensures forall p :: p in r <==> p in lib.siteCoords(d) && InSquare(p, start, squareWidth)
  {
    var sites := lib.siteCoords(d);
    r := [];
    for i := 0 to |sites|
      invariant r == SitesInSquare(sites[..i], start, squareWidth)
    {
      assert sites[..i + 1][..i] == sites[..i];
      var site := sites[i];
      if start.x - squareWidth <= site.x <= start.x + squareWidth && start.y - squareWidth <= site.y <= start.y + squareWidth {
        r := r + [site];
      }
    }
    assert sites[..|sites|] == sites;
    SitesInSquareMembers(sites, start, squareWidth);
  }

  // ---------------------------------------------------------------------------
  // Diagram input

  /** GenerateVoronoiObject: pointCount random sites in [0,width) x [0,height),
      all colours 0, bounds (0,0,width,height). The random draws are arbitrary
      values in their ranges; System.Random.Next(0, hi) throws
      ArgumentOutOfRangeException for a negative hi, so a positive pointCount
      with a negative width or height raises at the first draw. */
  method GenerateVoronoiObject(pointCount: int, width: int, height: int) returns (d: Diagram, thrown: bool)
    ensures thrown <==> pointCount > 0 && (width < 0 || height < 0)
    ensures !thrown ==> |d.points| == |d.colors| == if pointCount > 0 then pointCount else 0
    ensures !thrown ==> forall i :: 0 <= i < |d.colors| ==> d.colors[i] == 0
    ensures !thrown ==> forall p :: p in d.points ==> InRandomRange(p.x, 0, width) && InRandomRange(p.y, 0, height)
    ensures !thrown ==> d.plotBounds == Rect(0, 0, width, height)
  {
    var points: seq<Point> := [];
    var colors: seq<nat> := [];
    var i := 0;
    while i < pointCount
      invariant 0 <= i && (pointCount > 0 ==> i <= pointCount) && (pointCount <= 0 ==> i == 0)
      invariant i > 0 ==> width >= 0 && height >= 0
      invariant |points| == |colors| == i
      invariant forall k :: 0 <= k < i ==> colors[k] == 0
      invariant forall p :: p in points ==> InRandomRange(p.x, 0, width) && InRandomRange(p.y, 0, height)
    {
      colors := colors + [0];
      if width < 0 || height < 0 {
        return Diagram(points, colors, Rect(0, 0, width, height)), true;
      }
      assert InRandomRange(0, 0, width) && InRandomRange(0, 0, height);
      var x :| InRandomRange(x, 0, width);
      var y :| InRandomRange(y, 0, height);
      points := points + [Point(x, y)];
      i := i + 1;
    }
    d, thrown := Diagram(points, colors, Rect(0, 0, width, height)), false;
  }

  /** One step of Lloyd relaxation: the diagram input made of each reported
      site's boundary-vertex centroid, with the input's colours and bounds. */
  function Relaxed(lib: Library, input: Diagram, centroid: Centroid): (out: Diagram)
    ensures |out.points| == |lib.siteCoords(input)|
  {
    var sites := lib.siteCoords(input);
    Diagram(seq(|sites|, i requires 0 <= i < |sites| => centroid(Dedup(Endpoints(lib.boundary(input, sites[i]))))),
            lib.siteColors(input), input.plotBounds)
  }

  method RelaxVoronoi(lib: Library, input: Diagram, centroid: Centroid) returns (output: Diagram)
    ensures output == Relaxed(lib, input, centroid)
    ensures |output.points| == |lib.siteCoords(input)|
    ensures output.colors == lib.siteColors(input) && output.plotBounds == input.plotBounds
  {
    var siteCoords := lib.siteCoords(input);
    var adjusted: seq<Point> := [];
    for i := 0 to |siteCoords|
      invariant |adjusted| == i
      invariant forall k :: 0 <= k < i ==> adjusted[k] == centroid(Dedup(Endpoints(lib.boundary(input, siteCoords[k]))))
    {
      var boundary := lib.boundary(input, siteCoords[i]);
      var vertices := GetVerticesFromLineSegments(boundary);
      var center := centroid(vertices);
      adjusted := adjusted + [center];
    }
    output := Diagram(adjusted, lib.siteColors(input), input.plotBounds);
  }
}
