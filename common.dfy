/** Geometry values shared by every generator, and small facts about sequences.
    The engine works on Unity's float vectors; this model uses integer
    coordinates, so equality of two points is exact. */
module Geometry {

  /** A 2D point (Unity's Vector2), with integer coordinates. */
  datatype Point = Point(x: int, y: int)

  /** A line segment of a Voronoi boundary (Delaunay.Geo.LineSegment). */
  datatype Segment = Segment(p0: Point, p1: Point)

  /** An axis-aligned rectangle (Unity's Rect). */
  datatype Rect = Rect(x: int, y: int, width: int, height: int)

  const Origin := Point(0, 0)

  /** Squared Euclidean distance; it orders points exactly as Vector2.Distance does. */
  function SqDist(a: Point, b: Point): (d: int)
    ensures d >= 0
    ensures d == 0 <==> a == b
  {
    var dx := a.x - b.x;
    var dy := a.y - b.y;
    SquareZero(dx);
    SquareZero(dy);
    dx * dx + dy * dy
  }

  lemma SquareZero(n: int)
    ensures n * n >= 0
    ensures n * n == 0 <==> n == 0
  {
    if n < 0 {
      assert n * n == (-n) * (-n);
    }
    if n != 0 {
      assert n * n >= 1 by {
        if n > 0 { assert n * n >= n * 1; } else { assert (-n) * (-n) >= (-n) * 1; }
      }
    }
  }

  /** No element occurs twice. */
  predicate Distinct<T(==)>(s: seq<T>) {
    forall i, j :: 0 <= i < j < |s| ==> s[i] != s[j]
  }

  /** List<T>.Remove: drops the first occurrence of x, if any. */
  function RemoveFirst<T(==)>(s: seq<T>, x: T): (r: seq<T>)
    ensures x in s ==> |r| == |s| - 1 && multiset(r) == multiset(s) - multiset{x}
    ensures x !in s ==> r == s
  {
    if s == [] then []
    else
      assert s == [s[0]] + s[1..];
      if s[0] == x then s[1..]
      else [s[0]] + RemoveFirst(s[1..], x)
  }

  /** Removing the first occurrence of x from a duplicate-free sequence keeps
      exactly the other elements, still duplicate-free. */
  lemma {:induction false} RemoveFirstDistinct<T>(s: seq<T>, x: T)
    requires Distinct(s)
    ensures Distinct(RemoveFirst(s, x))
    ensures forall y :: y in RemoveFirst(s, x) <==> y in s && y != x
  {
    if s != [] && s[0] != x {
      RemoveFirstDistinct(s[1..], x);
      var r := RemoveFirst(s[1..], x);
      assert RemoveFirst(s, x) == [s[0]] + r;
      assert s[0] !in s[1..];
      assert s[0] !in r;
      forall i, j | 0 <= i < j < |[s[0]] + r| ensures ([s[0]] + r)[i] != ([s[0]] + r)[j] {
        if i > 0 {
          assert ([s[0]] + r)[i] == r[i - 1];
        }
      }
    } else if s != [] {
      assert s[0] !in s[1..];
    }
    if s != [] {
      assert s == [s[0]] + s[1..];
    }
  }

  /** Index of the first occurrence of x in s; |s| when x does not occur. */
  function IndexOf<T(==)>(s: seq<T>, x: T): (k: nat)
    ensures k <= |s|
    ensures k < |s| <==> x in s
    ensures k < |s| ==> s[k] == x
    ensures forall i :: 0 <= i < k ==> s[i] != x
  {
    if s == [] then 0
    else if s[0] == x then 0
    else 1 + IndexOf(s[1..], x)
  }

  /** `if (!list.Contains(p)) list.Add(p)` */
  function AddAbsent(vs: seq<Point>, p: Point): seq<Point> {
    if p in vs then vs else vs + [p]
  }

  /** The points of s with later repetitions dropped. */
  function Dedup(s: seq<Point>): seq<Point> {
    if s == [] then [] else AddAbsent(Dedup(s[..|s| - 1]), s[|s| - 1])
  }

  /** Dedup keeps exactly the points of s, each once, in the order of their
      first occurrence in s. */
  lemma {:induction false} DedupSpec(s: seq<Point>)
    ensures Distinct(Dedup(s))
    ensures forall p :: p in Dedup(s) <==> p in s
    ensures forall i, j :: 0 <= i < j < |Dedup(s)| ==> IndexOf(s, Dedup(s)[i]) < IndexOf(s, Dedup(s)[j])
  {
    if s != [] {
      var n := |s| - 1;
      var pre := s[..n];
      var d := Dedup(pre);
      DedupSpec(pre);
      assert s == pre + [s[n]];
      forall p | p in pre ensures IndexOf(s, p) == IndexOf(pre, p) {
        IndexOfPrefix(pre, s[n], p);
      }
      if s[n] !in d {
        assert Dedup(s) == d + [s[n]];
        assert s[n] !in pre;
        IndexOfLast(pre, s[n]);
        forall i | 0 <= i < |d| ensures IndexOf(s, d[i]) < IndexOf(s, s[n]) {
          assert d[i] in pre;
        }
      }
    }
  }

  lemma IndexOfPrefix(pre: seq<Point>, x: Point, p: Point)
    requires p in pre
    ensures IndexOf(pre + [x], p) == IndexOf(pre, p)
  {
    if pre[0] != p {
      assert (pre + [x])[1..] == pre[1..] + [x];
    }
  }

  lemma IndexOfLast(pre: seq<Point>, x: Point)
    requires x !in pre
    ensures IndexOf(pre + [x], x) == |pre|
  {
    if pre != [] {
      assert (pre + [x])[1..] == pre[1..] + [x];
    }
  }
}
