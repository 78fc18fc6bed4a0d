/** 8-connected foreground components: what one flood fill of the detector is
    meant to collect, stated without reference to queues or visited marks. */
module Connectivity {
  import opened Grid

  /** A walk through foreground pixels, each step to an 8-adjacent pixel. */
  ghost predicate IsPath(img: Image, threshold: int, path: seq<Point>)
    requires img.Valid()
  {
    |path| > 0 &&
    (forall i :: 0 <= i < |path| ==> Foreground(img, threshold, path[i])) &&
    (forall i :: 0 <= i < |path| - 1 ==> Adjacent(path[i], path[i + 1]))
  }

  /** `t` can be reached from `s` through foreground pixels. */
  ghost predicate Reach(img: Image, threshold: int, s: Point, t: Point)
    requires img.Valid()
  {
    exists path :: IsPath(img, threshold, path) && path[0] == s && path[|path| - 1] == t
  }

  /** The 8-connected foreground component of `s` (empty if `s` is background). */
  ghost function Component(img: Image, threshold: int, s: Point): (c: set<Point>)
    requires img.Valid()
    ensures forall q :: q in c <==> InBounds(img, q) && Reach(img, threshold, s, q)
  {
    var c := set x, y | 0 <= x < img.width && 0 <= y < img.height && Reach(img, threshold, s, Point(x, y)) :: Point(x, y);
    assert forall q :: InBounds(img, q) && Reach(img, threshold, s, q) ==> q in c by {
      forall q | InBounds(img, q) && Reach(img, threshold, s, q)
        ensures q in c
      {
        assert q == Point(q.x, q.y);
      }
    }
    c
  }

  /** `C` is closed under foreground adjacency from its foreground members. */
  ghost predicate ClosedFg(img: Image, threshold: int, c: set<Point>)
    requires img.Valid()
  {
    forall a, b :: a in c && Foreground(img, threshold, a) && Foreground(img, threshold, b) && Adjacent(a, b) ==> b in c
  }

  /** `p` is the raster-first pixel of its component: the pixel from which the
      detector's scan starts that component's flood fill. */
  ghost predicate IsSeed(img: Image, threshold: int, p: Point)
    requires img.Valid()
  {
    Foreground(img, threshold, p) &&
    forall q :: q in Component(img, threshold, p) ==> !RasterBefore(q, p)
  }

  lemma ReachRefl(img: Image, threshold: int, s: Point)
    requires img.Valid() && Foreground(img, threshold, s)
    ensures Reach(img, threshold, s, s)
    ensures s in Component(img, threshold, s)
  {
    assert IsPath(img, threshold, [s]);
  }

  lemma ReachEnds(img: Image, threshold: int, s: Point, t: Point)
    requires img.Valid() && Reach(img, threshold, s, t)
    ensures Foreground(img, threshold, s) && Foreground(img, threshold, t)
  {
    var path :| IsPath(img, threshold, path) && path[0] == s && path[|path| - 1] == t;
  }

  /** A reachable pixel extends reachability to its foreground neighbours. */
  lemma ReachStep(img: Image, threshold: int, s: Point, p: Point, q: Point)
    requires img.Valid() && Reach(img, threshold, s, p)
    requires Adjacent(p, q) && Foreground(img, threshold, q)
    ensures Reach(img, threshold, s, q)
  {
    var path :| IsPath(img, threshold, path) && path[0] == s && path[|path| - 1] == p;
    var path' := path + [q];
    assert IsPath(img, threshold, path');
  }

  function Reverse<T>(s: seq<T>): (r: seq<T>)
    ensures |r| == |s|
    ensures forall i :: 0 <= i < |s| ==> r[i] == s[|s| - 1 - i]
  {
    if |s| == 0 then [] else Reverse(s[1..]) + [s[0]]
  }

  /** Connectivity is symmetric: walking a path backwards is a path. */
  lemma ReachSymmetric(img: Image, threshold: int, s: Point, t: Point)
    requires img.Valid() && Reach(img, threshold, s, t)
    ensures Reach(img, threshold, t, s)
  {
    var path :| IsPath(img, threshold, path) && path[0] == s && path[|path| - 1] == t;
    var back := Reverse(path);
    assert forall i :: 0 <= i < |back| - 1 ==> Adjacent(back[i], back[i + 1]) by {
      forall i | 0 <= i < |back| - 1
        ensures Adjacent(back[i], back[i + 1])
      {
        var j := |path| - 2 - i;
        assert Adjacent(path[j], path[j + 1]);
      }
    }
    assert IsPath(img, threshold, back);
  }

  /** Every pixel of a path that starts inside a foreground-closed set stays inside it. */
  lemma {:induction false} PathInside(img: Image, threshold: int, c: set<Point>, path: seq<Point>, k: nat)
    requires img.Valid() && IsPath(img, threshold, path) && path[0] in c && ClosedFg(img, threshold, c)
    requires k < |path|
    ensures path[k] in c
  {
    if k > 0 {
      PathInside(img, threshold, c, path, k - 1);
      assert Adjacent(path[k - 1], path[k]);
    }
  }

  /** A set closed under foreground adjacency that holds `s` holds all of
      `s`'s component. */
  lemma ComponentWithin(img: Image, threshold: int, c: set<Point>, s: Point)
    requires img.Valid() && s in c && ClosedFg(img, threshold, c)
    ensures Component(img, threshold, s) <= c
  {
    forall t | t in Component(img, threshold, s)
      ensures t in c
    {
      var path :| IsPath(img, threshold, path) && path[0] == s && path[|path| - 1] == t;
      PathInside(img, threshold, c, path, |path| - 1);
    }
  }

  /** Reachability is transitive: paths concatenate. */
  lemma ReachTrans(img: Image, threshold: int, s: Point, m: Point, t: Point)
    requires img.Valid() && Reach(img, threshold, s, m) && Reach(img, threshold, m, t)
    ensures Reach(img, threshold, s, t)
  {
    var p1 :| IsPath(img, threshold, p1) && p1[0] == s && p1[|p1| - 1] == m;
    var p2 :| IsPath(img, threshold, p2) && p2[0] == m && p2[|p2| - 1] == t;
    var p := p1 + p2[1..];
    assert forall i :: 0 <= i < |p| - 1 ==> Adjacent(p[i], p[i + 1]) by {
      forall i | 0 <= i < |p| - 1
        ensures Adjacent(p[i], p[i + 1])
      {
        if i < |p1| - 1 {
          assert Adjacent(p1[i], p1[i + 1]);
        } else {
          var j := i - (|p1| - 1);
          assert Adjacent(p2[j], p2[j + 1]);
        }
      }
    }
    assert IsPath(img, threshold, p);
  }

  /** Connected pixels have the same component, so the fill started from any
      pixel of a component marks the whole of it and nothing else. */
  lemma SameComponent(img: Image, threshold: int, s: Point, t: Point)
    requires img.Valid() && Reach(img, threshold, s, t)
    ensures Component(img, threshold, s) == Component(img, threshold, t)
  {
    ReachSymmetric(img, threshold, s, t);
    forall q | InBounds(img, q)
      ensures Reach(img, threshold, s, q) <==> Reach(img, threshold, t, q)
    {
      if Reach(img, threshold, s, q) {
        ReachTrans(img, threshold, t, s, q);
      }
      if Reach(img, threshold, t, q) {
        ReachTrans(img, threshold, s, t, q);
      }
    }
  }

  /** Components depend only on the in-bounds pixels, not on the row stride. */
  lemma ComponentsAgree(a: Image, b: Image, threshold: int, s: Point)
    requires a.Valid() && b.Valid() && SamePixels(a, b)
    ensures Component(a, threshold, s) == Component(b, threshold, s)
    ensures IsSeed(a, threshold, s) == IsSeed(b, threshold, s)
  {
  }
}
