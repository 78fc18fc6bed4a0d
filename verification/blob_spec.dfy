/** Reference definition of what the detector reports: one blob per
    8-connected foreground component whose area passes the filter, in raster
    order of the component's first pixel, cut to the caller's capacity. */
module BlobSpec {
  import opened Grid
  import opened Connectivity
  import opened Centroids

  /** A detected blob: truncated-mean centroid and pixel count. */
  datatype Blob = Blob(x: int, y: int, area: int)

  /** The tunable detection parameters. */
  datatype Params = Params(threshold: int, minArea: int, maxArea: int)

  /** The blob a non-empty region describes: mean coordinates truncated
      toward zero (all coordinates are non-negative) and the pixel count. */
  function BlobOf(img: Image, c: set<Point>): (b: Blob)
    requires img.width >= 0 && img.height >= 0 && |c| > 0
    requires forall p :: p in c ==> InBounds(img, p)
    ensures b.area == |c| && 0 <= b.x < img.width && 0 <= b.y < img.height
  {
    SetMeanBounds(img, c, X);
    SetMeanBounds(img, c, Y);
    Blob(SetSum(img, c, X) / |c|, SetSum(img, c, Y) / |c|, |c|)
  }

  /** A blob that passes the area filter and whose centroid is a pixel of the image. */
  predicate BlobFits(img: Image, prm: Params, b: Blob) {
    prm.minArea <= b.area <= prm.maxArea && 0 <= b.x < img.width && 0 <= b.y < img.height
  }

  /** What the component seeded at `p` contributes: its blob when `p` is the
      component's raster-first pixel and the area passes the filter. */
  ghost function Emitted(img: Image, prm: Params, p: Point): seq<Blob>
    requires img.Valid()
  {
    var c := Component(img, prm.threshold, p);
    if IsSeed(img, prm.threshold, p) && prm.minArea <= |c| <= prm.maxArea then
      ReachRefl(img, prm.threshold, p);
      [BlobOf(img, c)]
    else
      []
  }

  /** Concatenation of `f` over the pixels strictly before (x, y) in the
      raster order of a grid `width` pixels wide. */
  ghost function RasterConcat<T>(f: Point -> seq<T>, width: int, y: int, x: int): seq<T>
    requires 0 <= y && 0 <= x <= width
    decreases y, x
  {
    if x == 0 then
      (if y == 0 then [] else RasterConcat(f, width, y - 1, width))
    else
      RasterConcat(f, width, y, x - 1) + f(Point(x - 1, y))
  }

  /** Blobs of the components seeded strictly before pixel (x, y) in raster order. */
  ghost function Scanned(img: Image, prm: Params, y: int, x: int): seq<Blob>
    requires img.Valid() && 0 <= y && 0 <= x <= img.width
  {
    RasterConcat(p => Emitted(img, prm, p), img.width, y, x)
  }

  lemma ScannedNext(img: Image, prm: Params, y: int, x: int)
    requires img.Valid() && 0 <= y && 0 <= x < img.width
    ensures Scanned(img, prm, y, x + 1) == Scanned(img, prm, y, x) + Emitted(img, prm, Point(x, y))
  {
  }

  lemma ScannedNextRow(img: Image, prm: Params, y: int)
    requires img.Valid() && 0 <= y && 0 <= img.width
    ensures Scanned(img, prm, y + 1, 0) == Scanned(img, prm, y, img.width)
  {
  }

  /** Every qualifying component's blob, in raster order of its seed. Each
      passes the area filter and has its centroid inside the image. */
  ghost function Qualifying(img: Image, prm: Params): (r: seq<Blob>)
    requires img.Valid()
    ensures forall i :: 0 <= i < |r| ==> BlobFits(img, prm, r[i])
  {
    if img.width <= 0 || img.height <= 0 then []
    else
      ConcatBounded(p => Emitted(img, prm, p), (b: Blob) => BlobFits(img, prm, b), img.width, img.height, 0);
      Scanned(img, prm, img.height, 0)
  }

  /** The first `m` elements of `s` (none when `m` is not positive). */
  function Cap<T>(s: seq<T>, m: int): (r: seq<T>)
    ensures |r| == if m <= 0 then 0 else if |s| <= m then |s| else m
    ensures r == s[..|r|]
  {
    if m <= 0 then [] else if |s| <= m then s else s[..m]
  }

  /** What the detector returns for a capacity of `maxBlobs`: the first
      qualifying blobs, at most `maxBlobs` of them. */
  ghost function Expected(img: Image, prm: Params, maxBlobs: int): (r: seq<Blob>)
    requires img.Valid()
    ensures |r| <= (if maxBlobs < 0 then 0 else maxBlobs)
    ensures |r| < (if maxBlobs < 0 then 0 else maxBlobs) ==> r == Qualifying(img, prm)
    ensures |r| <= |Qualifying(img, prm)| && r == Qualifying(img, prm)[..|r|]
    ensures forall i :: 0 <= i < |r| ==> BlobFits(img, prm, r[i])
  {
    var q := Qualifying(img, prm);
    var r := Cap(q, maxBlobs);
    assert forall i :: 0 <= i < |r| ==> r[i] == q[i];
    r
  }

  /** Recording a new blob only while fewer than `m` are recorded keeps
      exactly the first `m` of all the blobs offered. */
  lemma CapAppend<T>(s: seq<T>, b: T, m: int)
    ensures Cap(s + [b], m) == if |Cap(s, m)| < m then Cap(s, m) + [b] else Cap(s, m)
  {
    if |Cap(s, m)| < m {
      assert |s| < m;
    }
  }

  /** If every position contributes only good elements, so does the raster concatenation. */
  lemma {:induction false} ConcatBounded<T>(f: Point -> seq<T>, good: T -> bool, width: int, y: int, x: int)
    requires 0 <= y && 0 <= x <= width
    requires forall p, i :: 0 <= i < |f(p)| ==> good(f(p)[i])
    ensures forall i :: 0 <= i < |RasterConcat(f, width, y, x)| ==> good(RasterConcat(f, width, y, x)[i])
    decreases y, x
  {
    if x == 0 {
      if y > 0 {
        ConcatBounded(f, good, width, y - 1, width);
      }
    } else {
      ConcatBounded(f, good, width, y, x - 1);
    }
  }

  /** If no position contributes anything, the raster concatenation is empty. */
  lemma {:induction false} ConcatNothing<T>(f: Point -> seq<T>, width: int, y: int, x: int)
    requires 0 <= y && 0 <= x <= width
    requires forall p :: f(p) == []
    ensures RasterConcat(f, width, y, x) == []
    decreases y, x
  {
    if x == 0 {
      if y > 0 {
        ConcatNothing(f, width, y - 1, width);
      }
    } else {
      ConcatNothing(f, width, y, x - 1);
    }
  }

  /** When only the pixel `s` contributes, the concatenation up to scan
      position (x, y) is its contribution once the scan has passed `s`. */
  lemma {:induction false} ConcatSingle<T>(f: Point -> seq<T>, width: int, s: Point, y: int, x: int)
    requires 0 <= y && 0 <= x <= width && 0 <= s.x < width && 0 <= s.y
    requires forall p :: p != s ==> f(p) == []
    ensures RasterConcat(f, width, y, x) == if RasterBefore(s, Point(x, y)) then f(s) else []
    decreases y, x
  {
    if x == 0 {
      if y > 0 {
        ConcatSingle(f, width, s, y - 1, width);
      }
    } else {
      ConcatSingle(f, width, s, y, x - 1);
      var p := Point(x - 1, y);
      if p != s {
        assert f(p) == [];
        assert RasterConcat(f, width, y, x) == RasterConcat(f, width, y, x - 1) + [];
      }
    }
  }

  /** Concatenations of pointwise equal contributions are equal. */
  lemma {:induction false} ConcatSame<T>(f: Point -> seq<T>, g: Point -> seq<T>, width: int, y: int, x: int)
    requires 0 <= y && 0 <= x <= width
    requires forall p :: f(p) == g(p)
    ensures RasterConcat(f, width, y, x) == RasterConcat(g, width, y, x)
    decreases y, x
  {
    if x == 0 {
      if y > 0 {
        ConcatSame(f, g, width, y - 1, width);
      }
    } else {
      ConcatSame(f, g, width, y, x - 1);
    }
  }

  /** Every blob reported passes the area filter. */
  lemma ExpectedInRange(img: Image, prm: Params, maxBlobs: int)
    requires img.Valid()
    ensures forall i :: 0 <= i < |Expected(img, prm, maxBlobs)| ==>
              prm.minArea <= Expected(img, prm, maxBlobs)[i].area <= prm.maxArea
  {
  }

  /** With the area bounds crossed, no component passes and nothing is reported. */
  lemma InvertedBoundsNoBlobs(img: Image, prm: Params, maxBlobs: int)
    requires img.Valid() && prm.maxArea < prm.minArea
    ensures Expected(img, prm, maxBlobs) == []
  {
    if img.width > 0 && img.height > 0 {
      ConcatNothing(p => Emitted(img, prm, p), img.width, img.height, 0);
    }
  }

  /** An image with no pixel above the threshold has no blobs; pixels equal
      to the threshold are background. */
  lemma AllBackgroundNoBlobs(img: Image, prm: Params, maxBlobs: int)
    requires img.Valid()
    requires forall p :: InBounds(img, p) ==> Pixel(img, p) <= prm.threshold
    ensures Expected(img, prm, maxBlobs) == []
  {
    if img.width > 0 && img.height > 0 {
      forall p
        ensures Emitted(img, prm, p) == []
      {
        assert !Foreground(img, prm.threshold, p);
      }
      ConcatNothing(p => Emitted(img, prm, p), img.width, img.height, 0);
    }
  }

  /** Every foreground pixel lies in the component of `s`, and `s` is the
      raster-first foreground pixel. */
  ghost predicate SoleComponent(img: Image, threshold: int, s: Point)
    requires img.Valid()
  {
    Foreground(img, threshold, s) &&
    (forall p :: Foreground(img, threshold, p) ==> !RasterBefore(p, s)) &&
    (forall p :: Foreground(img, threshold, p) ==> p in Component(img, threshold, s))
  }

  /** Under a single component seeded at `s`, only `s` contributes. */
  lemma EmittedSingle(img: Image, prm: Params, s: Point, p: Point)
    requires img.Valid()
    requires SoleComponent(img, prm.threshold, s)
    ensures p != s ==> Emitted(img, prm, p) == []
  {
    if p != s && Foreground(img, prm.threshold, p) {
      SameComponent(img, prm.threshold, s, p);
      ReachRefl(img, prm.threshold, s);
      assert s in Component(img, prm.threshold, p);
      assert RasterBefore(s, p);
      assert !IsSeed(img, prm.threshold, p);
    }
  }

  /** An image whose foreground is one 8-connected component reports exactly
      that component, if its area passes the filter and the capacity is positive. */
  lemma SingleComponent(img: Image, prm: Params, maxBlobs: int, s: Point)
    requires img.Valid() && SoleComponent(img, prm.threshold, s)
    ensures |Component(img, prm.threshold, s)| > 0
    ensures Expected(img, prm, maxBlobs) ==
              if prm.minArea <= |Component(img, prm.threshold, s)| <= prm.maxArea && maxBlobs > 0
              then [BlobOf(img, Component(img, prm.threshold, s))]
              else []
  {
    ReachRefl(img, prm.threshold, s);
    forall p | p != s
      ensures Emitted(img, prm, p) == []
    {
      EmittedSingle(img, prm, s, p);
    }
    ConcatSingle(p => Emitted(img, prm, p), img.width, s, img.height, 0);
    forall q | q in Component(img, prm.threshold, s)
      ensures !RasterBefore(q, s)
    {
      ReachEnds(img, prm.threshold, s, q);
    }
    assert IsSeed(img, prm.threshold, s);
  }

  /** A lone foreground pixel is reported as a blob of area 1 at its own
      coordinates, when area 1 passes the filter. */
  lemma SinglePixelBlob(img: Image, prm: Params, maxBlobs: int, s: Point)
    requires img.Valid()
    requires Foreground(img, prm.threshold, s)
    requires forall p :: Foreground(img, prm.threshold, p) ==> p == s
    requires prm.minArea <= 1 <= prm.maxArea && maxBlobs >= 1
    ensures Expected(img, prm, maxBlobs) == [Blob(s.x, s.y, 1)]
  {
    ReachRefl(img, prm.threshold, s);
    var c := Component(img, prm.threshold, s);
    forall q | q in c
      ensures q == s
    {
      ReachEnds(img, prm.threshold, s, q);
    }
    assert c == {s};
    SingleComponent(img, prm, maxBlobs, s);
    GridSumEmpty(X, img.width, img.height);
    GridSumEmpty(Y, img.width, img.height);
    GridSumAdd({}, X, s, img.width, img.height);
    GridSumAdd({}, Y, s, img.width, img.height);
    assert {} + {s} == c;
  }

  /** The detector's result depends only on the in-bounds pixels: padding
      bytes after each row, and the row stride itself, make no difference. */
  lemma PaddingIrrelevant(a: Image, b: Image, prm: Params, maxBlobs: int)
    requires a.Valid() && b.Valid() && SamePixels(a, b)
    ensures Expected(a, prm, maxBlobs) == Expected(b, prm, maxBlobs)
  {
    if a.width > 0 && a.height > 0 {
      forall p
        ensures Emitted(a, prm, p) == Emitted(b, prm, p)
      {
        ComponentsAgree(a, b, prm.threshold, p);
      }
      ConcatSame(p => Emitted(a, prm, p), p => Emitted(b, prm, p), a.width, a.height, 0);
    }
  }
}
