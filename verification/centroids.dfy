/** Coordinate sums and truncated-mean centroids. The detector adds up the
    coordinates of the pixels in the order its queue hands them out; the
    reference definition adds them up over the component as a set, in raster
    order. */
module Centroids {
  import opened Grid

  datatype Axis = X | Y

  function Coord(p: Point, a: Axis): int {
    match a
    case X => p.x
    case Y => p.y
  }

  /** Extent of the image along an axis. */
  function Extent(img: Image, a: Axis): int {
    match a
    case X => img.width
    case Y => img.height
  }

  function Elems(s: seq<Point>): set<Point> {
    set p | p in s
  }

  predicate Distinct(s: seq<Point>) {
    forall i, j :: 0 <= i < j < |s| ==> s[i] != s[j]
  }

  /** Sum of one coordinate over a sequence of points, in sequence order. */
  function SeqSum(s: seq<Point>, a: Axis): int {
    if |s| == 0 then 0 else SeqSum(s[..|s| - 1], a) + Coord(s[|s| - 1], a)
  }

  /** Extending a prefix by one element adds that element's coordinate. */
  lemma SeqSumNext(s: seq<Point>, n: int, a: Axis)
    requires 0 <= n < |s|
    ensures SeqSum(s[..n + 1], a) == SeqSum(s[..n], a) + Coord(s[n], a)
  {
    assert s[..n + 1][..n] == s[..n];
  }

  /** Sum of one coordinate over the members of `c` among the first `x`
      pixels of row `y`. */
  function RowSum(c: set<Point>, a: Axis, y: int, x: nat): int {
    if x == 0 then 0
    else RowSum(c, a, y, x - 1) + (if Point(x - 1, y) in c then Coord(Point(x - 1, y), a) else 0)
  }

  /** Sum of one coordinate over the members of `c` in the first `rows` rows
      of a grid `width` pixels wide, taken in raster order. */
  function GridSum(c: set<Point>, a: Axis, width: nat, rows: nat): int {
    if rows == 0 then 0 else GridSum(c, a, width, rows - 1) + RowSum(c, a, rows - 1, width)
  }

  /** Sum of a coordinate over an image region given as a set. */
  function SetSum(img: Image, c: set<Point>, a: Axis): int
    requires img.width >= 0 && img.height >= 0
  {
    GridSum(c, a, img.width, img.height)
  }

  lemma {:induction false} RowSumAdd(c: set<Point>, a: Axis, p: Point, y: int, x: nat)
    requires p !in c
    ensures RowSum(c + {p}, a, y, x) == RowSum(c, a, y, x) + (if p.y == y && 0 <= p.x < x then Coord(p, a) else 0)
  {
    if x > 0 {
      RowSumAdd(c, a, p, y, x - 1);
    }
  }

  /** Adding a fresh in-grid point to a set adds its coordinate to the raster-order sum. */
  lemma {:induction false} GridSumAdd(c: set<Point>, a: Axis, p: Point, width: nat, rows: nat)
    requires p !in c && 0 <= p.x < width
    ensures GridSum(c + {p}, a, width, rows) == GridSum(c, a, width, rows) + (if 0 <= p.y < rows then Coord(p, a) else 0)
  {
    if rows > 0 {
      GridSumAdd(c, a, p, width, rows - 1);
      RowSumAdd(c, a, p, rows - 1, width);
    }
  }

  lemma {:induction false} RowSumEmpty(a: Axis, y: int, x: nat)
    ensures RowSum({}, a, y, x) == 0
  {
    if x > 0 {
      RowSumEmpty(a, y, x - 1);
    }
  }

  lemma {:induction false} GridSumEmpty(a: Axis, width: nat, rows: nat)
    ensures GridSum({}, a, width, rows) == 0
  {
    if rows > 0 {
      GridSumEmpty(a, width, rows - 1);
      RowSumEmpty(a, rows - 1, width);
    }
  }

  /** Whatever order a duplicate-free sequence of in-bounds pixels lists them
      in, its coordinate sum equals the set's raster-order sum, and its length
      is the set's size. */
  lemma {:induction false} SeqSumIsSetSum(img: Image, s: seq<Point>, a: Axis)
    requires img.width >= 0 && img.height >= 0
    requires Distinct(s) && forall i :: 0 <= i < |s| ==> InBounds(img, s[i])
    ensures SeqSum(s, a) == SetSum(img, Elems(s), a)
    ensures |Elems(s)| == |s|
  {
    if |s| == 0 {
      assert Elems(s) == {};
      GridSumEmpty(a, img.width, img.height);
    } else {
      var init := s[..|s| - 1];
      var p := s[|s| - 1];
      SeqSumIsSetSum(img, init, a);
      assert Elems(s) == Elems(init) + {p};
      assert p !in Elems(init);
      GridSumAdd(Elems(init), a, p, img.width, img.height);
    }
  }

  /** Each coordinate is within [0, extent), so the sum is within
      [0, count * (extent - 1)]. */
  lemma {:induction false} SeqSumBounds(img: Image, s: seq<Point>, a: Axis)
    requires forall i :: 0 <= i < |s| ==> InBounds(img, s[i])
    ensures 0 <= SeqSum(s, a) <= |s| * (Extent(img, a) - 1)
  {
    if |s| > 0 {
      SeqSumBounds(img, s[..|s| - 1], a);
      assert InBounds(img, s[|s| - 1]);
    }
  }

  /** A truncated mean of values in [0, bound) is in [0, bound). */
  lemma MeanBounds(sum: int, count: int, bound: int)
    requires count > 0 && 0 <= sum <= count * (bound - 1)
    ensures 0 <= sum / count < bound
  {
    var m := sum / count;
    assert m * count + sum % count == sum;
    if m >= bound {
      MulMono(bound, m, count);
      assert false;
    }
  }

  /** The truncated mean coordinate of a non-empty sequence of in-bounds
      pixels is itself within the image. */
  lemma SeqMeanBounds(img: Image, s: seq<Point>, a: Axis)
    requires |s| > 0 && forall i :: 0 <= i < |s| ==> InBounds(img, s[i])
    ensures 0 <= SeqSum(s, a) / |s| < Extent(img, a)
  {
    SeqSumBounds(img, s, a);
    MeanBounds(SeqSum(s, a), |s|, Extent(img, a));
  }

  /** Some duplicate-free listing of a finite set of points. */
  ghost function Enumerate(c: set<Point>): (s: seq<Point>)
    ensures Elems(s) == c && Distinct(s) && |s| == |c|
    decreases |c|
  {
    if c == {} then []
    else
      var p :| p in c;
      var rest := Enumerate(c - {p});
      assert forall q :: q in Elems(rest + [p]) <==> q in Elems(rest) || q == p;
      assert Elems(rest + [p]) == c;
      rest + [p]
  }

  /** The truncated mean coordinate of a non-empty set of in-bounds pixels
      is itself within the image. */
  lemma SetMeanBounds(img: Image, c: set<Point>, a: Axis)
    requires img.width >= 0 && img.height >= 0 && |c| > 0
    requires forall p :: p in c ==> InBounds(img, p)
    ensures 0 <= SetSum(img, c, a) / |c| < Extent(img, a)
  {
    var s := Enumerate(c);
    assert forall i :: 0 <= i < |s| ==> s[i] in Elems(s);
    SeqSumIsSetSum(img, s, a);
    SeqMeanBounds(img, s, a);
  }
}
