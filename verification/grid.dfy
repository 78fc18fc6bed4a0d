/** The pixel grid seen by the blob detector: a row-strided 8-bit grayscale
    buffer, pixel coordinates, the two index computations the detector uses
    (row stride for reading pixels, packed width for its visited marks), the
    threshold test and the 8-neighbourhood. */
module Grid {

  /** An 8-bit intensity, as an `unsigned char` holds it. */
  type Byte = x: int | 0 <= x < 256

  datatype Point = Point(x: int, y: int)

  /** Smallest and largest values of a C `int`. */
  const IntMin: int := -0x8000_0000
  const IntMax: int := 0x7FFF_FFFF

  /** The coordinate sums the detector keeps in an `int` stay below IntMax
      for an image of these dimensions: the sum of all x (resp. y)
      coordinates of the image bounds that of any one component. */
  predicate FitsInt(width: int, height: int) {
    height * (width * (width - 1) / 2) <= IntMax &&
    width * (height * (height - 1) / 2) <= IntMax
  }

  /** A grayscale image: pixel (x, y) is gray[y * step + x]. `step` is the
      number of bytes per row, so bytes past `width` in a row are padding.
      The detector computes `width * height` in `int` whatever the
      dimensions, so that product must fit even when a dimension is not
      positive. The offset of the last pixel must fit as well, as the
      detector computes every offset `y * step + x` in `int`. */
  datatype Image = Image(gray: seq<Byte>, width: int, height: int, step: int) {
    predicate Valid() {
      IntMin <= width * height <= IntMax &&
      (width > 0 && height > 0 ==>
        step >= width &&
        |gray| >= (height - 1) * step + width &&
        (height - 1) * step + (width - 1) <= IntMax &&
        FitsInt(width, height))
    }
  }

  predicate InBounds(img: Image, p: Point) {
    0 <= p.x < img.width && 0 <= p.y < img.height
  }

  /** Raster (row-major) order on points: `p` is scanned strictly before `q`. */
  predicate RasterBefore(p: Point, q: Point) {
    p.y < q.y || (p.y == q.y && p.x < q.x)
  }

  lemma MulMono(a: int, b: int, c: int)
    requires a <= b && 0 <= c
    ensures a * c <= b * c
  {
  }

  /** Packed index `y * width + x` of an in-bounds pixel: where its visited
      mark lives. */
  function Idx(img: Image, p: Point): (i: int)
    requires InBounds(img, p)
    ensures 0 <= i < img.width * img.height
  {
    MulMono(p.y + 1, img.height, img.width);
    p.y * img.width + p.x
  }

  /** Row-strided offset `y * step + x` of an in-bounds pixel: where its
      intensity lives. */
  function Offset(img: Image, p: Point): (o: int)
    requires img.Valid() && InBounds(img, p)
    ensures 0 <= o < |img.gray| && o <= IntMax
  {
    MulMono(p.y, img.height - 1, img.step);
    MulMono(0, p.y, img.step);
    p.y * img.step + p.x
  }

  function Pixel(img: Image, p: Point): Byte
    requires img.Valid() && InBounds(img, p)
  {
    img.gray[Offset(img, p)]
  }

  /** Only pixels strictly brighter than the threshold belong to a blob. */
  predicate Foreground(img: Image, threshold: int, p: Point)
    requires img.Valid()
  {
    InBounds(img, p) && Pixel(img, p) > threshold
  }

  /** Because pixels are bytes, a threshold of 255 or more leaves no
      foreground, and a negative one makes every pixel of the image foreground. */
  lemma ForegroundRange(img: Image, threshold: int)
    requires img.Valid()
    ensures threshold >= 255 ==> forall p :: !Foreground(img, threshold, p)
    ensures threshold < 0 ==> forall p :: Foreground(img, threshold, p) <==> InBounds(img, p)
  {
  }

  /** Two images of the same dimensions whose in-bounds pixels agree; their
      row strides, and so the padding bytes after each row, may differ. */
  ghost predicate SamePixels(a: Image, b: Image)
    requires a.Valid() && b.Valid()
  {
    a.width == b.width && a.height == b.height &&
    forall p :: InBounds(a, p) ==> Pixel(a, p) == Pixel(b, p)
  }

  /** Distinct pixels touching by an edge or a corner. */
  predicate Adjacent(p: Point, q: Point) {
    p != q && -1 <= p.x - q.x <= 1 && -1 <= p.y - q.y <= 1
  }

  /** The detector's neighbour offsets, in its order. */
  const Dx: seq<int> := [-1,  0,  1, -1, 1, -1, 0, 1]
  const Dy: seq<int> := [-1, -1, -1,  0, 0,  1, 1, 1]

  /** Neighbour `d` of `p`, offset by entry `d` of the table. */
  function Neighbour(p: Point, d: int): (r: Point)
    requires 0 <= d < 8
    ensures Adjacent(p, r)
  {
    Point(p.x + Dx[d], p.y + Dy[d])
  }

  /** The offset table lists exactly the 8-neighbourhood: each entry is
      adjacent, and every adjacent point is reached by some entry. */
  lemma NeighbourhoodComplete(p: Point, q: Point)
    ensures Adjacent(p, q) <==> exists d :: 0 <= d < 8 && Neighbour(p, d) == q
  {
    if Adjacent(p, q) {
      var d := (q.y - p.y + 1) * 3 + (q.x - p.x + 1);
      var d' := if d < 4 then d else d - 1;
      assert Neighbour(p, d') == q;
    }
  }

  /** A later row starts at least a whole row further on. */
  lemma RowsApart(a: int, b: int, width: int)
    requires a < b && 0 <= width
    ensures a * width + width <= b * width
  {
    MulMono(a + 1, b, width);
  }

  /** Distinct in-bounds pixels have distinct packed indices, so the visited
      marks of two pixels never share a cell. */
  lemma IdxInjective(img: Image, p: Point, q: Point)
    requires InBounds(img, p) && InBounds(img, q)
    requires Idx(img, p) == Idx(img, q)
    ensures p == q
  {
    if p.y < q.y {
      RowsApart(p.y, q.y, img.width);
    } else if q.y < p.y {
      RowsApart(q.y, p.y, img.width);
    }
  }

  /** Every packed index in [0, width * height) is the index of an in-bounds pixel. */
  lemma IdxOnto(img: Image, i: int)
    requires img.width > 0 && 0 <= i < img.width * img.height
    ensures InBounds(img, Point(i % img.width, i / img.width))
    ensures Idx(img, Point(i % img.width, i / img.width)) == i
  {
    var y := i / img.width;
    if y >= img.height {
      MulMono(img.height, y, img.width);
      assert false;
    }
  }

  lemma IdxInjectiveAll(img: Image)
    ensures forall p, q :: InBounds(img, p) && InBounds(img, q) && Idx(img, p) == Idx(img, q) ==> p == q
  {
    forall p, q | InBounds(img, p) && InBounds(img, q) && Idx(img, p) == Idx(img, q)
      ensures p == q
    {
      IdxInjective(img, p, q);
    }
  }
}
