/** The detector itself: a raster scan over the pixels that starts a
    breadth-first 8-connected flood fill from every unvisited foreground
    pixel, using a visited mark per pixel and an explicit queue, both sized
    width * height. A ghost set `v` mirrors the visited marks so that the
    loop invariants can be stated in terms of components. */
module Tracker {
  import opened Grid
  import opened Connectivity
  import opened Centroids
  import opened BlobSpec

  /** Number of cells already marked. */
  function CountTrue(s: seq<bool>): (n: nat)
    ensures n <= |s|
  {
    if |s| == 0 then 0 else CountTrue(s[..|s| - 1]) + (if s[|s| - 1] then 1 else 0)
  }

  /** Marking an unmarked cell raises the count by exactly one. */
  lemma {:induction false} CountTrueMark(s: seq<bool>, i: int)
    requires 0 <= i < |s| && !s[i]
    ensures CountTrue(s[i := true]) == CountTrue(s) + 1
  {
    var last := |s| - 1;
    if i == last {
      assert s[i := true][..last] == s[..last];
    } else {
      CountTrueMark(s[..last], i);
      assert s[i := true][..last] == s[..last][i := true];
    }
  }

  /** While some cell is unmarked, fewer than all cells are marked. */
  lemma CountTrueUnmarked(s: seq<bool>, i: int)
    requires 0 <= i < |s| && !s[i]
    ensures CountTrue(s) < |s|
  {
    CountTrueMark(s, i);
  }

  /** The visited marks `vis`, indexed by packed index, are exactly the set `v`. */
  ghost predicate Mirror(img: Image, vis: seq<bool>, v: set<Point>) {
    |vis| == img.width * img.height &&
    (forall p :: p in v ==> InBounds(img, p)) &&
    (forall p :: InBounds(img, p) ==> (vis[Idx(img, p)] <==> p in v))
  }

  lemma MirrorEmpty(img: Image, vis: seq<bool>)
    requires |vis| == img.width * img.height
    requires forall i :: 0 <= i < |vis| ==> !vis[i]
    ensures Mirror(img, vis, {})
  {
  }

  lemma MirrorMark(img: Image, vis: seq<bool>, v: set<Point>, r: Point)
    requires Mirror(img, vis, v) && InBounds(img, r)
    ensures Mirror(img, vis[Idx(img, r) := true], v + {r})
  {
    IdxInjectiveAll(img);
  }

  /** Every in-bounds neighbour of `p` has been visited. */
  ghost predicate Expanded(img: Image, v: set<Point>, p: Point) {
    forall r :: InBounds(img, r) && Adjacent(p, r) ==> r in v
  }

  /** The in-bounds neighbours of `p` given by the first `d` offsets are visited. */
  ghost predicate Covered(img: Image, v: set<Point>, p: Point, d: int) {
    forall e :: 0 <= e < d && e < 8 ==> InBounds(img, Neighbour(p, e)) ==> Neighbour(p, e) in v
  }

  lemma CoveredNext(img: Image, v: set<Point>, v': set<Point>, p: Point, d: int)
    requires Covered(img, v, p, d) && v <= v' && 0 <= d < 8
    requires InBounds(img, Neighbour(p, d)) ==> Neighbour(p, d) in v'
    ensures Covered(img, v', p, d + 1)
  {
  }

  lemma NeighboursExpanded(img: Image, v: set<Point>, p: Point)
    requires Covered(img, v, p, 8)
    ensures Expanded(img, v, p)
  {
    forall r | InBounds(img, r) && Adjacent(p, r)
      ensures r in v
    {
      NeighbourhoodComplete(p, r);
    }
  }

  /** State of one flood fill from `seed`: `v0` was visited before it began,
      `q` is the queue's filled prefix and the first `start` entries have
      been taken out and had their neighbours examined. */
  ghost predicate FillInv(img: Image, threshold: int, vis: seq<bool>, v0: set<Point>, v: set<Point>,
                          q: seq<Point>, start: int, seed: Point)
    requires img.Valid()
  {
    Mirror(img, vis, v) && v0 <= v &&
    0 < |q| <= CountTrue(vis) && q[0] == seed && 0 <= start <= |q| &&
    (forall i :: 0 <= i < |q| ==>
       Foreground(img, threshold, q[i]) && q[i] in v && q[i] !in v0 && Reach(img, threshold, seed, q[i])) &&
    Distinct(q) &&
    (forall p :: p in v && p !in v0 && Foreground(img, threshold, p) ==> p in q) &&
    (forall i :: 0 <= i < start ==> Expanded(img, v, q[i]))
  }

  lemma FillStart(img: Image, threshold: int, vis: seq<bool>, v0: set<Point>, seed: Point)
    requires img.Valid() && Mirror(img, vis, v0)
    requires Foreground(img, threshold, seed) && seed !in v0
    ensures FillInv(img, threshold, vis[Idx(img, seed) := true], v0, v0 + {seed}, [seed], 0, seed)
  {
    MirrorMark(img, vis, v0, seed);
    CountTrueMark(vis, Idx(img, seed));
    ReachRefl(img, threshold, seed);
  }

  /** Marking a background neighbour keeps the fill's state. */
  lemma FillMarkBackground(img: Image, threshold: int, vis: seq<bool>, v0: set<Point>, v: set<Point>,
                           q: seq<Point>, start: int, seed: Point, r: Point)
    requires img.Valid() && FillInv(img, threshold, vis, v0, v, q, start, seed)
    requires InBounds(img, r) && !Foreground(img, threshold, r) && r !in v
    ensures FillInv(img, threshold, vis[Idx(img, r) := true], v0, v + {r}, q, start, seed)
  {
    MirrorMark(img, vis, v, r);
    CountTrueMark(vis, Idx(img, r));
    forall i | 0 <= i < start
      ensures Expanded(img, v + {r}, q[i])
    {
      assert Expanded(img, v, q[i]);
    }
  }

  /** Marking and enqueueing a foreground neighbour of a queued pixel keeps
      the fill's state. */
  lemma FillEnqueue(img: Image, threshold: int, vis: seq<bool>, v0: set<Point>, v: set<Point>,
                    q: seq<Point>, start: int, seed: Point, k: int, r: Point)
    requires img.Valid() && FillInv(img, threshold, vis, v0, v, q, start, seed)
    requires 0 <= k < |q| && Adjacent(q[k], r)
    requires Foreground(img, threshold, r) && r !in v
    ensures FillInv(img, threshold, vis[Idx(img, r) := true], v0, v + {r}, q + [r], start, seed)
  {
    MirrorMark(img, vis, v, r);
    CountTrueMark(vis, Idx(img, r));
    ReachStep(img, threshold, seed, q[k], r);
    var q' := q + [r];
    forall i | 0 <= i < start
      ensures Expanded(img, v + {r}, q'[i])
    {
      assert Expanded(img, v, q[i]);
    }
  }

  /** Whether examining neighbour `r` marks it: it is on the image and not
      yet visited. A fresh pixel leaves some mark clear, so fewer than all
      cells are marked. */
  predicate Fresh(img: Image, vis: seq<bool>, r: Point)
    requires |vis| == img.width * img.height
    ensures Fresh(img, vis, r) ==> InBounds(img, r) && CountTrue(vis) < |vis|
  {
    if InBounds(img, r) && !vis[Idx(img, r)] then
      CountTrueUnmarked(vis, Idx(img, r));
      true
    else
      false
  }

  /** The visited marks after examining neighbour `r`: existing marks stay,
      and exactly one more is set when `r` is fresh. */
  function VisitMarks(img: Image, vis: seq<bool>, r: Point): (m: seq<bool>)
    requires |vis| == img.width * img.height
    ensures |m| == |vis| && forall i :: 0 <= i < |vis| && vis[i] ==> m[i]
    ensures CountTrue(m) == CountTrue(vis) + (if Fresh(img, vis, r) then 1 else 0)
    ensures Fresh(img, vis, r) ==> m[Idx(img, r)]
  {
    if Fresh(img, vis, r) then
      CountTrueMark(vis, Idx(img, r));
      vis[Idx(img, r) := true]
    else
      vis
  }

  /** The visited set after examining neighbour `r`; it mirrors the marks
      whenever the set before did. */
  ghost function VisitSet(img: Image, vis: seq<bool>, v: set<Point>, r: Point): (s: set<Point>)
    requires |vis| == img.width * img.height
    ensures v <= s && (InBounds(img, r) && Mirror(img, vis, v) ==> r in s)
    ensures Mirror(img, vis, v) ==> Mirror(img, VisitMarks(img, vis, r), s)
  {
    if Fresh(img, vis, r) then
      assert Mirror(img, vis, v) ==> Mirror(img, vis[Idx(img, r) := true], v + {r}) by {
        if Mirror(img, vis, v) {
          MirrorMark(img, vis, v, r);
        }
      }
      v + {r}
    else
      v
  }

  /** The queue after examining neighbour `r`: it is extended at its end by at
      most one pixel, and it is extended exactly when `r` is a fresh
      foreground pixel, which is then the new last entry. */
  function VisitQueue(img: Image, threshold: int, vis: seq<bool>, q: seq<Point>, r: Point): (n: seq<Point>)
    requires img.Valid() && |vis| == img.width * img.height
    ensures q <= n && |n| <= |q| + 1
    ensures |n| == |q| + 1 <==> Fresh(img, vis, r) && Foreground(img, threshold, r)
    ensures |n| == |q| + 1 ==> n[|q|] == r
  {
    if Fresh(img, vis, r) && Pixel(img, r) > threshold then q + [r] else q
  }

  /** Examining a neighbour of a queued pixel keeps the fill's state, grows
      the visited set to include the neighbour, and only appends to the queue. */
  lemma FillVisit(img: Image, threshold: int, vis: seq<bool>, v0: set<Point>, v: set<Point>,
                  q: seq<Point>, start: int, seed: Point, k: int, r: Point)
    requires img.Valid() && FillInv(img, threshold, vis, v0, v, q, start, seed)
    requires 0 <= k < |q| && Adjacent(q[k], r)
    ensures FillInv(img, threshold, VisitMarks(img, vis, r), v0, VisitSet(img, vis, v, r),
                    VisitQueue(img, threshold, vis, q, r), start, seed)
    ensures v <= VisitSet(img, vis, v, r) && (InBounds(img, r) ==> r in VisitSet(img, vis, v, r))
    ensures q <= VisitQueue(img, threshold, vis, q, r)
  {
    if Fresh(img, vis, r) {
      if Pixel(img, r) > threshold {
        FillEnqueue(img, threshold, vis, v0, v, q, start, seed, k, r);
      } else {
        FillMarkBackground(img, threshold, vis, v0, v, q, start, seed, r);
      }
    }
  }

  /** While some pixel is still unvisited the queue holds fewer than
      width * height entries, so enqueueing a fresh pixel never overflows it. */
  lemma QueueFits(img: Image, threshold: int, vis: seq<bool>, v0: set<Point>, v: set<Point>,
                  q: seq<Point>, start: int, seed: Point, r: Point)
    requires img.Valid() && FillInv(img, threshold, vis, v0, v, q, start, seed)
    requires Fresh(img, vis, r)
    ensures |q| < img.width * img.height
  {
    CountTrueUnmarked(vis, Idx(img, r));
  }

  lemma FillDequeue(img: Image, threshold: int, vis: seq<bool>, v0: set<Point>, v: set<Point>,
                    q: seq<Point>, start: int, seed: Point)
    requires img.Valid() && FillInv(img, threshold, vis, v0, v, q, start, seed)
    requires start < |q| && Expanded(img, v, q[start])
    ensures FillInv(img, threshold, vis, v0, v, q, start + 1, seed)
  {
  }

  /** When the queue is drained, it holds exactly the seed's component: the
      queued pixels are closed under foreground adjacency because the pixels
      visited before the fill were. */
  lemma FillEnd(img: Image, threshold: int, vis: seq<bool>, v0: set<Point>, v: set<Point>,
                q: seq<Point>, seed: Point)
    requires img.Valid() && FillInv(img, threshold, vis, v0, v, q, |q|, seed)
    requires ClosedFg(img, threshold, v0)
    ensures Elems(q) == Component(img, threshold, seed)
    ensures ClosedFg(img, threshold, v)
    ensures Component(img, threshold, seed) <= v
    ensures forall p :: p in v && p !in v0 && Foreground(img, threshold, p) ==> p in Component(img, threshold, seed)
  {
    var c := Elems(q);
    forall a, b | a in c && Foreground(img, threshold, a) && Foreground(img, threshold, b) && Adjacent(a, b)
      ensures b in c
    {
      var i :| 0 <= i < |q| && q[i] == a;
      assert Expanded(img, v, q[i]);
      if b in v0 {
        assert Adjacent(b, a);
        assert false;
      }
    }
    assert ClosedFg(img, threshold, c);
    ComponentWithin(img, threshold, c, seed);
    assert forall p :: p in c ==> p in Component(img, threshold, seed);
  }

  /** What a drained queue yields: its length and coordinate sums are the
      component's size and raster-order sums, and the truncated means lie
      inside the image. */
  lemma FillTotals(img: Image, threshold: int, vis: seq<bool>, v0: set<Point>, v: set<Point>,
                   q: seq<Point>, seed: Point, count: int, sumX: int, sumY: int)
    requires img.Valid() && FillInv(img, threshold, vis, v0, v, q, |q|, seed)
    requires ClosedFg(img, threshold, v0)
    requires count == |q| && sumX == SeqSum(q, X) && sumY == SeqSum(q, Y)
    ensures Mirror(img, vis, v) && ClosedFg(img, threshold, v)
    ensures v0 <= v && Component(img, threshold, seed) <= v
    ensures forall p :: p in v && p !in v0 && Foreground(img, threshold, p) ==> p in Component(img, threshold, seed)
    ensures count == |Component(img, threshold, seed)| && count > 0
    ensures sumX == SetSum(img, Component(img, threshold, seed), X)
    ensures sumY == SetSum(img, Component(img, threshold, seed), Y)
    ensures 0 <= sumX / count < img.width && 0 <= sumY / count < img.height
  {
    FillEnd(img, threshold, vis, v0, v, q, seed);
    SeqSumIsSetSum(img, q, X);
    SeqSumIsSetSum(img, q, Y);
    SeqMeanBounds(img, q, X);
    SeqMeanBounds(img, q, Y);
  }

  /** State of the raster scan at cursor `cur`: every pixel before the cursor
      is visited, the visited foreground is closed under adjacency, and no
      visited foreground pixel at or after the cursor starts a component. */
  ghost predicate ScanInv(img: Image, threshold: int, vis: seq<bool>, v: set<Point>, cur: Point)
    requires img.Valid()
  {
    Mirror(img, vis, v) && ClosedFg(img, threshold, v) &&
    (forall p :: InBounds(img, p) && RasterBefore(p, cur) ==> p in v) &&
    (forall p :: p in v && Foreground(img, threshold, p) && !RasterBefore(p, cur) ==> !IsSeed(img, threshold, p))
  }

  lemma ScanStart(img: Image, threshold: int, vis: seq<bool>)
    requires img.Valid() && |vis| == img.width * img.height
    requires forall i :: 0 <= i < |vis| ==> !vis[i]
    ensures ScanInv(img, threshold, vis, {}, Point(0, 0))
  {
    MirrorEmpty(img, vis);
  }

  /** An already visited pixel is not a seed; the scan moves on. */
  lemma ScanSkip(img: Image, threshold: int, vis: seq<bool>, v: set<Point>, cur: Point)
    requires img.Valid() && ScanInv(img, threshold, vis, v, cur)
    requires InBounds(img, cur) && cur in v
    ensures !IsSeed(img, threshold, cur)
    ensures ScanInv(img, threshold, vis, v, Point(cur.x + 1, cur.y))
  {
  }

  /** An unvisited background pixel is marked and is not a seed. */
  lemma ScanBackground(img: Image, threshold: int, vis: seq<bool>, v: set<Point>, cur: Point)
    requires img.Valid() && ScanInv(img, threshold, vis, v, cur)
    requires InBounds(img, cur) && cur !in v && !Foreground(img, threshold, cur)
    ensures !IsSeed(img, threshold, cur)
    ensures ScanInv(img, threshold, vis[Idx(img, cur) := true], v + {cur}, Point(cur.x + 1, cur.y))
  {
    MirrorMark(img, vis, v, cur);
  }

  /** An unvisited foreground pixel is the raster-first pixel of its component. */
  lemma ScanSeed(img: Image, threshold: int, vis: seq<bool>, v: set<Point>, cur: Point)
    requires img.Valid() && ScanInv(img, threshold, vis, v, cur)
    requires cur !in v && Foreground(img, threshold, cur)
    ensures IsSeed(img, threshold, cur)
  {
    forall q | q in Component(img, threshold, cur)
      ensures !RasterBefore(q, cur)
    {
      if RasterBefore(q, cur) {
        assert q in v;
        ReachSymmetric(img, threshold, cur, q);
        ReachEnds(img, threshold, q, cur);
        ComponentWithin(img, threshold, v, q);
        assert false;
      }
    }
  }

  /** After the fill from a seed, the scan state holds one pixel further on. */
  lemma ScanAfterFill(img: Image, threshold: int, vis0: seq<bool>, v0: set<Point>,
                      vis: seq<bool>, v: set<Point>, cur: Point)
    requires img.Valid() && ScanInv(img, threshold, vis0, v0, cur)
    requires Foreground(img, threshold, cur) && cur !in v0
    requires Mirror(img, vis, v) && ClosedFg(img, threshold, v)
    requires v0 <= v && Component(img, threshold, cur) <= v
    requires forall p :: p in v && p !in v0 && Foreground(img, threshold, p) ==> p in Component(img, threshold, cur)
    ensures ScanInv(img, threshold, vis, v, Point(cur.x + 1, cur.y))
  {
    var next := Point(cur.x + 1, cur.y);
    ReachRefl(img, threshold, cur);
    forall p | p in v && Foreground(img, threshold, p) && !RasterBefore(p, next)
      ensures !IsSeed(img, threshold, p)
    {
      if p !in v0 {
        assert p in Component(img, threshold, cur);
        ReachSymmetric(img, threshold, cur, p);
        assert cur in Component(img, threshold, p);
        assert RasterBefore(cur, p);
      }
    }
  }

  /** Once the scan has passed the last row, every pixel has been visited. */
  lemma ScanComplete(img: Image, threshold: int, vis: seq<bool>, v: set<Point>)
    requires img.Valid() && img.width > 0 && ScanInv(img, threshold, vis, v, Point(0, img.height))
    ensures forall i :: 0 <= i < |vis| ==> vis[i]
  {
    forall i | 0 <= i < |vis|
      ensures vis[i]
    {
      IdxOnto(img, i);
    }
  }

  lemma ScanRowEnd(img: Image, threshold: int, vis: seq<bool>, v: set<Point>, y: int)
    requires img.Valid() && ScanInv(img, threshold, vis, v, Point(img.width, y))
    ensures ScanInv(img, threshold, vis, v, Point(0, y + 1))
  {
  }

  lemma EmittedNone(img: Image, prm: Params, p: Point)
    requires img.Valid() && !IsSeed(img, prm.threshold, p)
    ensures Emitted(img, prm, p) == []
  {
  }

  lemma EmittedSeed(img: Image, prm: Params, p: Point)
    requires img.Valid() && IsSeed(img, prm.threshold, p)
    ensures |Component(img, prm.threshold, p)| > 0
    ensures Emitted(img, prm, p) ==
              if prm.minArea <= |Component(img, prm.threshold, p)| <= prm.maxArea
              then [BlobOf(img, Component(img, prm.threshold, p))]
              else []
  {
    ReachRefl(img, prm.threshold, p);
  }

  /** Examine neighbour `d` of the queued pixel p == q[k]: ignore it when it
      is off the image or already visited, otherwise mark it visited and
      enqueue it when it is foreground. The ghost `vis` and `q` are the
      visited marks and the queue's filled prefix on entry, `vis'` and `q'`
      on exit. */
  method VisitNeighbour(img: Image, threshold: int, visited: array<bool>, queue: array<Point>,
                        end: int, p: Point, d: int, ghost k: int, ghost v0: set<Point>, ghost v: set<Point>,
                        ghost seed: Point, ghost vis: seq<bool>, ghost q: seq<Point>)
    returns (end': int, ghost v': set<Point>, ghost vis': seq<bool>, ghost q': seq<Point>)
    requires img.Valid()
    requires visited.Length == img.width * img.height && queue.Length == img.width * img.height
    requires 0 <= end <= queue.Length && visited[..] == vis && queue[..end] == q
    requires FillInv(img, threshold, vis, v0, v, q, k, seed)
    requires 0 <= k < end && q[k] == p && 0 <= d < 8
    modifies visited, queue
    ensures end <= end' <= queue.Length && visited[..] == vis' && queue[..end'] == q' && q <= q'
    ensures FillInv(img, threshold, vis', v0, v', q', k, seed)
    ensures v <= v' && (InBounds(img, Neighbour(p, d)) ==> Neighbour(p, d) in v')
    ensures v' == VisitSet(img, vis, v, Neighbour(p, d)) && vis' == VisitMarks(img, vis, Neighbour(p, d))
    ensures q' == VisitQueue(img, threshold, vis, q, Neighbour(p, d))
  {
    var r := Neighbour(p, d);
    NeighbourhoodComplete(p, r);
    FillVisit(img, threshold, vis, v0, v, q, k, seed, k, r);
    end', v', vis', q' := end, VisitSet(img, vis, v, r), VisitMarks(img, vis, r), VisitQueue(img, threshold, vis, q, r);
    if !(0 <= r.x < img.width && 0 <= r.y < img.height) {
      return;
    }
    var nindex := Idx(img, r);
    if visited[nindex] {
      return;
    }
    visited[nindex] := true;
    if Pixel(img, r) > threshold {
      QueueFits(img, threshold, vis, v0, v, q, k, seed, r);
      queue[end] := r;
      end' := end + 1;
    }
    assert queue[..end'] == q';
    assert visited[..] == vis';
  }

  /** Examine all eight neighbours of the dequeued pixel p == q[k], in the
      order of the offset table. */
  method ExpandPixel(img: Image, threshold: int, visited: array<bool>, queue: array<Point>,
                     end: int, p: Point, ghost k: int, ghost v0: set<Point>, ghost v: set<Point>,
                     ghost seed: Point, ghost vis: seq<bool>, ghost q: seq<Point>)
    returns (end': int, ghost v': set<Point>, ghost vis': seq<bool>, ghost q': seq<Point>)
    requires img.Valid()
    requires visited.Length == img.width * img.height && queue.Length == img.width * img.height
    requires 0 <= end <= queue.Length && visited[..] == vis && queue[..end] == q
    requires FillInv(img, threshold, vis, v0, v, q, k, seed)
    requires 0 <= k < end && q[k] == p
    modifies visited, queue
    ensures end <= end' <= queue.Length && visited[..] == vis' && queue[..end'] == q' && q <= q'
    ensures FillInv(img, threshold, vis', v0, v', q', k + 1, seed)
  {
    end', v', vis', q' := end, v, vis, q;
    for d := 0 to 8
      invariant end <= end' <= queue.Length && visited[..] == vis' && queue[..end'] == q' && q <= q'
      invariant FillInv(img, threshold, vis', v0, v', q', k, seed)
      invariant Covered(img, v', p, d)
    {
      ghost var before := v';
      end', v', vis', q' := VisitNeighbour(img, threshold, visited, queue, end', p, d, k, v0, v', seed, vis', q');
      CoveredNext(img, before, v', p, d);
    }
    NeighboursExpanded(img, v', p);
    FillDequeue(img, threshold, vis', v0, v', q', k, seed);
  }

  /** Start a fill: the seed becomes the queue's only entry and is marked visited. */
  method EnqueueSeed(img: Image, threshold: int, visited: array<bool>, queue: array<Point>,
                     seed: Point, ghost v0: set<Point>)
    returns (end: int, ghost v: set<Point>, ghost vis: seq<bool>, ghost q: seq<Point>)
    requires img.Valid()
    requires visited.Length == img.width * img.height && queue.Length == img.width * img.height
    requires Mirror(img, visited[..], v0)
    requires Foreground(img, threshold, seed) && seed !in v0
    modifies visited, queue
    ensures 0 < end <= queue.Length && visited[..] == vis && queue[..end] == q
    ensures end == 1 && q == [seed] && v == v0 + {seed}
    ensures FillInv(img, threshold, vis, v0, v, q, 0, seed)
  {
    var index := Idx(img, seed);
    FillStart(img, threshold, visited[..], v0, seed);
    v, vis, q := v0 + {seed}, visited[..][index := true], [seed];
    end := 0;
    queue[end] := seed;
    end := end + 1;
    visited[index] := true;
    assert queue[..end] == q;
    assert visited[..] == vis;
  }

  /** One breadth-first flood fill from `seed`. It counts, and sums the
      coordinates of, exactly the pixels of the seed's 8-connected foreground
      component and marks all of them visited, while the only foreground
      pixels it newly marks are theirs; the queue never needs more than
      width * height entries. */
  method FloodFill(img: Image, threshold: int, visited: array<bool>, queue: array<Point>,
                   seed: Point, ghost v0: set<Point>)
    returns (count: int, sumX: int, sumY: int, ghost v: set<Point>)
    requires img.Valid()
    requires visited.Length == img.width * img.height && queue.Length == img.width * img.height
    requires Mirror(img, visited[..], v0) && ClosedFg(img, threshold, v0)
    requires Foreground(img, threshold, seed) && seed !in v0
    modifies visited, queue
    ensures Mirror(img, visited[..], v) && ClosedFg(img, threshold, v)
    ensures v0 <= v && Component(img, threshold, seed) <= v
    ensures forall p :: p in v && p !in v0 && Foreground(img, threshold, p) ==> p in Component(img, threshold, seed)
    ensures count == |Component(img, threshold, seed)| && count > 0
    ensures sumX == SetSum(img, Component(img, threshold, seed), X)
    ensures sumY == SetSum(img, Component(img, threshold, seed), Y)
    ensures 0 <= sumX / count < img.width && 0 <= sumY / count < img.height
  {
    var start, end := 0, 0;
    ghost var vis, q;
    end, v, vis, q := EnqueueSeed(img, threshold, visited, queue, seed, v0);
    count, sumX, sumY := 0, 0, 0;
    while start < end
      invariant 0 <= start <= end <= queue.Length && visited[..] == vis && queue[..end] == q
      invariant FillInv(img, threshold, vis, v0, v, q, start, seed)
      invariant count == start
      invariant sumX == SeqSum(q[..start], X) && sumY == SeqSum(q[..start], Y)
      decreases queue.Length - start
    {
      var p := queue[start];
      SeqSumNext(q, start, X);
      SeqSumNext(q, start, Y);
      ghost var done := q[..start + 1];
      sumX := sumX + p.x;
      sumY := sumY + p.y;
      count := count + 1;
      end, v, vis, q := ExpandPixel(img, threshold, visited, queue, end, p, start, v0, v, seed, vis, q);
      start := start + 1;
      assert q[..start] == done;
    }
    assert q[..start] == q;
    FillTotals(img, threshold, vis, v0, v, q, seed, count, sumX, sumY);
  }

  /** The detector's work at one pixel `p` of the raster scan: skip it if
      visited, mark it if background, otherwise flood-fill its component and
      record the blob when the area passes and there is room. */
  method ScanPixel(img: Image, prm: Params, maxBlobs: int, visited: array<bool>, queue: array<Point>,
                   p: Point, n: int, blobs: seq<Blob>, ghost v: set<Point>, ghost vis: seq<bool>)
    returns (n': int, blobs': seq<Blob>, ghost v': set<Point>, ghost vis': seq<bool>)
    requires img.Valid() && InBounds(img, p)
    requires visited.Length == img.width * img.height && queue.Length == img.width * img.height
    requires visited[..] == vis && ScanInv(img, prm.threshold, vis, v, p)
    requires blobs == Cap(Scanned(img, prm, p.y, p.x), maxBlobs) && n == |blobs|
    requires forall i :: 0 <= i < n ==> BlobFits(img, prm, blobs[i])
    modifies visited, queue
    ensures visited[..] == vis' && ScanInv(img, prm.threshold, vis', v', Point(p.x + 1, p.y))
    ensures blobs' == Cap(Scanned(img, prm, p.y, p.x + 1), maxBlobs) && n' == |blobs'|
    ensures forall i :: 0 <= i < n' ==> BlobFits(img, prm, blobs'[i])
    ensures vis[Idx(img, p)] ==> v' == v && vis' == vis
  {
    n', blobs', v' := n, blobs, v;
    var index := Idx(img, p);
    ScannedNext(img, prm, p.y, p.x);
    if visited[index] {
      ScanSkip(img, prm.threshold, visited[..], v, p);
      EmittedNone(img, prm, p);
    } else if Pixel(img, p) <= prm.threshold {
      visited[index] := true;
      ScanBackground(img, prm.threshold, vis, v, p);
      EmittedNone(img, prm, p);
      v' := v + {p};
      assert visited[..] == vis[index := true];
    } else {
      ghost var vis0 := visited[..];
      ScanSeed(img, prm.threshold, vis0, v, p);
      var count, sumX, sumY;
      count, sumX, sumY, v' := FloodFill(img, prm.threshold, visited, queue, p, v);
      ScanAfterFill(img, prm.threshold, vis0, v, visited[..], v', p);
      EmittedSeed(img, prm, p);
      if prm.minArea <= count && count <= prm.maxArea {
        CapAppend(Scanned(img, prm, p.y, p.x), Blob(sumX / count, sumY / count, count), maxBlobs);
        if n < maxBlobs {
          blobs' := blobs + [Blob(sumX / count, sumY / count, count)];
          n' := n + 1;
        }
      }
    }
    vis' := visited[..];
  }

  /** One row of the raster scan: afterwards the blobs are the capped blobs
      of every seed in the rows before the next one. */
  method ScanRow(img: Image, prm: Params, maxBlobs: int, visited: array<bool>, queue: array<Point>,
                 y: int, n: int, blobs: seq<Blob>, ghost v: set<Point>)
    returns (n': int, blobs': seq<Blob>, ghost v': set<Point>)
    requires img.Valid() && img.width > 0 && 0 <= y < img.height
    requires visited.Length == img.width * img.height && queue.Length == img.width * img.height
    requires ScanInv(img, prm.threshold, visited[..], v, Point(0, y))
    requires blobs == Cap(Scanned(img, prm, y, 0), maxBlobs) && n == |blobs|
    requires forall i :: 0 <= i < n ==> BlobFits(img, prm, blobs[i])
    modifies visited, queue
    ensures ScanInv(img, prm.threshold, visited[..], v', Point(0, y + 1))
    ensures blobs' == Cap(Scanned(img, prm, y + 1, 0), maxBlobs) && n' == |blobs'|
    ensures forall i :: 0 <= i < n' ==> BlobFits(img, prm, blobs'[i])
  {
    n', blobs', v' := n, blobs, v;
    ghost var vis := visited[..];
    for x := 0 to img.width
      invariant visited[..] == vis && ScanInv(img, prm.threshold, vis, v', Point(x, y))
      invariant blobs' == Cap(Scanned(img, prm, y, x), maxBlobs) && n' == |blobs'|
      invariant forall i :: 0 <= i < n' ==> BlobFits(img, prm, blobs'[i])
    {
      n', blobs', v', vis := ScanPixel(img, prm, maxBlobs, visited, queue, Point(x, y), n', blobs', v', vis);
    }
    ScanRowEnd(img, prm.threshold, vis, v', y);
    ScannedNextRow(img, prm, y);
  }

  /** The detector: returns the number of blobs written and the blobs
      themselves, which are the first `maxBlobs` qualifying components in
      raster order of their first pixel. */
  method DetectBlobs(img: Image, prm: Params, maxBlobs: int) returns (n: int, blobs: seq<Blob>)
    requires img.Valid()
    ensures n == |blobs| && 0 <= n <= (if maxBlobs < 0 then 0 else maxBlobs)
    ensures forall i :: 0 <= i < n ==> BlobFits(img, prm, blobs[i])
    ensures blobs == Expected(img, prm, maxBlobs)
  {
    n, blobs := 0, [];
    if img.width <= 0 || img.height <= 0 {
      return;
    }
    var size := img.width * img.height;
    var visited := new bool[size](_ => false);
    var queue := new Point[size](_ => Point(0, 0));
    ghost var v: set<Point> := {};
    ScanStart(img, prm.threshold, visited[..]);
    for y := 0 to img.height
      invariant ScanInv(img, prm.threshold, visited[..], v, Point(0, y))
      invariant blobs == Cap(Scanned(img, prm, y, 0), maxBlobs) && n == |blobs|
      invariant forall i :: 0 <= i < n ==> BlobFits(img, prm, blobs[i])
    {
      n, blobs, v := ScanRow(img, prm, maxBlobs, visited, queue, y, n, blobs, v);
    }
    ScanComplete(img, prm.threshold, visited[..], v);
  }
}
