/**
 * Turning a solver trajectory into line segments for drawing.
 *
 * A trajectory is an ordered list of points of the search space, each a
 * map from variable to value. Plotting uses only the variables "x" and "y":
 * every point becomes a 2-D vector, and consecutive vectors are joined by
 * segments. The coordinates are only copied, never computed with, so the
 * coordinate type is a type parameter.
 */
module Visuals {

  /** A 2-D vector; the source uses the same struct for points. */
  datatype Vector<T> = Vector(x: T, y: T)

  type Point<T> = Vector<T>

  /** A line segment between two points, in drawing order. */
  datatype Segment<T> = Segment(startPoint: Point<T>, endPoint: Point<T>)

  /**
   * One point of the search space. The source keys it by variable
   * expressions; the variables used for plotting are `Variable("x")` and
   * `Variable("y")`, which compare by name, so the model keys by name.
   */
  type Values<T> = map<string, T>

  /** The point can be plotted: both plotting variables have a value. */
  predicate HasXY<T>(v: Values<T>) {
    "x" in v && "y" in v
  }

  /** Every point of the trajectory can be plotted. */
  predicate Plottable<T>(path: seq<Values<T>>) {
    forall i :: 0 <= i < |path| ==> HasXY(path[i])
  }

  /** The plotted position of a point; any other variables are dropped. */
  function PointOf<T>(v: Values<T>): Point<T>
    requires HasXY(v)
  {
    Vector(v["x"], v["y"])
  }

  /**
   * The inner loop of the conversion: `start` is the previous point,
   * `segments` the segments built so far. Each step joins `start` to the
   * next point of `path`, appends that segment at the end and moves on.
   * The previous point is only read when there is a next point to join.
   */
  function Iter<T>(start: Values<T>, path: seq<Values<T>>, segments: seq<Segment<T>>): (r: seq<Segment<T>>)
    requires |path| > 0 ==> HasXY(start)
    requires Plottable(path)
    ensures |r| == |segments| + |path|
    ensures r[..|segments|] == segments
    decreases |path|
  {
    if |path| > 0 then
      var finish := path[0];
      var segment := Segment(PointOf(start), PointOf(finish));
      Iter(finish, path[1..], segments + [segment])
    else
      segments
  }

  /**
   * The segments of a trajectory. The walk starts at the first point and
   * visits the whole trajectory, first point included, so there is one
   * segment per point. An empty trajectory and a point without "x" or "y"
   * are fatal errors in the source, hence the preconditions.
   */
  function PathToSegments<T>(path: seq<Values<T>>): (r: seq<Segment<T>>)
    requires |path| > 0
    requires Plottable(path)
    ensures |r| == |path|
  {
    Iter(path[0], path, [])
  }

  /** The last point of a non-empty trajectory. */
  function Last<T>(path: seq<Values<T>>): Values<T>
    requires |path| > 0
  {
    path[|path| - 1]
  }

  /** The plotted positions of a trajectory, in order. */
  function Points<T>(path: seq<Values<T>>): (ps: seq<Point<T>>)
    requires Plottable(path)
    ensures |ps| == |path|
    decreases |path|
  {
    if |path| == 0 then [] else [PointOf(path[0])] + Points(path[1..])
  }

  /** Segments joining `starts[i]` to `ends[i]`, pair by pair. */
  function Joins<T>(starts: seq<Point<T>>, ends: seq<Point<T>>): (r: seq<Segment<T>>)
    requires |starts| == |ends|
    ensures |r| == |starts|
    decreases |starts|
  {
    if |starts| == 0 then [] else [Segment(starts[0], ends[0])] + Joins(starts[1..], ends[1..])
  }

  /**
   * Reference definition of the conversion, independent of the walk: pair
   * each position with its predecessor, the first position standing in as
   * its own predecessor.
   */
  function ReferenceSegments<T>(path: seq<Values<T>>): (r: seq<Segment<T>>)
    requires |path| > 0
    requires Plottable(path)
    ensures |r| == |path|
  {
    var ps := Points(path);
    Joins([ps[0]] + ps[..|ps| - 1], ps)
  }

  // ---------------------------------------------------------------------
  // The inner loop

  /** Segment `k` produced by the walk joins the point before path[k] to path[k]. */
  lemma {:induction false} IterAt<T>(start: Values<T>, path: seq<Values<T>>, segments: seq<Segment<T>>, k: nat)
    requires |path| > 0 ==> HasXY(start)
    requires Plottable(path)
    requires k < |path|
    ensures Iter(start, path, segments)[|segments| + k]
            == Segment(PointOf(if k == 0 then start else path[k - 1]), PointOf(path[k]))
    decreases |path|
  {
    var segment := Segment(PointOf(start), PointOf(path[0]));
    var r := Iter(start, path, segments);
    assert r == Iter(path[0], path[1..], segments + [segment]);
    if k == 0 {
      assert r[..|segments| + 1] == segments + [segment];
      assert r[|segments|] == r[..|segments| + 1][|segments|];
    } else {
      IterAt(path[0], path[1..], segments + [segment], k - 1);
    }
  }

  /** The accumulator is only ever extended at its end. */
  lemma {:induction false} IterAccumulates<T>(start: Values<T>, path: seq<Values<T>>, segments: seq<Segment<T>>)
    requires |path| > 0 ==> HasXY(start)
    requires Plottable(path)
    ensures Iter(start, path, segments) == segments + Iter(start, path, [])
    decreases |path|
  {
    if |path| > 0 {
      var segment := Segment(PointOf(start), PointOf(path[0]));
      var rest := Iter(path[0], path[1..], []);
      calc {
        Iter(start, path, segments);
        Iter(path[0], path[1..], segments + [segment]);
        { IterAccumulates(path[0], path[1..], segments + [segment]); }
        segments + [segment] + rest;
        { IterAccumulates(path[0], path[1..], [segment]); }
        segments + Iter(path[0], path[1..], [segment]);
        { assert [] + [segment] == [segment]; }
        segments + Iter(path[0], path[1..], [] + [segment]);
        segments + Iter(start, path, []);
      }
    }
  }

  /** Walking one more point appends exactly one segment, at the end. */
  lemma {:induction false} IterSnoc<T>(start: Values<T>, path: seq<Values<T>>, segments: seq<Segment<T>>, q: Values<T>)
    requires HasXY(start)
    requires Plottable(path)
    requires HasXY(q)
    ensures Iter(start, path + [q], segments)
            == Iter(start, path, segments) + [Segment(PointOf(if |path| == 0 then start else Last(path)), PointOf(q))]
    decreases |path|
  {
    var pq := path + [q];
    assert Plottable(pq) by {
      forall i | 0 <= i < |pq| ensures HasXY(pq[i]) {
        if i < |path| { assert pq[i] == path[i]; }
      }
    }
    if |path| == 0 {
      assert pq == [q];
      assert pq[1..] == [];
    } else {
      var segment := Segment(PointOf(start), PointOf(path[0]));
      assert pq[0] == path[0];
      assert pq[1..] == path[1..] + [q];
      IterSnoc(path[0], path[1..], segments + [segment], q);
      if |path| > 1 {
        assert Last(path[1..]) == Last(path);
      }
    }
  }

  // ---------------------------------------------------------------------
  // Properties of the conversion

  /** Segment k (k >= 1) joins path[k-1] to path[k]; segment 0 joins path[0] to itself. */
  lemma SegmentAt<T>(path: seq<Values<T>>, k: nat)
    requires |path| > 0
    requires Plottable(path)
    requires k < |path|
    ensures PathToSegments(path)[k]
            == Segment(PointOf(path[if k == 0 then 0 else k - 1]), PointOf(path[k]))
  {
    IterAt(path[0], path, [], k);
  }

  /** The first segment is degenerate: it starts and ends at the first point. */
  lemma FirstSegmentIsDegenerate<T>(path: seq<Values<T>>)
    requires |path| > 0
    requires Plottable(path)
    ensures PathToSegments(path)[0].startPoint == PointOf(path[0])
    ensures PathToSegments(path)[0].endPoint == PointOf(path[0])
  {
    SegmentAt(path, 0);
  }

  /** Consecutive segments chain: each one ends where the next one starts. */
  lemma SegmentsChain<T>(path: seq<Values<T>>, k: nat)
    requires |path| > 0
    requires Plottable(path)
    requires k + 1 < |path|
    ensures PathToSegments(path)[k].endPoint == PathToSegments(path)[k + 1].startPoint
  {
    SegmentAt(path, k);
    SegmentAt(path, k + 1);
  }

  /** The drawn path ends at the last point of the trajectory. */
  lemma LastSegmentEndsAtLastPoint<T>(path: seq<Values<T>>)
    requires |path| > 0
    requires Plottable(path)
    ensures PathToSegments(path)[|path| - 1].endPoint == PointOf(Last(path))
  {
    SegmentAt(path, |path| - 1);
  }

  /**
   * Segments come out in trajectory order: extending the trajectory by one
   * point extends the segments by the one segment into that point.
   */
  lemma AppendPoint<T>(path: seq<Values<T>>, q: Values<T>)
    requires |path| > 0
    requires Plottable(path)
    requires HasXY(q)
    ensures Plottable(path + [q])
    ensures PathToSegments(path + [q])
            == PathToSegments(path) + [Segment(PointOf(Last(path)), PointOf(q))]
  {
    var pq := path + [q];
    forall i | 0 <= i < |pq| ensures HasXY(pq[i]) {
      if i < |path| { assert pq[i] == path[i]; }
    }
    assert pq[0] == path[0];
    IterSnoc(path[0], path, [], q);
  }

  lemma {:induction false} PointsAt<T>(path: seq<Values<T>>, i: nat)
    requires Plottable(path)
    requires i < |path|
    ensures Points(path)[i] == PointOf(path[i])
    decreases |path|
  {
    if i > 0 {
      PointsAt(path[1..], i - 1);
    }
  }

  lemma {:induction false} JoinsAt<T>(starts: seq<Point<T>>, ends: seq<Point<T>>, i: nat)
    requires |starts| == |ends|
    requires i < |starts|
    ensures Joins(starts, ends)[i] == Segment(starts[i], ends[i])
    decreases |starts|
  {
    if i > 0 {
      JoinsAt(starts[1..], ends[1..], i - 1);
    }
  }

  /** The walk computes the reference pairing of each position with its predecessor. */
  lemma MatchesReference<T>(path: seq<Values<T>>)
    requires |path| > 0
    requires Plottable(path)
    ensures PathToSegments(path) == ReferenceSegments(path)
  {
    var ps := Points(path);
    var starts := [ps[0]] + ps[..|ps| - 1];
    forall k | 0 <= k < |path|
      ensures PathToSegments(path)[k] == ReferenceSegments(path)[k]
    {
      SegmentAt(path, k);
      JoinsAt(starts, ps, k);
      PointsAt(path, k);
      PointsAt(path, if k == 0 then 0 else k - 1);
    }
  }

  /**
   * Only "x" and "y" matter: two trajectories with the same plotted
   * positions give the same segments, whatever else their points hold.
   */
  lemma IgnoresOtherVariables<T>(path: seq<Values<T>>, path': seq<Values<T>>)
    requires |path| > 0
    requires Plottable(path) && Plottable(path')
    requires |path'| == |path|
    requires forall i :: 0 <= i < |path| ==> PointOf(path[i]) == PointOf(path'[i])
    ensures PathToSegments(path) == PathToSegments(path')
  {
    forall k | 0 <= k < |path|
      ensures PathToSegments(path)[k] == PathToSegments(path')[k]
    {
      SegmentAt(path, k);
      SegmentAt(path', k);
    }
  }
}
