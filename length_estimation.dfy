/**
 * The length estimator of vol_est_yolov8/length_estimation/length_estimation.py.
 *
 * A centerline is an ordered list of points. The total length sums the length of
 * every consecutive pair; the length of one body part sums only the pairs whose
 * two endpoints both fall on a 1-cell of that part's mask. Both are scaled by the
 * mm/pixel factor k.
 */
module LengthEstimation {
  import opened Results
  import opened Geometry

  /** Python's int() on a float: truncation toward zero. */
  function Int(r: real): (i: int)
    ensures 0.0 <= r ==> i == r.Floor
    ensures r < 0.0 ==> i == -((-r).Floor)
  {
    if r < 0.0 then -((-r).Floor) else r.Floor
  }

  /**
   * The lookup mask[int(p.y), int(p.x)] reads a cell of the mask: both truncated
   * coordinates are valid, non-negative indices.
   */
  predicate InMask(mask: Mask, p: Point)
  {
    0 <= Int(p.y) < |mask| && 0 <= Int(p.x) < |mask[Int(p.y)]|
  }

  predicate AllInMask(mask: Mask, pts: seq<Point>)
  {
    forall i :: 0 <= i < |pts| ==> InMask(mask, pts[i])
  }

  /** The cell under a point: row int(y), column int(x). */
  function CellAt(mask: Mask, p: Point): int
    requires InMask(mask, p)
  {
    mask[Int(p.y)][Int(p.x)]
  }

  predicate OnPart(mask: Mask, p: Point)
    requires InMask(mask, p)
  {
    CellAt(mask, p) == 1
  }

  /**
   * A pair counts for a part when both of its endpoints are on the part. As with
   * Python's `and`, the second endpoint is looked up only when the first is on it.
   */
  predicate PairOnPart(mask: Mask, p: Point, q: Point)
    requires InMask(mask, p) && (OnPart(mask, p) ==> InMask(mask, q))
  {
    OnPart(mask, p) && OnPart(mask, q)
  }

  /**
   * Every lookup that _calculate_length makes reads a cell: for each pair, the
   * first endpoint, and the second endpoint when the first is on the part.
   */
  predicate LookupsInMask(mask: Mask, pts: seq<Point>)
  {
    forall j :: 0 <= j < |pts| - 1 ==>
      InMask(mask, pts[j]) && (OnPart(mask, pts[j]) ==> InMask(mask, pts[j + 1]))
  }

  /** The length of the segment from p to q: the norm of q - p. */
  function SegmentLength(norm: Norm, p: Point, q: Point): real
  {
    norm(Minus(q, p))
  }

  /** The unscaled total length: every consecutive pair, regardless of any mask. */
  function TotalRaw(norm: Norm, pts: seq<Point>): real
    decreases |pts|
  {
    if |pts| < 2 then 0.0
    else TotalRaw(norm, pts[..|pts| - 1]) + SegmentLength(norm, pts[|pts| - 2], pts[|pts| - 1])
  }

  /** The unscaled length of one part: the consecutive pairs with both endpoints on the mask. */
  function PartRaw(norm: Norm, pts: seq<Point>, mask: Mask): real
    requires LookupsInMask(mask, pts)
    decreases |pts|
  {
    if |pts| < 2 then 0.0
    else
      PartRaw(norm, pts[..|pts| - 1], mask) + PairTerm(norm, mask, pts[|pts| - 2], pts[|pts| - 1])
  }

  /** What one pair of consecutive points adds to a part: its length when both lie on the part, else nothing. */
  function PairTerm(norm: Norm, mask: Mask, p: Point, q: Point): real
    requires InMask(mask, p) && (OnPart(mask, p) ==> InMask(mask, q))
  {
    if PairOnPart(mask, p, q) then SegmentLength(norm, p, q) else 0.0
  }

  /** A raw pixel length converted with the factor k (mm/pixel). */
  function Scaled(raw: real, k: real): real
  {
    raw * k
  }

  /** The key under which a part's length is reported: f'length_{part}'. */
  function LengthKey(part: string): string
  {
    "length_" + part
  }

  lemma LengthKeyInjective(a: string, b: string)
    ensures LengthKey(a) == LengthKey(b) <==> a == b
  {
    if LengthKey(a) == LengthKey(b) {
      assert a == LengthKey(a)[7..];
      assert b == LengthKey(b)[7..];
    }
  }

  /** The keys reported for a set of parts. */
  ghost function LengthKeys(parts: set<string>): set<string>
  {
    set part | part in parts :: LengthKey(part)
  }

  lemma LengthKeysAdd(parts: set<string>, part: string)
    ensures LengthKeys(parts + {part}) == LengthKeys(parts) + {LengthKey(part)}
  {
  }

  class LengthEstimator {
    var points: seq<Point>
    var masks: map<string, Mask>
    var kConvFactor: real

    /** A missing factor (None) means pixels are reported as they are: k = 1. */
    constructor (points: seq<Point>, masks: map<string, Mask>, kConvFactor: Option<real>)
      ensures this.points == points && this.masks == masks
      ensures this.kConvFactor == if kConvFactor.Some? then kConvFactor.value else 1.0
    {
      this.points := points;
      this.masks := masks;
      this.kConvFactor := if kConvFactor.Some? then kConvFactor.value else 1.0;
    }

    /** Every lookup of the length loop succeeds in every mask. */
    predicate PointsInMasks()
      reads this
    {
      forall part :: part in masks ==> LookupsInMask(masks[part], points)
    }

    /** The length of the centerline that falls within one mask (before scaling). */
    method CalculatePartLength(mask: Mask, norm: Norm) returns (length: real)
      requires LookupsInMask(mask, points)
      ensures length == PartRaw(norm, points, mask)
    {
      length := 0.0;
      var i := 1;
      while i < |points|
        invariant |points| == 0 || 1 <= i <= |points|
        invariant length == PartRaw(norm, points[..if |points| == 0 then 0 else i], mask)
      {
        if CellAt(mask, points[i - 1]) == 1 && CellAt(mask, points[i]) == 1 {
          length := length + norm(Minus(points[i], points[i - 1]));
        }
        assert points[..i + 1][..i] == points[..i];
        i := i + 1;
      }
      assert points[..if |points| == 0 then 0 else i] == points;
    }

    /** One entry per part, keyed "length_" + part, holding the part's length times k. */
    method CalculateLengths(norm: Norm) returns (lengths: map<string, real>)
      requires PointsInMasks()
      ensures lengths.Keys == LengthKeys(masks.Keys)
      ensures forall part :: part in masks ==>
        lengths[LengthKey(part)] == Scaled(PartRaw(norm, points, masks[part]), kConvFactor)
    {
      lengths := map[];
      var todo := masks.Keys;
      ghost var done: set<string> := {};
      while todo != {}
        invariant done + todo == masks.Keys && done !! todo
        invariant lengths.Keys == LengthKeys(done)
        invariant forall part :: part in done ==>
          LengthKey(part) in lengths &&
          lengths[LengthKey(part)] == Scaled(PartRaw(norm, points, masks[part]), kConvFactor)
        decreases todo
      {
        var part :| part in todo;
        var length := CalculatePartLength(masks[part], norm);
        forall other | other in done
          ensures LengthKey(other) != LengthKey(part)
        {
          LengthKeyInjective(other, part);
        }
        LengthKeysAdd(done, part);
        lengths := lengths[LengthKey(part) := Scaled(length, kConvFactor)];
        todo := todo - {part};
        done := done + {part};
      }
    }

    /** The length of the whole centerline times k; the masks play no part. */
    function CalculateTotalLength(norm: Norm): (total: real)
      reads this
      ensures |points| < 2 ==> total == 0.0
      ensures NonNegative(norm) && 0.0 <= kConvFactor ==> 0.0 <= total
    {
      TotalNonNegativeFor(norm, points);
      Scaled(TotalRaw(norm, points), kConvFactor)
    }
  }

  lemma {:induction false} TotalNonNegative(norm: Norm, pts: seq<Point>)
    requires NonNegative(norm)
    ensures 0.0 <= TotalRaw(norm, pts)
    decreases |pts|
  {
    if |pts| >= 2 {
      TotalNonNegative(norm, pts[..|pts| - 1]);
      assert 0.0 <= SegmentLength(norm, pts[|pts| - 2], pts[|pts| - 1]);
    }
  }

  lemma TotalNonNegativeFor(norm: Norm, pts: seq<Point>)
    ensures NonNegative(norm) ==> 0.0 <= TotalRaw(norm, pts)
  {
    if NonNegative(norm) {
      TotalNonNegative(norm, pts);
    }
  }

  /** A part's terms are a subset of the total's terms. */
  lemma {:induction false} PartWithinTotal(norm: Norm, pts: seq<Point>, mask: Mask)
    requires NonNegative(norm)
    requires LookupsInMask(mask, pts)
    ensures 0.0 <= PartRaw(norm, pts, mask) <= TotalRaw(norm, pts)
    decreases |pts|
  {
    if |pts| >= 2 {
      PartWithinTotal(norm, pts[..|pts| - 1], mask);
      assert 0.0 <= SegmentLength(norm, pts[|pts| - 2], pts[|pts| - 1]);
    }
  }

  /** A line that lies entirely on the part is counted in full. */
  lemma {:induction false} PartEqualsTotalWhenCovered(norm: Norm, pts: seq<Point>, mask: Mask)
    requires AllInMask(mask, pts)
    requires forall i :: 0 <= i < |pts| ==> OnPart(mask, pts[i])
    ensures PartRaw(norm, pts, mask) == TotalRaw(norm, pts)
    decreases |pts|
  {
    if |pts| >= 2 {
      PartEqualsTotalWhenCovered(norm, pts[..|pts| - 1], mask);
    }
  }

  /** When no consecutive pair has both endpoints on the part, the part has length zero. */
  lemma {:induction false} PartZeroWithoutCoveredPair(norm: Norm, pts: seq<Point>, mask: Mask)
    requires LookupsInMask(mask, pts)
    requires forall i :: 1 <= i < |pts| ==> !PairOnPart(mask, pts[i - 1], pts[i])
    ensures PartRaw(norm, pts, mask) == 0.0
    decreases |pts|
  {
    if |pts| >= 2 {
      PartZeroWithoutCoveredPair(norm, pts[..|pts| - 1], mask);
    }
  }

  /**
   * In particular, a line none of whose points (the last one aside, which is only
   * ever a second endpoint) is on a 1-cell of the mask has part length zero.
   */
  lemma PartZeroWhenUncovered(norm: Norm, pts: seq<Point>, mask: Mask)
    requires LookupsInMask(mask, pts)
    requires forall j :: 0 <= j < |pts| - 1 ==> !OnPart(mask, pts[j])
    ensures PartRaw(norm, pts, mask) == 0.0
  {
    PartZeroWithoutCoveredPair(norm, pts, mask);
  }

  /**
   * The pair (pts[i-1], pts[i]) adds its norm to the part length exactly when both
   * of its endpoints are on the part, and nothing otherwise: the part length splits
   * into the pairs before it, its own term, and the pairs after it.
   */
  lemma {:induction false} PartSplitAtPair(norm: Norm, pts: seq<Point>, mask: Mask, i: nat)
    requires LookupsInMask(mask, pts)
    requires 1 <= i < |pts|
    ensures LookupsInMask(mask, pts[..i]) && LookupsInMask(mask, pts[i..])
    ensures PartRaw(norm, pts, mask)
         == PartRaw(norm, pts[..i], mask)
            + PairTerm(norm, mask, pts[i - 1], pts[i])
            + PartRaw(norm, pts[i..], mask)
    decreases |pts|
  {
    var n := |pts|;
    LookupsSlices(mask, pts, i);
    LookupsSlices(mask, pts, n - 1);
    var init, tail := pts[..n - 1], pts[i..];
    var last := PairTerm(norm, mask, pts[n - 2], pts[n - 1]);
    assert PartRaw(norm, pts, mask) == PartRaw(norm, init, mask) + last;
    if i < n - 1 {
      PartSplitAtPair(norm, init, mask, i);
      assert init[..i] == pts[..i] && init[i] == pts[i] && init[i - 1] == pts[i - 1];
      assert PartRaw(norm, tail, mask) == PartRaw(norm, init[i..], mask) + last by {
        assert tail[..|tail| - 1] == init[i..];
        assert tail[|tail| - 2] == pts[n - 2] && tail[|tail| - 1] == pts[n - 1];
      }
    } else {
      assert init == pts[..i];
    }
  }

  lemma LookupsSlices(mask: Mask, pts: seq<Point>, i: nat)
    requires LookupsInMask(mask, pts) && i <= |pts|
    ensures LookupsInMask(mask, pts[..i]) && LookupsInMask(mask, pts[i..])
  {
    var front, back := pts[..i], pts[i..];
    forall j | 0 <= j < |front| - 1
      ensures InMask(mask, front[j]) && (OnPart(mask, front[j]) ==> InMask(mask, front[j + 1]))
    {
      assert front[j] == pts[j] && front[j + 1] == pts[j + 1];
    }
    forall j | 0 <= j < |back| - 1
      ensures InMask(mask, back[j]) && (OnPart(mask, back[j]) ==> InMask(mask, back[j + 1]))
    {
      assert back[j] == pts[i + j] && back[j + 1] == pts[i + j + 1];
    }
  }

  /** In particular, every pair on the part contributes its full length to the part. */
  lemma PairContributes(norm: Norm, pts: seq<Point>, mask: Mask, i: nat)
    requires NonNegative(norm)
    requires LookupsInMask(mask, pts)
    requires 1 <= i < |pts| && PairOnPart(mask, pts[i - 1], pts[i])
    ensures SegmentLength(norm, pts[i - 1], pts[i]) <= PartRaw(norm, pts, mask)
  {
    PartSplitAtPair(norm, pts, mask, i);
    PartWithinTotal(norm, pts[..i], mask);
    PartWithinTotal(norm, pts[i..], mask);
  }

  /**
   * For a line whose consecutive points are distinct, a part has length zero
   * exactly when no consecutive pair has both endpoints on it.
   */
  lemma PartZeroIffNoCoveredPair(norm: Norm, pts: seq<Point>, mask: Mask)
    requires NonNegative(norm) && Definite(norm)
    requires LookupsInMask(mask, pts)
    requires forall i :: 1 <= i < |pts| ==> pts[i] != pts[i - 1]
    ensures PartRaw(norm, pts, mask) == 0.0
        <==> forall i :: 1 <= i < |pts| ==> !PairOnPart(mask, pts[i - 1], pts[i])
  {
    if forall i :: 1 <= i < |pts| ==> !PairOnPart(mask, pts[i - 1], pts[i]) {
      PartZeroWithoutCoveredPair(norm, pts, mask);
    } else {
      var i :| 1 <= i < |pts| && PairOnPart(mask, pts[i - 1], pts[i]);
      PairContributes(norm, pts, mask, i);
      var d := Minus(pts[i], pts[i - 1]);
      assert d != Point(0.0, 0.0);
      assert 0.0 < SegmentLength(norm, pts[i - 1], pts[i]);
    }
  }

  /** A mask that covers more of the line's points yields at least as long a part. */
  lemma {:induction false} PartMonotoneInMask(norm: Norm, pts: seq<Point>, small: Mask, large: Mask)
    requires NonNegative(norm)
    requires AllInMask(small, pts) && AllInMask(large, pts)
    requires forall i :: 0 <= i < |pts| && OnPart(small, pts[i]) ==> OnPart(large, pts[i])
    ensures PartRaw(norm, pts, small) <= PartRaw(norm, pts, large)
    decreases |pts|
  {
    if |pts| >= 2 {
      PartMonotoneInMask(norm, pts[..|pts| - 1], small, large);
      assert 0.0 <= SegmentLength(norm, pts[|pts| - 2], pts[|pts| - 1]);
    }
  }

  /**
   * Two parts that share no point of the line together measure at most the total:
   * the per-part lengths undercount at part boundaries and never double count there.
   */
  lemma {:induction false} DisjointPartsWithinTotal(norm: Norm, pts: seq<Point>, a: Mask, b: Mask)
    requires NonNegative(norm)
    requires AllInMask(a, pts) && AllInMask(b, pts)
    requires forall i :: 0 <= i < |pts| ==> !(OnPart(a, pts[i]) && OnPart(b, pts[i]))
    ensures PartRaw(norm, pts, a) + PartRaw(norm, pts, b) <= TotalRaw(norm, pts)
    decreases |pts|
  {
    if |pts| >= 2 {
      DisjointPartsWithinTotal(norm, pts[..|pts| - 1], a, b);
      assert 0.0 <= SegmentLength(norm, pts[|pts| - 2], pts[|pts| - 1]);
    }
  }

  /** With fewer than two points there is no pair: every length is zero. */
  lemma FewerThanTwoPoints(norm: Norm, pts: seq<Point>, mask: Mask)
    requires |pts| < 2
    ensures TotalRaw(norm, pts) == 0.0 && PartRaw(norm, pts, mask) == 0.0
  {
  }

  /**
   * The lookups as Python makes them: int() truncates -0.5 to the valid index 0,
   * and a last point far outside the mask is never looked up when its
   * predecessor is off the part, so the line measures 0.
   */
  lemma LookupExamples(norm: Norm)
    ensures InMask([[1]], Point(-0.5, -0.5)) && OnPart([[1]], Point(-0.5, -0.5))
    ensures LookupsInMask([[0]], [Point(0.5, 0.5), Point(50.0, 50.0)])
    ensures PartRaw(norm, [Point(0.5, 0.5), Point(50.0, 50.0)], [[0]]) == 0.0
  {
    var pts := [Point(0.5, 0.5), Point(50.0, 50.0)];
    assert Int(0.5) == 0 && Int(-0.5) == 0;
    assert !OnPart([[0]], pts[0]);
    assert pts[..1] == [Point(0.5, 0.5)];
  }

  /** A vertical line walked downwards has the length of its vertical extent. */
  lemma {:induction false} VerticalLineLength(norm: Norm, pts: seq<Point>)
    requires ExactOnAxes(norm)
    requires 1 <= |pts|
    requires forall i :: 1 <= i < |pts| ==> pts[i].x == pts[i - 1].x && pts[i - 1].y <= pts[i].y
    ensures TotalRaw(norm, pts) == pts[|pts| - 1].y - pts[0].y
    decreases |pts|
  {
    var n := |pts|;
    if n >= 2 {
      VerticalLineLength(norm, pts[..n - 1]);
      var d := Minus(pts[n - 1], pts[n - 2]);
      assert d.x == 0.0 && 0.0 <= d.y;
      assert SegmentLength(norm, pts[n - 2], pts[n - 1]) == d.y;
    }
  }

  /** The total length of any estimator is bounded below by each of its reported part lengths. */
  lemma TotalBoundsEachPart(e: LengthEstimator, norm: Norm, part: string)
    requires NonNegative(norm)
    requires 0.0 <= e.kConvFactor
    requires part in e.masks && LookupsInMask(e.masks[part], e.points)
    ensures 0.0 <= Scaled(PartRaw(norm, e.points, e.masks[part]), e.kConvFactor) <= e.CalculateTotalLength(norm)
  {
    PartWithinTotal(norm, e.points, e.masks[part]);
  }

  /** The total length depends on the points and the factor only, not on the masks. */
  lemma TotalIgnoresMasks(e: LengthEstimator, f: LengthEstimator, norm: Norm)
    requires e.points == f.points && e.kConvFactor == f.kConvFactor
    ensures e.CalculateTotalLength(norm) == f.CalculateTotalLength(norm)
  {
  }

  /** Centerline (0,0), (0,10), (0,20) with k = 0.5 mm/pixel measures 10 mm. */
  method TotalLengthScenario(norm: Norm) returns (total: real)
    requires ExactOnAxes(norm)
    ensures total == 10.0
  {
    var pts := [Point(0.0, 0.0), Point(0.0, 10.0), Point(0.0, 20.0)];
    var e := new LengthEstimator(pts, map[], Some(0.5));
    VerticalLineLength(norm, pts);
    total := e.CalculateTotalLength(norm);
  }
}
