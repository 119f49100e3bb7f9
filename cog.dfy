/**
 * The centre of gravity of binary masks, from
 * vol_est_yolov8/analyze_segments/calc_2d_cog_binary_mask.py.
 *
 * The centre of gravity of a mask is (mean column, mean row) of its 1-cells; the
 * batch variant keys each centre by the decimal string of its class id.
 */
module CenterOfGravity {
  import opened Results
  import opened Decimal
  import opened Geometry

  /** Every row has the same width: the mask is a two-dimensional array. */
  predicate IsTwoDimensional(g: Mask)
  {
    forall r :: 0 <= r < |g| ==> |g[r]| == |g[0]|
  }

  /** Every cell is 0 or 1. */
  predicate IsBinary(g: Mask)
  {
    forall r, c :: 0 <= r < |g| && 0 <= c < |g[r]| ==> g[r][c] == 0 || g[r][c] == 1
  }

  predicate IsForeground(g: Mask, r: int, c: int)
  {
    0 <= r < |g| && 0 <= c < |g[r]| && g[r][c] == 1
  }

  /**
   * A centre of gravity (x, y), or the (nan, nan) that numpy's mean yields for a
   * mask without 1-cells.
   */
  datatype Cog = Cog(x: real, y: real) | NanCog

  /** The two assertions of compute_2d_cog, in the order they are checked. */
  datatype CogError = NotTwoDimensional | NotBinary

  /** The number of 1-cells of a row. */
  function RowCount(row: seq<int>): nat
  {
    if row == [] then 0
    else RowCount(row[..|row| - 1]) + (if row[|row| - 1] == 1 then 1 else 0)
  }

  /** The sum of the column indices of the 1-cells of a row. */
  function RowColumnSum(row: seq<int>): nat
  {
    if row == [] then 0
    else RowColumnSum(row[..|row| - 1]) + (if row[|row| - 1] == 1 then |row| - 1 else 0)
  }

  /** The number of 1-cells of a mask. */
  function Count(g: Mask): nat
  {
    if g == [] then 0 else Count(g[..|g| - 1]) + RowCount(g[|g| - 1])
  }

  /** The sum of the column indices of the 1-cells of a mask. */
  function ColumnSum(g: Mask): nat
  {
    if g == [] then 0 else ColumnSum(g[..|g| - 1]) + RowColumnSum(g[|g| - 1])
  }

  /** The sum of the row indices of the 1-cells of a mask. */
  function RowSum(g: Mask): nat
  {
    if g == [] then 0 else RowSum(g[..|g| - 1]) + (|g| - 1) * RowCount(g[|g| - 1])
  }

  /** compute_2d_cog: validate the mask, then average the coordinates of its 1-cells. */
  function Compute2dCog(g: Mask): (r: Result<Cog, CogError>)
    ensures r == Err(NotTwoDimensional) <==> !IsTwoDimensional(g)
    ensures r == Err(NotBinary) <==> IsTwoDimensional(g) && !IsBinary(g)
    ensures r.Ok? <==> IsTwoDimensional(g) && IsBinary(g)
    ensures r.Ok? ==> (r.value == NanCog <==> Count(g) == 0)
  {
    if !IsTwoDimensional(g) then Err(NotTwoDimensional)
    else if !IsBinary(g) then Err(NotBinary)
    else if Count(g) == 0 then Ok(NanCog)
    else Ok(Cog(ColumnSum(g) as real / Count(g) as real, RowSum(g) as real / Count(g) as real))
  }

  // ---------------------------------------------------------------------------
  // The foreground is empty exactly when the count is zero

  lemma {:induction false} RowCountZeroIff(row: seq<int>)
    ensures RowCount(row) == 0 <==> forall c :: 0 <= c < |row| ==> row[c] != 1
    decreases |row|
  {
    if row != [] {
      var init := row[..|row| - 1];
      RowCountZeroIff(init);
      assert forall c :: 0 <= c < |init| ==> init[c] == row[c];
    }
  }

  lemma {:induction false} CountZeroIff(g: Mask)
    ensures Count(g) == 0 <==> forall r, c :: !IsForeground(g, r, c)
    decreases |g|
  {
    if g != [] {
      var n := |g|;
      var init, last := g[..n - 1], g[n - 1];
      CountZeroIff(init);
      RowCountZeroIff(last);
      assert forall r :: 0 <= r < |init| ==> init[r] == g[r];
      if Count(g) == 0 {
        forall r, c | 0 <= r < n && 0 <= c < |g[r]|
          ensures !IsForeground(g, r, c)
        {
          if r < n - 1 {
            assert !IsForeground(init, r, c);
          }
        }
      } else if RowCount(last) == 0 {
        var r, c :| IsForeground(init, r, c);
        assert IsForeground(g, r, c);
      } else {
        var c :| 0 <= c < |last| && last[c] == 1;
        assert IsForeground(g, n - 1, c);
      }
    }
  }

  // ---------------------------------------------------------------------------
  // Bounding box

  lemma MulMonotone(a: int, b: int, n: nat)
    requires a <= b
    ensures a * n <= b * n
  {
  }

  /** Bounds lo * count <= sum <= hi * count add up. */
  lemma AddBounds(lo: int, hi: int, c0: int, s0: int, c1: int, s1: int)
    requires lo * c0 <= s0 <= hi * c0
    requires lo * c1 <= s1 <= hi * c1
    ensures lo * (c0 + c1) <= s0 + s1 <= hi * (c0 + c1)
  {
    assert lo * (c0 + c1) == lo * c0 + lo * c1;
    assert hi * (c0 + c1) == hi * c0 + hi * c1;
  }

  lemma {:induction false} RowBounds(row: seq<int>, lo: int, hi: int)
    requires forall c :: 0 <= c < |row| && row[c] == 1 ==> lo <= c <= hi
    ensures lo * RowCount(row) <= RowColumnSum(row) <= hi * RowCount(row)
    decreases |row|
  {
    if row != [] {
      var n := |row|;
      var init := row[..n - 1];
      assert forall c :: 0 <= c < |init| ==> init[c] == row[c];
      RowBounds(init, lo, hi);
      if row[n - 1] == 1 {
        AddBounds(lo, hi, RowCount(init), RowColumnSum(init), 1, n - 1);
      }
    }
  }

  /** Sums of coordinates over a mask whose 1-cells all lie in a box. */
  lemma {:induction false} GridBounds(g: Mask, rlo: int, rhi: int, clo: int, chi: int)
    requires forall r, c :: IsForeground(g, r, c) ==> rlo <= r <= rhi && clo <= c <= chi
    ensures clo * Count(g) <= ColumnSum(g) <= chi * Count(g)
    ensures rlo * Count(g) <= RowSum(g) <= rhi * Count(g)
    decreases |g|
  {
    if g != [] {
      var n := |g|;
      var init, last := g[..n - 1], g[n - 1];
      assert forall r :: 0 <= r < |init| ==> init[r] == g[r];
      assert forall r, c :: IsForeground(init, r, c) ==> IsForeground(g, r, c);
      GridBounds(init, rlo, rhi, clo, chi);
      assert forall c :: 0 <= c < |last| && last[c] == 1 ==> IsForeground(g, n - 1, c);
      RowBounds(last, clo, chi);
      var k := RowCount(last);
      AddBounds(clo, chi, Count(init), ColumnSum(init), k, RowColumnSum(last));
      if k != 0 {
        RowCountZeroIff(last);
        var c :| 0 <= c < |last| && last[c] == 1;
        assert IsForeground(g, n - 1, c);
        MulMonotone(rlo, n - 1, k);
        MulMonotone(n - 1, rhi, k);
      }
      AddBounds(rlo, rhi, Count(init), RowSum(init), k, (n - 1) * k);
    }
  }

  lemma DivBounds(s: int, count: int, lo: int, hi: int)
    requires 0 < count
    requires lo * count <= s <= hi * count
    ensures lo as real <= s as real / count as real <= hi as real
  {
    assert (lo * count) as real == lo as real * count as real;
    assert (hi * count) as real == hi as real * count as real;
  }

  /**
   * The centre of gravity lies in every axis-aligned box that holds the
   * foreground, in particular in the foreground's own bounding box.
   */
  lemma CogWithinBoundingBox(g: Mask, rlo: int, rhi: int, clo: int, chi: int)
    requires Compute2dCog(g).Ok? && Compute2dCog(g).value.Cog?
    requires forall r, c :: IsForeground(g, r, c) ==> rlo <= r <= rhi && clo <= c <= chi
    ensures clo as real <= Compute2dCog(g).value.x <= chi as real
    ensures rlo as real <= Compute2dCog(g).value.y <= rhi as real
  {
    GridBounds(g, rlo, rhi, clo, chi);
    DivBounds(ColumnSum(g), Count(g), clo, chi);
    DivBounds(RowSum(g), Count(g), rlo, rhi);
  }

  // ---------------------------------------------------------------------------
  // Validation and the empty mask

  /** A valid mask yields NaN exactly when it has no 1-cell; otherwise a centre. */
  lemma CogNanIffEmpty(g: Mask)
    requires IsTwoDimensional(g) && IsBinary(g)
    ensures Compute2dCog(g) == Ok(NanCog) <==> forall r, c :: !IsForeground(g, r, c)
    ensures (exists r, c :: IsForeground(g, r, c)) ==> Compute2dCog(g).value.Cog?
  {
    CountZeroIff(g);
  }

  // ---------------------------------------------------------------------------
  // A filled rectangle

  /** An h x w mask whose 1-cells are rows r0..r1-1 and columns c0..c1-1. */
  function Rectangle(h: nat, w: nat, r0: nat, r1: nat, c0: nat, c1: nat): Mask
  {
    seq(h, r => seq(w, c => if r0 <= r < r1 && c0 <= c < c1 then 1 else 0))
  }

  function Clamp(n: int, lo: int, hi: int): int
  {
    if n < lo then lo else if hi < n then hi else n
  }

  lemma {:induction false} RectangleRow(row: seq<int>, c0: nat, c1: nat)
    requires c0 <= c1
    requires forall c :: 0 <= c < |row| ==> row[c] == if c0 <= c < c1 then 1 else 0
    ensures RowCount(row) == Clamp(|row|, c0, c1) - c0
    ensures 2 * RowColumnSum(row) == (c0 + Clamp(|row|, c0, c1) - 1) * (Clamp(|row|, c0, c1) - c0)
    decreases |row|
  {
    if row != [] {
      var init := row[..|row| - 1];
      assert forall c :: 0 <= c < |init| ==> init[c] == row[c];
      RectangleRow(init, c0, c1);
    }
  }

  lemma {:induction false} ZeroRow(row: seq<int>)
    requires forall c :: 0 <= c < |row| ==> row[c] == 0
    ensures RowCount(row) == 0 && RowColumnSum(row) == 0
    decreases |row|
  {
    if row != [] {
      var init := row[..|row| - 1];
      assert forall c :: 0 <= c < |init| ==> init[c] == row[c];
      ZeroRow(init);
    }
  }

  /** The step of the row-index sum of a rectangle: adding row n - 1 of width w. */
  lemma RowSumStep(r0: int, n: int, w: int)
    ensures (r0 + n - 2) * (n - 1 - r0) * w + 2 * (n - 1) * w == (r0 + n - 1) * (n - r0) * w
  {
    var a := (r0 + n - 2) * (n - 1 - r0) + 2 * (n - 1);
    assert a == (r0 + n - 1) * (n - r0);
    assert (r0 + n - 2) * (n - 1 - r0) * w + 2 * (n - 1) * w == a * w;
  }

  /** Rows r0..r1-1 hold width 1-cells whose columns sum to t; the other rows are empty. */
  predicate RectangleRows(g: Mask, r0: nat, r1: nat, width: nat, t: nat)
  {
    forall r :: 0 <= r < |g| ==>
      if r0 <= r < r1 then RowCount(g[r]) == width && RowColumnSum(g[r]) == t
      else RowCount(g[r]) == 0 && RowColumnSum(g[r]) == 0
  }

  lemma RectangleRowsPrefix(g: Mask, r0: nat, r1: nat, width: nat, t: nat)
    requires g != [] && RectangleRows(g, r0, r1, width, t)
    ensures RectangleRows(g[..|g| - 1], r0, r1, width, t)
  {
    var init := g[..|g| - 1];
    assert forall r :: 0 <= r < |init| ==> init[r] == g[r];
  }

  /** Adding row n - 1, with k == w inside the rectangle's rows and 0 outside, to a count over rows 0..n-2. */
  lemma LinearStep(r0: int, r1: int, n: int, w: int, x: int, k: int)
    requires r0 <= r1 && 1 <= n
    requires x == (Clamp(n - 1, r0, r1) - r0) * w
    requires if r0 <= n - 1 < r1 then k == w else k == 0
    ensures x + k == (Clamp(n, r0, r1) - r0) * w
  {
    if r0 <= n - 1 < r1 {
      assert Clamp(n - 1, r0, r1) == n - 1 && Clamp(n, r0, r1) == n;
      assert (n - 1 - r0) * w + w == (n - r0) * w;
    } else {
      assert Clamp(n - 1, r0, r1) == Clamp(n, r0, r1);
    }
  }

  /** Adding row n - 1 to the row-index sum over rows 0..n-2. */
  lemma RowIndexStep(r0: int, r1: int, n: int, w: int, rs: int, k: int)
    requires r0 <= r1 && 1 <= n
    requires 2 * rs == (r0 + Clamp(n - 1, r0, r1) - 1) * (Clamp(n - 1, r0, r1) - r0) * w
    requires if r0 <= n - 1 < r1 then k == w else k == 0
    ensures 2 * (rs + (n - 1) * k) == (r0 + Clamp(n, r0, r1) - 1) * (Clamp(n, r0, r1) - r0) * w
  {
    if r0 <= n - 1 < r1 {
      assert Clamp(n - 1, r0, r1) == n - 1 && Clamp(n, r0, r1) == n;
      RowSumStep(r0, n, w);
    } else {
      assert Clamp(n - 1, r0, r1) == Clamp(n, r0, r1);
    }
  }

  lemma {:induction false} RectangleCount(g: Mask, r0: nat, r1: nat, width: nat, t: nat)
    requires r0 <= r1 && RectangleRows(g, r0, r1, width, t)
    ensures Count(g) == (Clamp(|g|, r0, r1) - r0) * width
    decreases |g|
  {
    if g != [] {
      var n := |g|;
      RectangleRowsPrefix(g, r0, r1, width, t);
      RectangleCount(g[..n - 1], r0, r1, width, t);
      LinearStep(r0, r1, n, width, Count(g[..n - 1]), RowCount(g[n - 1]));
    }
  }

  lemma {:induction false} RectangleColumnSum(g: Mask, r0: nat, r1: nat, width: nat, t: nat)
    requires r0 <= r1 && RectangleRows(g, r0, r1, width, t)
    ensures ColumnSum(g) == (Clamp(|g|, r0, r1) - r0) * t
    decreases |g|
  {
    if g != [] {
      var n := |g|;
      RectangleRowsPrefix(g, r0, r1, width, t);
      RectangleColumnSum(g[..n - 1], r0, r1, width, t);
      LinearStep(r0, r1, n, t, ColumnSum(g[..n - 1]), RowColumnSum(g[n - 1]));
    }
  }

  lemma {:induction false} RectangleRowSum(g: Mask, r0: nat, r1: nat, width: nat, t: nat)
    requires r0 <= r1 && RectangleRows(g, r0, r1, width, t)
    ensures 2 * RowSum(g) == (r0 + Clamp(|g|, r0, r1) - 1) * (Clamp(|g|, r0, r1) - r0) * width
    decreases |g|
  {
    if g != [] {
      var n := |g|;
      RectangleRowsPrefix(g, r0, r1, width, t);
      RectangleRowSum(g[..n - 1], r0, r1, width, t);
      RowIndexStep(r0, r1, n, width, RowSum(g[..n - 1]), RowCount(g[n - 1]));
    }
  }

  lemma DivByProduct(s: int, count: int, k: int)
    requires 0 < count && 2 * s == k * count
    ensures s as real / count as real == k as real / 2.0
  {
    assert 2.0 * s as real == k as real * count as real;
  }

  lemma ScaleProduct(rows: int, width: int, t: int, k: int)
    requires 2 * t == k * width
    ensures 2 * (rows * t) == k * (rows * width)
  {
    assert 2 * (rows * t) == rows * (2 * t);
    assert rows * (k * width) == k * (rows * width);
  }

  lemma MulAssociative(a: int, b: int, c: int)
    ensures a * b * c == a * (b * c)
  {
  }

  lemma PositiveProduct(a: int, b: int)
    requires 0 < a && 0 < b
    ensures 0 < a * b
  {
  }

  /** The rows of a filled rectangle: each row inside holds the same c1 - c0 cells, with column sum t. */
  lemma RectangleHasRows(h: nat, w: nat, r0: nat, r1: nat, c0: nat, c1: nat) returns (t: nat)
    requires r0 < r1 <= h && c0 < c1 <= w
    ensures RectangleRows(Rectangle(h, w, r0, r1, c0, c1), r0, r1, c1 - c0, t)
    ensures 2 * t == (c0 + c1 - 1) * (c1 - c0)
  {
    var g := Rectangle(h, w, r0, r1, c0, c1);
    RectangleRow(g[r0], c0, c1);
    assert Clamp(|g[r0]|, c0, c1) == c1;
    t := RowColumnSum(g[r0]);
    forall r | 0 <= r < |g|
      ensures if r0 <= r < r1 then RowCount(g[r]) == c1 - c0 && RowColumnSum(g[r]) == t
              else RowCount(g[r]) == 0 && RowColumnSum(g[r]) == 0
    {
      if r0 <= r < r1 {
        assert g[r] == g[r0];
      } else {
        ZeroRow(g[r]);
      }
    }
  }

  /** The count and coordinate sums of a mask whose 1-cells fill rows r0..r1-1 alike. */
  lemma RectangleTotals(g: Mask, r0: nat, r1: nat, width: nat, t: nat, k: int)
    requires r0 < r1 <= |g| && 0 < width
    requires RectangleRows(g, r0, r1, width, t) && 2 * t == k * width
    ensures 0 < Count(g)
    ensures 2 * ColumnSum(g) == k * Count(g)
    ensures 2 * RowSum(g) == (r0 + r1 - 1) * Count(g)
  {
    var rows := r1 - r0;
    assert Clamp(|g|, r0, r1) == r1;
    assert Count(g) == rows * width by {
      RectangleCount(g, r0, r1, width, t);
    }
    assert 0 < Count(g) by {
      PositiveProduct(rows, width);
    }
    assert 2 * ColumnSum(g) == k * Count(g) by {
      RectangleColumnSum(g, r0, r1, width, t);
      ScaleProduct(rows, width, t, k);
    }
    assert 2 * RowSum(g) == (r0 + r1 - 1) * Count(g) by {
      RectangleRowSum(g, r0, r1, width, t);
      MulAssociative(r0 + r1 - 1, rows, width);
    }
  }

  /** A valid mask whose doubled sums are kx and ky times its count has its centre at (kx/2, ky/2). */
  lemma CogOfSums(g: Mask, kx: int, ky: int)
    requires IsTwoDimensional(g) && IsBinary(g) && 0 < Count(g)
    requires 2 * ColumnSum(g) == kx * Count(g) && 2 * RowSum(g) == ky * Count(g)
    ensures Compute2dCog(g) == Ok(Cog(kx as real / 2.0, ky as real / 2.0))
  {
    DivByProduct(ColumnSum(g), Count(g), kx);
    DivByProduct(RowSum(g), Count(g), ky);
  }

  lemma RectangleValid(h: nat, w: nat, r0: nat, r1: nat, c0: nat, c1: nat)
    ensures IsTwoDimensional(Rectangle(h, w, r0, r1, c0, c1)) && IsBinary(Rectangle(h, w, r0, r1, c0, c1))
  {
  }

  /** The centre of a filled rectangle is its midpoint. */
  lemma CogOfRectangle(h: nat, w: nat, r0: nat, r1: nat, c0: nat, c1: nat)
    requires r0 < r1 <= h && c0 < c1 <= w
    ensures Compute2dCog(Rectangle(h, w, r0, r1, c0, c1))
         == Ok(Cog((c0 + c1 - 1) as real / 2.0, (r0 + r1 - 1) as real / 2.0))
  {
    var g := Rectangle(h, w, r0, r1, c0, c1);
    var t := RectangleHasRows(h, w, r0, r1, c0, c1);
    RectangleTotals(g, r0, r1, c1 - c0, t, c0 + c1 - 1);
    RectangleValid(h, w, r0, r1, c0, c1);
    CogOfSums(g, c0 + c1 - 1, r0 + r1 - 1);
  }

  /** The 10 x 10 mask with rows and columns 3..6 set has its centre at (4.5, 4.5). */
  lemma ExampleMask()
    ensures Compute2dCog(Rectangle(10, 10, 3, 7, 3, 7)) == Ok(Cog(4.5, 4.5))
  {
    CogOfRectangle(10, 10, 3, 7, 3, 7);
  }

  // ---------------------------------------------------------------------------
  // compute_cogs: one centre per class id, later masks overwriting earlier ones

  function Min(a: int, b: int): int
  {
    if a <= b then a else b
  }

  /** The dictionary key of a class id, str(int(cls)). */
  function ClassKey(cls: int): string
  {
    IntToString(cls)
  }

  /**
   * The result of compute_cogs after its first n zipped pairs: the first mask that
   * fails validation raises its error; otherwise each centre is stored under its
   * class key, a later one replacing an earlier one with the same key.
   */
  function CogsOfPairs(masks: seq<Mask>, classIds: seq<int>, n: nat): Result<map<string, Cog>, CogError>
    requires n <= |masks| && n <= |classIds|
  {
    if n == 0 then Ok(map[])
    else
      match CogsOfPairs(masks, classIds, n - 1)
      case Err(e) => Err(e)
      case Ok(cogs) =>
        match Compute2dCog(masks[n - 1])
        case Err(e) => Err(e)
        case Ok(cog) => Ok(cogs[ClassKey(classIds[n - 1]) := cog])
  }

  /** compute_cogs: walks masks and class ids pairwise, up to the shorter of the two. */
  method ComputeCogs(masks: seq<Mask>, classIds: seq<int>) returns (r: Result<map<string, Cog>, CogError>)
    ensures r == CogsOfPairs(masks, classIds, Min(|masks|, |classIds|))
  {
    var n := Min(|masks|, |classIds|);
    var cogs: map<string, Cog> := map[];
    var i := 0;
    while i < n
      invariant 0 <= i <= n
      invariant CogsOfPairs(masks, classIds, i) == Ok(cogs)
    {
      var cog := Compute2dCog(masks[i]);
      if cog.Err? {
        CogsStep(masks, classIds, i, cogs);
        CogsErrorPersists(masks, classIds, i + 1, n);
        return Err(cog.error);
      }
      CogsStep(masks, classIds, i, cogs);
      cogs := cogs[ClassKey(classIds[i]) := cog.value];
      i := i + 1;
    }
    return Ok(cogs);
  }

  /** One more pair: its mask's error, or its centre stored under its class key. */
  lemma CogsStep(masks: seq<Mask>, classIds: seq<int>, i: nat, cogs: map<string, Cog>)
    requires i < |masks| && i < |classIds|
    requires CogsOfPairs(masks, classIds, i) == Ok(cogs)
    ensures Compute2dCog(masks[i]).Err? ==> CogsOfPairs(masks, classIds, i + 1) == Err(Compute2dCog(masks[i]).error)
    ensures Compute2dCog(masks[i]).Ok? ==>
      CogsOfPairs(masks, classIds, i + 1) == Ok(cogs[ClassKey(classIds[i]) := Compute2dCog(masks[i]).value])
  {
  }

  /** Once a mask has failed, the later pairs do not change the outcome. */
  lemma {:induction false} CogsErrorPersists(masks: seq<Mask>, classIds: seq<int>, i: nat, n: nat)
    requires i <= n <= |masks| && n <= |classIds|
    requires CogsOfPairs(masks, classIds, i).Err?
    ensures CogsOfPairs(masks, classIds, n) == CogsOfPairs(masks, classIds, i)
    decreases n - i
  {
    if i < n {
      CogsErrorPersists(masks, classIds, i, n - 1);
    }
  }

  /**
   * compute_cogs fails exactly when one of the zipped masks fails validation, and
   * then with the error of the first such mask.
   */
  lemma {:induction false} CogsErrorIsFirstFailure(masks: seq<Mask>, classIds: seq<int>, n: nat)
    requires n <= |masks| && n <= |classIds|
    ensures CogsOfPairs(masks, classIds, n).Err? <==> exists j :: 0 <= j < n && Compute2dCog(masks[j]).Err?
    ensures CogsOfPairs(masks, classIds, n).Err? ==>
      exists j :: 0 <= j < n && Compute2dCog(masks[j]) == Err(CogsOfPairs(masks, classIds, n).error)
        && forall i :: 0 <= i < j ==> Compute2dCog(masks[i]).Ok?
  {
    if n > 0 {
      CogsErrorIsFirstFailure(masks, classIds, n - 1);
      var prev := CogsOfPairs(masks, classIds, n - 1);
      if prev.Ok? && Compute2dCog(masks[n - 1]).Err? {
        assert forall i :: 0 <= i < n - 1 ==> Compute2dCog(masks[i]).Ok?;
      }
    }
  }

  /** On success there is one key per class id among the zipped pairs, and no other. */
  lemma {:induction false} CogsKeys(masks: seq<Mask>, classIds: seq<int>, n: nat)
    requires n <= |masks| && n <= |classIds|
    requires CogsOfPairs(masks, classIds, n).Ok?
    ensures CogsOfPairs(masks, classIds, n).value.Keys == set j | 0 <= j < n :: ClassKey(classIds[j])
  {
    if n > 0 {
      CogsKeys(masks, classIds, n - 1);
      var keys := set j | 0 <= j < n :: ClassKey(classIds[j]);
      var prev := set j | 0 <= j < n - 1 :: ClassKey(classIds[j]);
      assert keys == prev + {ClassKey(classIds[n - 1])} by {
        forall k | k in keys ensures k in prev + {ClassKey(classIds[n - 1])} {
          var j :| 0 <= j < n && k == ClassKey(classIds[j]);
          if j < n - 1 {
            assert k in prev;
          }
        }
      }
    }
  }

  /** A class id has an entry exactly when it occurs among the zipped pairs. */
  lemma CogsHasClass(masks: seq<Mask>, classIds: seq<int>, n: nat, cls: int)
    requires n <= |masks| && n <= |classIds|
    requires CogsOfPairs(masks, classIds, n).Ok?
    ensures ClassKey(cls) in CogsOfPairs(masks, classIds, n).value <==> exists j :: 0 <= j < n && classIds[j] == cls
  {
    CogsKeys(masks, classIds, n);
    if ClassKey(cls) in CogsOfPairs(masks, classIds, n).value {
      var j :| 0 <= j < n && ClassKey(cls) == ClassKey(classIds[j]);
      IntToStringInjective(cls, classIds[j]);
    }
  }

  /** Last writer wins: the entry of a class id is the centre of its last mask. */
  lemma {:induction false} CogsLastWriterWins(masks: seq<Mask>, classIds: seq<int>, n: nat, j: nat)
    requires j < n <= |masks| && n <= |classIds|
    requires CogsOfPairs(masks, classIds, n).Ok?
    requires forall i :: j < i < n ==> classIds[i] != classIds[j]
    ensures Compute2dCog(masks[j]).Ok?
    ensures ClassKey(classIds[j]) in CogsOfPairs(masks, classIds, n).value
    ensures CogsOfPairs(masks, classIds, n).value[ClassKey(classIds[j])] == Compute2dCog(masks[j]).value
  {
    if j < n - 1 {
      CogsLastWriterWins(masks, classIds, n - 1, j);
      IntToStringInjective(classIds[n - 1], classIds[j]);
    }
  }

  /** Only the first n pairs matter: entries past the shorter list are ignored. */
  lemma {:induction false} CogsIgnoreExtra(masks: seq<Mask>, classIds: seq<int>, moreMasks: seq<Mask>, moreIds: seq<int>, n: nat)
    requires n <= |masks| && n <= |classIds|
    ensures CogsOfPairs(masks + moreMasks, classIds + moreIds, n) == CogsOfPairs(masks, classIds, n)
  {
    if n > 0 {
      CogsIgnoreExtra(masks, classIds, moreMasks, moreIds, n - 1);
      assert (masks + moreMasks)[n - 1] == masks[n - 1];
      assert (classIds + moreIds)[n - 1] == classIds[n - 1];
    }
  }
}
