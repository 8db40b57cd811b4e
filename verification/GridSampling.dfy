/**
 Sampling a grid for the map: a stride keeps the number of cells looked at near a cap, and cells without a
 usable value or place are left out.
 */
module GridSampling {
  /** A number as an array holds it. */
  datatype Value = NaN | Num(x: real)

  /** The element type of the value array. Only a `Double` element is an instance of Python's `float`. */
  datatype ElementType = Double | Single | Integer

  datatype Point = Point(lat: real, lon: real, value: Value)

  datatype Cell = Cell(row: nat, column: nat)

  // ---------------------------------------------------------------- strides

  /** `ceil(n / s)` */
  function CeilDiv(n: nat, s: nat): (q: nat)
    requires s > 0
    ensures q * s >= n && (n > 0 ==> q > 0 && (q - 1) * s < n) && (n == 0 ==> q == 0)
  {
    if n == 0 then 0
    else
      Division(n - 1, s);
      (n - 1) / s + 1
  }

  lemma Division(n: nat, s: nat)
    requires s > 0
    ensures (n / s) * s <= n < (n / s + 1) * s
  {
    assert n == (n / s) * s + n % s;
    assert (n / s + 1) * s == (n / s) * s + s;
  }

  /** `ceil(sqrt(total / cap))`: the least stride whose square brings the total within the cap. */
  function AxisStride(total: nat, cap: nat): (s: nat)
    requires cap > 0
    ensures s >= 1 && s * s * cap >= total
    ensures s > 1 ==> (s - 1) * (s - 1) * cap < total
  {
    LeastStride(total, cap, 1)
  }

  function LeastStride(total: nat, cap: nat, s: nat): (r: nat)
    requires cap > 0 && s >= 1 && (s > 1 ==> (s - 1) * (s - 1) * cap < total)
    ensures r >= s && r * r * cap >= total && (r > 1 ==> (r - 1) * (r - 1) * cap < total)
    decreases total - s
  {
    if s * s * cap >= total then s
    else
      SquareGrows(s, cap);
      LeastStride(total, cap, s + 1)
  }

  lemma SquareGrows(s: nat, cap: nat)
    requires s >= 1 && cap >= 1
    ensures s * s * cap >= s
  {
    assert s * s >= s;
    assert s * s * cap >= s * s by { Monotone(s * s, 1, cap); }
  }

  lemma Monotone(a: int, b: int, c: int)
    requires a >= 0 && b <= c
    ensures a * b <= a * c
  {
  }

  lemma LessFromProduct(x: int, y: int, s: int)
    requires s > 0 && x * s < y * s
    ensures x < y
  {
    if x >= y { Monotone(s, y, x); }
  }

  function FlatStride(total: nat, cap: nat): (s: nat)
    requires cap > 0
    ensures s >= 1
  {
    if total > cap then CeilDiv(total, cap) else 1
  }

  // ---------------------------------------------------------------- how many cells a stride visits

  /** A flattened grid: never more than the cap, and when it is cut at all, more than half of it. */
  lemma FlatCap(total: nat, cap: nat)
    requires cap > 0
    ensures var visits := CeilDiv(total, FlatStride(total, cap));
      visits <= cap && (total > cap ==> 2 * visits > cap)
  {
    var s := FlatStride(total, cap);
    var visits := CeilDiv(total, s);
    if total > cap {
      assert (visits - 1) * s < total <= cap * s;
      LessFromProduct(visits - 1, cap, s);
      assert (s - 1) * cap == s * cap - cap && s * cap == cap * s;
      assert cap * s < 2 * (visits * s) == (2 * visits) * s;
      LessFromProduct(cap, 2 * visits, s);
    }
  }

  /** The flattened stride is the least that keeps within the cap. */
  lemma FlatStrideIsLeast(total: nat, cap: nat, t: nat)
    requires cap > 0 && 1 <= t < FlatStride(total, cap)
    ensures CeilDiv(total, t) > cap
  {
    var s := FlatStride(total, cap);
    assert (s - 1) * cap < total;
    Monotone(cap, t, s - 1);
    assert t * cap == cap * t && (s - 1) * cap == cap * (s - 1);
    LessFromProduct(cap, CeilDiv(total, t), t);
  }

  /** Both axes with one stride: within the cap when the stride divides both. */
  lemma AxisCapWhenDividing(a: nat, b: nat, cap: nat, p: nat, q: nat)
    requires cap > 0
    requires a == p * AxisStride(a * b, cap) && b == q * AxisStride(a * b, cap)
    ensures var s := AxisStride(a * b, cap); CeilDiv(a, s) == p && CeilDiv(b, s) == q && p * q <= cap
  {
    var s := AxisStride(a * b, cap);
    Exactly(p, s);
    Exactly(q, s);
    Regroup(p, q, s);
    assert s * s * cap == cap * (s * s);
    if p * q > cap { Strictly(s * s, cap, p * q); }
  }

  lemma Regroup(p: int, q: int, s: int)
    ensures (p * s) * (q * s) == (p * q) * (s * s)
  {
  }

  lemma Strictly(a: int, b: int, c: int)
    requires a > 0 && b < c
    ensures b * a < c * a
  {
  }

  lemma Exactly(p: nat, s: nat)
    requires s > 0
    ensures CeilDiv(p * s, s) == p
  {
    var c := CeilDiv(p * s, s);
    if p > 0 {
      Strictly(s, 0, p);
      LessFromProduct(c - 1, p, s);
      LessFromProduct(p - 1, c, s);
    }
  }

  /** Otherwise the last row and column can go over, but by less than (a + b) / s + 1, stated here times s squared. */
  lemma AxisCapInGeneral(a: nat, b: nat, cap: nat)
    requires cap > 0
    ensures var s := AxisStride(a * b, cap);
      CeilDiv(a, s) * CeilDiv(b, s) * (s * s) < cap * (s * s) + (a + b) * s + s * s
  {
    hide AxisStride, CeilDiv;
    var s := AxisStride(a * b, cap);
    Overrun(a, b, s, CeilDiv(a, s), CeilDiv(b, s));
    Swap(s, cap);
  }

  lemma Swap(s: int, cap: int)
    ensures s * s * cap == cap * (s * s)
  {
  }

  lemma Overrun(a: nat, b: nat, s: nat, p: nat, q: nat)
    requires s > 0 && (a > 0 ==> (p - 1) * s < a) && (a == 0 ==> p == 0) && (b > 0 ==> (q - 1) * s < b) && (b == 0 ==> q == 0)
    ensures p * q * (s * s) < a * b + (a + b) * s + s * s
  {
    Shift(p, s, a);
    Shift(q, s, b);
    Product(p * s, a + s, q * s, b + s);
    Regroup(p, q, s);
    Expand(a, b, s);
  }

  lemma Expand(a: int, b: int, s: int)
    ensures (a + s) * (b + s) == a * b + (a + b) * s + s * s
  {
  }

  lemma Shift(p: nat, s: nat, a: nat)
    requires s > 0 && (a > 0 ==> (p - 1) * s < a) && (a == 0 ==> p == 0)
    ensures p * s < a + s
  {
    assert (p - 1) * s == p * s - s;
  }

  lemma Product(x: nat, y: nat, u: nat, v: nat)
    requires x < y && u < v
    ensures x * u < y * v
  {
    Monotone(x, u, v);
    Strictly(v, x, y);
  }

  /**
   The cap is exceeded by any grid of a single row longer than twice the cap, and by no shorter one: a common
   stride shortens only the axis there is.
   */
  lemma SingleRowCap(b: nat, cap: nat)
    requires cap > 0
    ensures CeilDiv(1, AxisStride(b, cap)) * CeilDiv(b, AxisStride(b, cap)) <= cap <==> b <= 2 * cap
  {
    var s := AxisStride(b, cap);
    var q := CeilDiv(b, s);
    assert CeilDiv(1, s) == 1 by { One(s); }
    if s == 1 {
      assert q == b by { Exactly(b, 1); }
    } else if s == 2 {
      assert (s - 1) * (s - 1) == 1;
    } else {
      LongRow(b, cap, s, q);
    }
  }

  lemma One(s: nat)
    requires s > 0
    ensures CeilDiv(1, s) == 1
  {
    LessFromProduct(CeilDiv(1, s) - 1, 1, s);
  }

  lemma LongRow(b: nat, cap: nat, s: nat, q: nat)
    requires cap > 0 && s >= 3 && (s - 1) * (s - 1) * cap < b && q * s >= b
    ensures q > cap && b > 2 * cap
  {
    assert (s - 1) * (s - 1) == s * s - 2 * s + 1;
    Monotone(s, 3, s);
    Monotone(cap, s + 1, (s - 1) * (s - 1));
    assert (s + 1) * cap == cap * s + cap;
    LessFromProduct(cap, q, s);
    Monotone(cap, 3, s);
  }

  // ---------------------------------------------------------------- which cells a stride visits

  /** Cells in the order the two loops reach them: every `s`-th of every `s`-th row. */
  function Visited(a: nat, b: nat, s: nat): (cells: seq<Cell>)
    requires s > 0
    ensures |cells| == CeilDiv(a, s) * CeilDiv(b, s)
  {
    Grid(CeilDiv(a, s), CeilDiv(b, s), s)
  }

  function Grid(p: nat, q: nat, s: nat): (cells: seq<Cell>)
    ensures |cells| == p * q
  {
    if p == 0 then []
    else
      assert p * q == (p - 1) * q + q;
      Grid(p - 1, q, s) + Row(p - 1, q, s)
  }

  function Row(r: nat, q: nat, s: nat): (cells: seq<Cell>)
    ensures |cells| == q
    ensures forall c :: 0 <= c < q ==> cells[c] == Cell(r * s, c * s)
  {
    seq(q, c requires 0 <= c < q => Cell(r * s, c * s))
  }

  predicate Before(x: Cell, y: Cell) {
    x.row < y.row || (x.row == y.row && x.column < y.column)
  }

  lemma {:induction false} GridHolds(p: nat, q: nat, s: nat, k: nat)
    requires k < p * q
    ensures exists r, c :: 0 <= r < p && 0 <= c < q && Grid(p, q, s)[k] == Cell(r * s, c * s)
  {
    assert p > 0;
    assert p * q == (p - 1) * q + q;
    if k < (p - 1) * q {
      GridHolds(p - 1, q, s, k);
      var r, c :| 0 <= r < p - 1 && 0 <= c < q && Grid(p - 1, q, s)[k] == Cell(r * s, c * s);
      assert Grid(p, q, s)[k] == Cell(r * s, c * s);
    } else {
      var c := k - (p - 1) * q;
      assert Grid(p, q, s)[k] == Row(p - 1, q, s)[c] == Cell((p - 1) * s, c * s);
    }
  }

  lemma {:induction false} GridReaches(p: nat, q: nat, s: nat, r: nat, c: nat)
    requires r < p && c < q
    ensures Cell(r * s, c * s) in Grid(p, q, s)
  {
    if r < p - 1 {
      GridReaches(p - 1, q, s, r, c);
    } else {
      assert Row(p - 1, q, s)[c] == Cell(r * s, c * s);
    }
  }

  lemma {:induction false} GridInOrder(p: nat, q: nat, s: nat, j: nat, k: nat)
    requires s > 0 && j < k < p * q
    ensures Before(Grid(p, q, s)[j], Grid(p, q, s)[k])
  {
    assert p > 0;
    assert p * q == (p - 1) * q + q;
    var above, row := Grid(p - 1, q, s), Row(p - 1, q, s);
    assert Grid(p, q, s) == above + row && |above| == (p - 1) * q;
    if k < |above| {
      GridInOrder(p - 1, q, s, j, k);
    } else if j < |above| {
      GridHolds(p - 1, q, s, j);
      hide Grid;
      var r, c :| 0 <= r < p - 1 && 0 <= c < q && above[j] == Cell(r * s, c * s);
      Strictly(s, r, p - 1);
    } else {
      hide Grid;
      Strictly(s, j - |above|, k - |above|);
    }
  }

  predicate OnStride(cell: Cell, a: nat, b: nat, s: nat)
    requires s > 0
  {
    cell.row < a && cell.column < b && cell.row % s == 0 && cell.column % s == 0
  }

  /** Each cell whose row and column are multiples of the stride is visited, once, and no other is. */
  lemma VisitsEachOnce(a: nat, b: nat, s: nat)
    requires s > 0
    ensures forall cell: Cell :: cell in Visited(a, b, s) <==> OnStride(cell, a, b, s)
    ensures forall j, k :: 0 <= j < k < |Visited(a, b, s)| ==> Visited(a, b, s)[j] != Visited(a, b, s)[k]
  {
    var p, q := CeilDiv(a, s), CeilDiv(b, s);
    forall cell: Cell ensures cell in Visited(a, b, s) <==> OnStride(cell, a, b, s) {
      VisitedExactly(a, b, s, cell);
    }
    forall j, k | 0 <= j < k < |Visited(a, b, s)| ensures Visited(a, b, s)[j] != Visited(a, b, s)[k] {
      GridInOrder(p, q, s, j, k);
    }
  }

  lemma VisitedExactly(a: nat, b: nat, s: nat, cell: Cell)
    requires s > 0
    ensures cell in Visited(a, b, s) <==> OnStride(cell, a, b, s)
  {
    var p, q := CeilDiv(a, s), CeilDiv(b, s);
    hide Grid, CeilDiv;
    if cell in Visited(a, b, s) {
      var k :| 0 <= k < p * q && Grid(p, q, s)[k] == cell;
      GridHolds(p, q, s, k);
      var r, c :| 0 <= r < p && 0 <= c < q && cell == Cell(r * s, c * s);
      MultipleWithin(r, a, s);
      MultipleWithin(c, b, s);
    }
    if OnStride(cell, a, b, s) {
      IsMultiple(cell.row, a, s);
      IsMultiple(cell.column, b, s);
      GridReaches(p, q, s, cell.row / s, cell.column / s);
    }
  }

  lemma MultipleWithin(r: nat, a: nat, s: nat)
    requires s > 0 && r < CeilDiv(a, s)
    ensures r * s < a && r * s % s == 0
  {
    Monotone(s, r, CeilDiv(a, s) - 1);
    Remainder(r, s);
  }

  lemma Remainder(r: nat, s: nat)
    requires s > 0
    ensures r * s % s == 0
  {
    var x := r * s;
    var q := x / s;
    Division(x, s);
    LessFromProduct(r, q + 1, s);
    assert (r + 1) * s == r * s + s;
    LessFromProduct(q, r + 1, s);
  }

  lemma IsMultiple(x: nat, a: nat, s: nat)
    requires s > 0 && x < a && x % s == 0
    ensures x == x / s * s && x / s < CeilDiv(a, s)
  {
    LessFromProduct(x / s, CeilDiv(a, s), s);
  }

  // ---------------------------------------------------------------- which visited cells are shown

  predicate IsValidCoordinate(lat: Value, lon: Value) {
    lat.Num? && lon.Num? && -90.0 <= lat.x <= 90.0 && -180.0 <= lon.x <= 180.0
  }

  /** The test for a missing value asks `isinstance(v, float)` first. */
  predicate PassesAsValue(element: ElementType, v: Value) {
    !(element == Double && v.NaN?)
  }

  predicate IsShown(lats: seq<Value>, lons: seq<Value>, values: seq<seq<Value>>, element: ElementType, cell: Cell) {
    && cell.row < |lats| && cell.column < |lons| && cell.row < |values| && cell.column < |values[cell.row]|
    && PassesAsValue(element, values[cell.row][cell.column])
    && IsValidCoordinate(lats[cell.row], lons[cell.column])
  }

  function PointAt(lats: seq<Value>, lons: seq<Value>, values: seq<seq<Value>>, element: ElementType, cell: Cell): Point
    requires IsShown(lats, lons, values, element, cell)
  {
    Point(lats[cell.row].x, lons[cell.column].x, values[cell.row][cell.column])
  }

  function Shown(lats: seq<Value>, lons: seq<Value>, values: seq<seq<Value>>, element: ElementType, cells: seq<Cell>): (points: seq<Point>)
    ensures |points| <= |cells|
  {
    if cells == [] then []
    else
      var last := cells[|cells| - 1];
      Shown(lats, lons, values, element, cells[..|cells| - 1])
      + if IsShown(lats, lons, values, element, last) then [PointAt(lats, lons, values, element, last)] else []
  }

  /** The inner loop: the cells of row `i` at every `s`-th column. */
  method SampleRow(lats: seq<Value>, lons: seq<Value>, values: seq<seq<Value>>, element: ElementType, i: nat, s: nat, ghost r: nat, ghost above: seq<Cell>)
    returns (points: seq<Point>)
    requires s > 0 && |values| == |lats| && i < |lats| && |values[i]| == |lons| && i == r * s
    ensures Shown(lats, lons, values, element, above) + points
         == Shown(lats, lons, values, element, above + Row(r, CeilDiv(|lons|, s), s))
  {
    ghost var q := CeilDiv(|lons|, s);
    ghost var row := Row(r, q, s);
    points := [];
    var j := 0;
    ghost var c := 0;
    assert above + row[..0] == above;
    while j < |lons|
      invariant j == c * s && c <= q
      invariant Shown(lats, lons, values, element, above) + points == Shown(lats, lons, values, element, above + row[..c])
      decreases |lons| - j
    {
      Reached(c, |lons|, s);
      ShownAdds(lats, lons, values, element, above + row[..c], row[c]);
      assert above + row[..c + 1] == above + row[..c] + [row[c]];
      hide Shown, Row;
      if IsShown(lats, lons, values, element, Cell(i, j)) {
        points := points + [PointAt(lats, lons, values, element, Cell(i, j))];
      }
      Next(c, s);
      j := j + s;
      c := c + 1;
    }
    Finished(c, |lons|, s);
    assert row[..q] == row;
  }

  lemma ShownAdds(lats: seq<Value>, lons: seq<Value>, values: seq<seq<Value>>, element: ElementType, cells: seq<Cell>, last: Cell)
    ensures Shown(lats, lons, values, element, cells + [last])
         == Shown(lats, lons, values, element, cells)
            + if IsShown(lats, lons, values, element, last) then [PointAt(lats, lons, values, element, last)] else []
  {
    var all := cells + [last];
    assert all[..|all| - 1] == cells;
  }

  /** The two strided loops of `get_spatial_points`: exactly the visited cells that may be shown, in order. */
  method SampleAxes(lats: seq<Value>, lons: seq<Value>, values: seq<seq<Value>>, element: ElementType, cap: nat)
    returns (points: seq<Point>)
    requires cap > 0 && |values| == |lats| && forall i :: 0 <= i < |values| ==> |values[i]| == |lons|
    ensures points == Shown(lats, lons, values, element, Visited(|lats|, |lons|, AxisStride(|lats| * |lons|, cap)))
  {
    var s := AxisStride(|lats| * |lons|, cap);
    ghost var q := CeilDiv(|lons|, s);
    points := [];
    var i := 0;
    ghost var r := 0;
    while i < |lats|
      invariant i == r * s && r <= CeilDiv(|lats|, s)
      invariant points == Shown(lats, lons, values, element, Grid(r, q, s))
      decreases |lats| - i
    {
      Reached(r, |lats|, s);
      var row := SampleRow(lats, lons, values, element, i, s, r, Grid(r, q, s));
      hide Shown, Row;
      points := points + row;
      Next(r, s);
      i := i + s;
      r := r + 1;
    }
    Finished(r, |lats|, s);
  }

  lemma Next(r: nat, s: nat)
    ensures (r + 1) * s == r * s + s
  {
  }

  lemma Reached(r: nat, n: nat, s: nat)
    requires s > 0 && r * s < n
    ensures r < CeilDiv(n, s)
  {
    LessFromProduct(r, CeilDiv(n, s), s);
  }

  lemma Finished(r: nat, n: nat, s: nat)
    requires s > 0 && r * s >= n && r <= CeilDiv(n, s)
    ensures r == CeilDiv(n, s)
  {
    if n > 0 { LessFromProduct(CeilDiv(n, s) - 1, r, s); }
  }

  /** The first `k` cells of a flattened grid at every `s`-th index, those of them that may be shown. */
  function FlatShown(lats: seq<Value>, lons: seq<Value>, values: seq<Value>, element: ElementType, s: nat, k: nat): (points: seq<Point>)
    requires |lats| == |lons| == |values|
    ensures |points| <= k
  {
    if k == 0 then []
    else
      var i := (k - 1) * s;
      FlatShown(lats, lons, values, element, s, k - 1)
      + if i < |values| && PassesAsValue(element, values[i]) && IsValidCoordinate(lats[i], lons[i])
        then [Point(lats[i].x, lons[i].x, values[i])] else []
  }

  /** The one strided loop over a curvilinear grid: it never looks at more cells than the cap. */
  method SampleFlat(lats: seq<Value>, lons: seq<Value>, values: seq<Value>, element: ElementType, cap: nat)
    returns (points: seq<Point>, visits: nat)
    requires cap > 0 && |lats| == |lons| == |values|
    ensures visits == CeilDiv(|values|, FlatStride(|values|, cap)) && visits <= cap
    ensures points == FlatShown(lats, lons, values, element, FlatStride(|values|, cap), visits) && |points| <= cap
  {
    var s := FlatStride(|values|, cap);
    points, visits := [], 0;
    var i := 0;
    while i < |values|
      invariant i == visits * s && visits <= CeilDiv(|values|, s)
      invariant points == FlatShown(lats, lons, values, element, s, visits)
      decreases |values| - i
    {
      Reached(visits, |values|, s);
      if PassesAsValue(element, values[i]) && IsValidCoordinate(lats[i], lons[i]) {
        points := points + [Point(lats[i].x, lons[i].x, values[i])];
      }
      Next(visits, s);
      visits := visits + 1;
      i := i + s;
    }
    Finished(visits, |values|, s);
    FlatCap(|values|, cap);
  }

  lemma {:induction false} ShownAre(lats: seq<Value>, lons: seq<Value>, values: seq<seq<Value>>, element: ElementType, cells: seq<Cell>, p: Point)
    ensures p in Shown(lats, lons, values, element, cells)
      <==> exists k :: 0 <= k < |cells| && IsShown(lats, lons, values, element, cells[k]) && p == PointAt(lats, lons, values, element, cells[k])
  {
    if cells != [] {
      ShownAre(lats, lons, values, element, cells[..|cells| - 1], p);
    }
  }

  /** A point is shown for a cell: its latitude, its longitude and its value, all as the arrays have them. */
  lemma PointsShownExactly(lats: seq<Value>, lons: seq<Value>, values: seq<seq<Value>>, element: ElementType, cells: seq<Cell>, p: Point)
    requires |values| == |lats| && forall i :: 0 <= i < |values| ==> |values[i]| == |lons|
    requires forall k :: 0 <= k < |cells| ==> cells[k].row < |lats| && cells[k].column < |lons|
    ensures p in Shown(lats, lons, values, element, cells) <==>
      exists k :: 0 <= k < |cells|
        && lats[cells[k].row] == Num(p.lat) && lons[cells[k].column] == Num(p.lon) && values[cells[k].row][cells[k].column] == p.value
        && -90.0 <= p.lat <= 90.0 && -180.0 <= p.lon <= 180.0
        && (p.value.NaN? ==> element != Double)
  {
    ShownAre(lats, lons, values, element, cells, p);
    hide Shown;
  }

  lemma {:induction false} FlatPointsShownExactly(lats: seq<Value>, lons: seq<Value>, values: seq<Value>, element: ElementType,
                                                 s: nat, visits: nat, p: Point)
    requires |lats| == |lons| == |values|
    ensures p in FlatShown(lats, lons, values, element, s, visits) <==>
      exists c :: 0 <= c < visits && ShowsAt(lats, lons, values, element, s, c, p)
  {
    if visits > 0 {
      FlatPointsShownExactly(lats, lons, values, element, s, visits - 1, p);
      var i := (visits - 1) * s;
      var last := if i < |values| && PassesAsValue(element, values[i]) && IsValidCoordinate(lats[i], lons[i])
                  then [Point(lats[i].x, lons[i].x, values[i])] else [];
      assert p in last <==> ShowsAt(lats, lons, values, element, s, visits - 1, p);
      hide ShowsAt;
    }
  }

  /** The `c`-th visited cell is there, on the globe, and shows as `p`. */
  predicate ShowsAt(lats: seq<Value>, lons: seq<Value>, values: seq<Value>, element: ElementType, s: nat, c: nat, p: Point)
    requires |lats| == |lons| == |values|
  {
    var i := c * s;
    && i < |values| && lats[i] == Num(p.lat) && lons[i] == Num(p.lon) && values[i] == p.value
    && -90.0 <= p.lat <= 90.0 && -180.0 <= p.lon <= 180.0 && (p.value.NaN? ==> element != Double)
  }

  /**
   Points lie on the globe; and a point without a number is shown exactly when the values are single-precision
   and some visited cell at a valid coordinate has none.
   */
  lemma NaNShownExactly(lats: seq<Value>, lons: seq<Value>, values: seq<seq<Value>>, element: ElementType, cells: seq<Cell>)
    requires element == Integer ==> forall i, j :: 0 <= i < |values| && 0 <= j < |values[i]| ==> values[i][j].Num?
    ensures var shown := Shown(lats, lons, values, element, cells);
      && (forall k :: 0 <= k < |shown| ==> -90.0 <= shown[k].lat <= 90.0 && -180.0 <= shown[k].lon <= 180.0)
      && ((exists k :: 0 <= k < |shown| && shown[k].value.NaN?)
          <==> element == Single && (exists k :: 0 <= k < |cells| && IsShown(lats, lons, values, Single, cells[k])
                                         && values[cells[k].row][cells[k].column].NaN?))
  {
    var shown := Shown(lats, lons, values, element, cells);
    forall p { ShownAre(lats, lons, values, element, cells, p); }
    hide Shown;
    forall k | 0 <= k < |shown| ensures -90.0 <= shown[k].lat <= 90.0 && -180.0 <= shown[k].lon <= 180.0 {
      assert shown[k] in shown;
    }
    if k :| 0 <= k < |shown| && shown[k].value.NaN? {
      assert shown[k] in shown;
    }
    if k :| element == Single && 0 <= k < |cells| && IsShown(lats, lons, values, Single, cells[k]) && values[cells[k].row][cells[k].column].NaN? {
      assert PointAt(lats, lons, values, element, cells[k]) in shown;
    }
  }

  /** The `c`-th cell the flattened loop visits lies at a valid place and has no number. */
  predicate LacksNumber(lats: seq<Value>, lons: seq<Value>, values: seq<Value>, s: nat, c: nat)
    requires |lats| == |lons| == |values|
  {
    c * s < |values| && values[c * s].NaN? && IsValidCoordinate(lats[c * s], lons[c * s])
  }

  predicate ShowsNaN(points: seq<Point>) {
    exists k :: 0 <= k < |points| && points[k].value.NaN?
  }

  lemma ShowsNaNAdds(a: seq<Point>, b: seq<Point>)
    requires |b| <= 1
    ensures ShowsNaN(a + b) <==> ShowsNaN(a) || (b != [] && b[0].value.NaN?)
  {
    var all := a + b;
    if k :| 0 <= k < |a| && a[k].value.NaN? { assert all[k].value.NaN?; }
    if b != [] { assert all[|a|] == b[0]; }
  }

  /** The same for a flattened grid: exactly single-precision values let one through, where a visited cell lacks it. */
  lemma {:induction false} FlatNaNShownExactly(lats: seq<Value>, lons: seq<Value>, values: seq<Value>, element: ElementType, s: nat, visits: nat)
    requires |lats| == |lons| == |values|
    requires element == Integer ==> forall i :: 0 <= i < |values| ==> values[i].Num?
    ensures ShowsNaN(FlatShown(lats, lons, values, element, s, visits))
            <==> element == Single && exists c :: 0 <= c < visits && LacksNumber(lats, lons, values, s, c)
  {
    if visits > 0 {
      FlatNaNShownExactly(lats, lons, values, element, s, visits - 1);
      var i := (visits - 1) * s;
      var last := if i < |values| && PassesAsValue(element, values[i]) && IsValidCoordinate(lats[i], lons[i])
                  then [Point(lats[i].x, lons[i].x, values[i])] else [];
      ShowsNaNAdds(FlatShown(lats, lons, values, element, s, visits - 1), last);
      assert last != [] && last[0].value.NaN? <==> element == Single && LacksNumber(lats, lons, values, s, visits - 1);
      hide LacksNumber, ShowsNaN;
    }
  }

  /** A grid of one cell, at the origin and without a value: shown when stored in single precision. */
  lemma MissingValueShown()
    ensures Shown([Num(0.0)], [Num(0.0)], [[NaN]], Single, [Cell(0, 0)]) == [Point(0.0, 0.0, NaN)]
    ensures Shown([Num(0.0)], [Num(0.0)], [[NaN]], Double, [Cell(0, 0)]) == []
  {
    assert [Cell(0, 0)][..0] == [];
  }
}
