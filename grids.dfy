/**
 * The fixed-size grid container of the simulator (`Matrix<T>` in src/main.ts).
 *
 * A grid is stored as a sequence of rows. The pure functions below give the
 * meaning of each grid operation on such a sequence; the class `Matrix` holds
 * the rows in a field that its methods update in place, and every method is
 * proved against these functions.
 */
module Grids {
  import opened Options

  /** A coordinate and the value stored there: the unit of bulk transfer between grids. */
  datatype Point<T> = Point(x: int, y: int, value: T)

  predicate InBounds(x: int, y: int, height: int, width: int) {
    0 <= x < width && 0 <= y < height
  }

  /** `g` has exactly `height` rows of exactly `width` cells each. */
  ghost predicate Rect<T>(g: seq<seq<T>>, height: int, width: int) {
    |g| == height && forall y :: 0 <= y < |g| ==> |g[y]| == width
  }

  /** `a` and `b` have the same number of rows, and rows of the same lengths. */
  ghost predicate SameShape<T>(a: seq<seq<T>>, b: seq<seq<T>>) {
    |a| == |b| && forall y :: 0 <= y < |a| ==> |a[y]| == |b[y]|
  }

  /**
   * The optional-chaining read `rows?.[y]?.[x] ?? null`: a value exactly when
   * row `y` exists and has a column `x`, and none otherwise.
   */
  function Cell<T>(g: seq<seq<T>>, x: int, y: int): Option<T> {
    if 0 <= y < |g| && 0 <= x < |g[y]| then Some(g[y][x]) else None
  }

  /**
   * The guarded write of `set`: cell (x, y) becomes `v` if it exists. Every
   * other cell, and every cell of a write out of range, keeps its value.
   */
  function Write<T>(g: seq<seq<T>>, x: int, y: int, v: T): (r: seq<seq<T>>)
    ensures SameShape(r, g)
    ensures forall cx, cy ::
      Cell(r, cx, cy) == if cx == x && cy == y && Cell(g, x, y).Some? then Some(v) else Cell(g, cx, cy)
  {
    if Cell(g, x, y).Some? then g[y := g[y][x := v]] else g
  }

  /** All cells, row after row. */
  function Flatten<T>(g: seq<seq<T>>): seq<T> {
    if |g| == 0 then [] else g[0] + Flatten(g[1..])
  }

  lemma SeqUpdateMultiset<T>(s: seq<T>, i: int, v: T)
    requires 0 <= i < |s|
    ensures multiset(s[i := v]) == multiset(s) - multiset{s[i]} + multiset{v}
  {
    assert s == s[..i] + [s[i]] + s[i + 1..];
    assert s[i := v] == s[..i] + [v] + s[i + 1..];
  }

  lemma MultisetReplace<T>(a: multiset<T>, b: multiset<T>, o: T, n: T)
    requires o in b
    ensures a + (b - multiset{o} + multiset{n}) == a + b - multiset{o} + multiset{n}
    ensures (b - multiset{o} + multiset{n}) + a == b + a - multiset{o} + multiset{n}
  {
  }

  lemma MultisetReplaceBack<T>(m: multiset<T>, o: T, n: T)
    requires o in m
    ensures m - multiset{o} + multiset{n} - multiset{n} + multiset{o} == m
  {
  }

  /** A write in range replaces one occurrence of the old value by the new one. */
  lemma {:induction false} FlattenWrite<T>(g: seq<seq<T>>, x: int, y: int, v: T)
    requires Cell(g, x, y).Some?
    ensures multiset(Flatten(Write(g, x, y, v))) == multiset(Flatten(g)) - multiset{g[y][x]} + multiset{v}
  {
    var r := Write(g, x, y, v);
    if y == 0 {
      assert r[0] == g[0][x := v];
      assert r[1..] == g[1..];
      SeqUpdateMultiset(g[0], x, v);
      assert Flatten(r) == r[0] + Flatten(g[1..]);
      assert Flatten(g) == g[0] + Flatten(g[1..]);
      MultisetReplace(multiset(Flatten(g[1..])), multiset(g[0]), g[y][x], v);
    } else {
      assert r[0] == g[0];
      assert r[1..] == Write(g[1..], x, y - 1, v);
      FlattenWrite(g[1..], x, y - 1, v);
      assert g[y][x] == g[1..][y - 1][x];
      FlattenHas(g[1..], x, y - 1);
      assert Flatten(r) == g[0] + Flatten(r[1..]);
      assert Flatten(g) == g[0] + Flatten(g[1..]);
      MultisetReplace(multiset(g[0]), multiset(Flatten(g[1..])), g[y][x], v);
    }
  }

  lemma {:induction false} FlattenHas<T>(g: seq<seq<T>>, x: int, y: int)
    requires Cell(g, x, y).Some?
    ensures g[y][x] in multiset(Flatten(g))
  {
    if y == 0 {
      assert g[0][x] in g[0];
    } else {
      FlattenHas(g[1..], x, y - 1);
    }
  }

  /** Row `y` as points, `x` ascending. */
  function RowPoints<T>(row: seq<T>, y: int): seq<Point<T>> {
    seq(|row|, x requires 0 <= x < |row| => Point(x, y, row[x]))
  }

  /** Rows `y0` onwards as points, in row-major order. */
  function PointsFrom<T>(g: seq<seq<T>>, y0: nat): seq<Point<T>>
    decreases |g| - y0
  {
    if y0 >= |g| then [] else RowPoints(g[y0], y0) + PointsFrom(g, y0 + 1)
  }

  /** `getPoints`: every row mapped to its points, then flattened. */
  function Points<T>(g: seq<seq<T>>): seq<Point<T>> {
    PointsFrom(g, 0)
  }

  /** `p` comes before `q` when rows are read top to bottom and each row left to right. */
  predicate RowMajorBefore<T>(p: Point<T>, q: Point<T>) {
    p.y < q.y || (p.y == q.y && p.x < q.x)
  }

  lemma {:induction false} PointsFromLength<T>(g: seq<seq<T>>, width: nat, y0: nat)
    requires Rect(g, |g|, width) && y0 <= |g|
    ensures |PointsFrom(g, y0)| == (|g| - y0) * width
    decreases |g| - y0
  {
    if y0 < |g| {
      PointsFromLength(g, width, y0 + 1);
      MulSucc(|g| - (y0 + 1), width);
    }
  }

  lemma MulSucc(a: int, b: int)
    ensures (a + 1) * b == a * b + b
  {}

  lemma {:induction false} PointsFromValues<T>(g: seq<seq<T>>, width: nat, y0: nat)
    requires Rect(g, |g|, width) && y0 <= |g|
    ensures forall k :: 0 <= k < |PointsFrom(g, y0)| ==>
      var p := PointsFrom(g, y0)[k];
      y0 <= p.y < |g| && 0 <= p.x < width && p.value == g[p.y][p.x]
    decreases |g| - y0
  {
    if y0 < |g| {
      PointsFromValues(g, width, y0 + 1);
      var row := RowPoints(g[y0], y0);
      var rest := PointsFrom(g, y0 + 1);
      assert PointsFrom(g, y0) == row + rest;
    }
  }

  lemma {:induction false} PointsFromIndex<T>(g: seq<seq<T>>, width: nat, y0: nat, y: nat, x: nat)
    requires Rect(g, |g|, width) && y0 <= y < |g| && x < width
    ensures (y - y0) * width + x < |PointsFrom(g, y0)|
    ensures PointsFrom(g, y0)[(y - y0) * width + x] == Point(x, y, g[y][x])
    decreases y - y0
  {
    var row := RowPoints(g[y0], y0);
    var rest := PointsFrom(g, y0 + 1);
    assert PointsFrom(g, y0) == row + rest;
    if y > y0 {
      PointsFromIndex(g, width, y0 + 1, y, x);
      MulSucc(y - (y0 + 1), width);
      var k := (y - (y0 + 1)) * width + x;
      assert (y - y0) * width + x == |row| + k;
    }
  }

  lemma {:induction false} PointsFromOrder<T>(g: seq<seq<T>>, width: nat, y0: nat)
    requires Rect(g, |g|, width) && y0 <= |g|
    ensures forall i, j :: 0 <= i < j < |PointsFrom(g, y0)| ==>
      RowMajorBefore(PointsFrom(g, y0)[i], PointsFrom(g, y0)[j])
    decreases |g| - y0
  {
    if y0 < |g| {
      PointsFromOrder(g, width, y0 + 1);
      PointsFromValues(g, width, y0 + 1);
      var row := RowPoints(g[y0], y0);
      var rest := PointsFrom(g, y0 + 1);
      var ps := row + rest;
      assert PointsFrom(g, y0) == ps;
      forall i, j | 0 <= i < j < |ps| ensures RowMajorBefore(ps[i], ps[j]) {
        if j < |row| {
        } else if i < |row| {
          assert ps[i].y == y0;
          assert ps[j] == rest[j - |row|];
        } else {
          assert ps[i] == rest[i - |row|] && ps[j] == rest[j - |row|];
        }
      }
    }
  }

  /**
   * `getPoints` lists exactly height * width points, each carrying the value of
   * its own cell; cell (x, y) is the (y * width + x)-th, so the list is in
   * row-major order.
   */
  lemma PointsShape<T>(g: seq<seq<T>>, height: nat, width: nat)
    requires Rect(g, height, width)
    ensures |Points(g)| == height * width
    ensures forall k :: 0 <= k < |Points(g)| ==>
      InBounds(Points(g)[k].x, Points(g)[k].y, height, width) && Points(g)[k].value == g[Points(g)[k].y][Points(g)[k].x]
    ensures forall y, x :: InBounds(x, y, height, width) ==>
      y * width + x < |Points(g)| && Points(g)[y * width + x] == Point(x, y, g[y][x])
    ensures forall i, j :: 0 <= i < j < |Points(g)| ==> RowMajorBefore(Points(g)[i], Points(g)[j])
  {
    PointsFromLength(g, width, 0);
    PointsFromValues(g, width, 0);
    PointsFromOrder(g, width, 0);
    forall y, x | InBounds(x, y, height, width)
      ensures y * width + x < |Points(g)| && Points(g)[y * width + x] == Point(x, y, g[y][x])
    {
      PointsFromIndex(g, width, 0, y, x);
    }
  }

  /** `setPoints`: the points' values written one after another, in list order. */
  function WritePoints<T>(g: seq<seq<T>>, pts: seq<Point<T>>): (r: seq<seq<T>>)
    ensures SameShape(r, g)
  {
    if |pts| == 0 then g
    else
      var p := pts[|pts| - 1];
      Write(WritePoints(g, pts[..|pts| - 1]), p.x, p.y, p.value)
  }

  ghost predicate Covers<T>(pts: seq<Point<T>>, x: int, y: int) {
    exists k :: 0 <= k < |pts| && pts[k].x == x && pts[k].y == y
  }

  /** Points taken from `src` overwrite exactly the cells they name with `src`'s values. */
  lemma {:induction false} WritePointsFrom<T>(g: seq<seq<T>>, src: seq<seq<T>>, pts: seq<Point<T>>, height: nat, width: nat)
    requires Rect(g, height, width) && Rect(src, height, width)
    requires forall k :: 0 <= k < |pts| ==>
      InBounds(pts[k].x, pts[k].y, height, width) && pts[k].value == src[pts[k].y][pts[k].x]
    ensures Rect(WritePoints(g, pts), height, width)
    ensures forall y, x :: InBounds(x, y, height, width) ==>
      WritePoints(g, pts)[y][x] == if Covers(pts, x, y) then src[y][x] else g[y][x]
  {
    if |pts| > 0 {
      var init := pts[..|pts| - 1];
      var p := pts[|pts| - 1];
      WritePointsFrom(g, src, init, height, width);
      var before := WritePoints(g, init);
      var after := WritePoints(g, pts);
      assert after == Write(before, p.x, p.y, p.value);
      forall y, x | InBounds(x, y, height, width)
        ensures after[y][x] == if Covers(pts, x, y) then src[y][x] else g[y][x]
      {
        assert Cell(after, x, y) == Some(after[y][x]);
        if x == p.x && y == p.y {
          assert Covers(pts, x, y) by { assert pts[|pts| - 1] == p; }
        } else {
          assert after[y][x] == before[y][x];
          if Covers(pts, x, y) {
            var k :| 0 <= k < |pts| && pts[k].x == x && pts[k].y == y;
            assert k < |pts| - 1 && init[k] == pts[k];
            assert Covers(init, x, y);
          }
          if Covers(init, x, y) {
            var k :| 0 <= k < |init| && init[k].x == x && init[k].y == y;
            assert pts[k] == init[k];
          }
        }
      }
    }
  }

  lemma RectEq<T>(a: seq<seq<T>>, b: seq<seq<T>>, height: nat, width: nat)
    requires Rect(a, height, width) && Rect(b, height, width)
    requires forall y, x :: InBounds(x, y, height, width) ==> a[y][x] == b[y][x]
    ensures a == b
  {
    forall y | 0 <= y < height ensures a[y] == b[y] {
      assert forall x :: 0 <= x < width ==> InBounds(x, y, height, width);
    }
  }

  /** Writing a set of points that names every cell, taken from `src`, yields `src`. */
  lemma WritePointsCovering<T>(g: seq<seq<T>>, src: seq<seq<T>>, pts: seq<Point<T>>, height: nat, width: nat)
    requires Rect(g, height, width) && Rect(src, height, width)
    requires forall k :: 0 <= k < |pts| ==>
      InBounds(pts[k].x, pts[k].y, height, width) && pts[k].value == src[pts[k].y][pts[k].x]
    requires forall y, x :: InBounds(x, y, height, width) ==> Covers(pts, x, y)
    ensures WritePoints(g, pts) == src
  {
    WritePointsFrom(g, src, pts, height, width);
    RectEq(WritePoints(g, pts), src, height, width);
  }

  /** Every cell of a grid is named by some point of `getPoints`. */
  lemma PointsCoverAll<T>(g: seq<seq<T>>, height: nat, width: nat)
    requires Rect(g, height, width)
    ensures forall y, x :: InBounds(x, y, height, width) ==> Covers(Points(g), x, y)
  {
    forall y, x | InBounds(x, y, height, width) ensures Covers(Points(g), x, y) {
      PointsFromIndex(g, width, 0, y, x);
      var k := (y - 0) * width + x;
      assert Points(g)[k].x == x && Points(g)[k].y == y;
    }
  }

  /** Each point with its value replaced by `f(value, x, y)`. */
  function MapPoints<T, R>(points: seq<Point<T>>, f: (T, int, int) -> R): seq<Point<R>> {
    seq(|points|, k requires 0 <= k < |points| =>
      Point(points[k].x, points[k].y, f(points[k].value, points[k].x, points[k].y)))
  }

  ghost function MapCells<T, R>(g: seq<seq<T>>, height: nat, width: nat, f: (T, int, int) -> R): (r: seq<seq<R>>)
    requires Rect(g, height, width)
    ensures Rect(r, height, width)
    ensures forall y, x :: InBounds(x, y, height, width) ==> r[y][x] == f(g[y][x], x, y)
  {
    seq(height, y requires 0 <= y < height => seq(width, x requires 0 <= x < width => f(g[y][x], x, y)))
  }

  /** The mapped points still name every cell. */
  lemma MapPointsCover<T, R>(g: seq<seq<T>>, height: nat, width: nat, f: (T, int, int) -> R)
    requires Rect(g, height, width)
    ensures forall y, x :: InBounds(x, y, height, width) ==> Covers(MapPoints(Points(g), f), x, y)
  {
    var points := Points(g);
    var mapped := MapPoints(points, f);
    PointsCoverAll(g, height, width);
    forall y, x | InBounds(x, y, height, width) ensures Covers(mapped, x, y) {
      var k :| 0 <= k < |points| && points[k].x == x && points[k].y == y;
      assert mapped[k].x == x && mapped[k].y == y;
    }
  }

  /** Each mapped point lies in the grid and carries its cell's transformed value. */
  lemma MapPointsValues<T, R>(g: seq<seq<T>>, height: nat, width: nat, f: (T, int, int) -> R)
    requires Rect(g, height, width)
    ensures forall k :: 0 <= k < |MapPoints(Points(g), f)| ==>
      var p := MapPoints(Points(g), f)[k];
      InBounds(p.x, p.y, height, width) && p.value == f(g[p.y][p.x], p.x, p.y)
  {
    var points := Points(g);
    var mapped := MapPoints(points, f);
    PointsFromValues(g, width, 0);
    forall k | 0 <= k < |mapped|
      ensures InBounds(mapped[k].x, mapped[k].y, height, width)
      ensures mapped[k].value == f(g[mapped[k].y][mapped[k].x], mapped[k].x, mapped[k].y)
    {
      var p := points[k];
      assert mapped[k] == Point(p.x, p.y, f(p.value, p.x, p.y));
    }
  }

  /** Writing the mapped points of `g` into any grid of its dimensions yields `g` transformed cell by cell. */
  lemma MapPointsWrite<T, R>(blank: seq<seq<R>>, g: seq<seq<T>>, height: nat, width: nat, f: (T, int, int) -> R)
    requires Rect(blank, height, width) && Rect(g, height, width)
    ensures forall k :: 0 <= k < |MapPoints(Points(g), f)| ==>
      Cell(blank, MapPoints(Points(g), f)[k].x, MapPoints(Points(g), f)[k].y).Some?
    ensures Rect(WritePoints(blank, MapPoints(Points(g), f)), height, width)
    ensures forall y, x :: InBounds(x, y, height, width) ==>
      WritePoints(blank, MapPoints(Points(g), f))[y][x] == f(g[y][x], x, y)
  {
    var mapped := MapPoints(Points(g), f);
    var target := MapCells(g, height, width, f);
    MapPointsCover(g, height, width, f);
    MapPointsValues(g, height, width, f);
    WritePointsCovering(blank, target, mapped, height, width);
  }

  /** A height x width grid of rows, with `matrix` its rows. */
  class Matrix<T> {
    const height: nat
    const width: nat
    var matrix: seq<seq<T>>
    const fillValue: T

    ghost predicate Valid()
      reads this
    {
      Rect(matrix, height, width)
    }

    /** height rows, each of width copies of `fillValue`. */
    static function CreateMatrix(height: nat, width: nat, fillValue: T): (m: seq<seq<T>>)
      ensures Rect(m, height, width)
      ensures forall y, x :: InBounds(x, y, height, width) ==> m[y][x] == fillValue
    {
      seq(height, _ => seq(width, _ => fillValue))
    }

    constructor (height: nat, width: nat, fillValue: T)
      ensures Valid()
      ensures this.height == height && this.width == width && this.fillValue == fillValue
      ensures forall y, x :: InBounds(x, y, height, width) ==> matrix[y][x] == fillValue
    {
      this.height := height;
      this.width := width;
      this.fillValue := fillValue;
      this.matrix := CreateMatrix(height, width, fillValue);
    }

    /** The value at (x, y), absent exactly when (x, y) lies outside the grid. */
    function Get(x: int, y: int): (r: Option<T>)
      reads this
      ensures Valid() ==> (r.Some? <==> InBounds(x, y, height, width))
      ensures r.Some? ==> 0 <= y < |matrix| && 0 <= x < |matrix[y]| && r.value == matrix[y][x]
    {
      Cell(matrix, x, y)
    }

    /** Writes `value` at (x, y) only when `Get` finds a value there. */
    method Set(x: int, y: int, value: T)
      modifies this
      ensures matrix == Write(old(matrix), x, y, value)
      ensures old(Valid()) ==> Valid()
    {
      var pointValue := Get(x, y);
      if pointValue.Some? {
        matrix := matrix[y := matrix[y][x := value]];
      }
    }

    /** All cells as points in row-major order: `y` ascending, then `x` ascending. */
    function GetPoints(): (r: seq<Point<T>>)
      requires Valid()
      reads this
      ensures |r| == height * width
      ensures forall k :: 0 <= k < |r| ==>
        InBounds(r[k].x, r[k].y, height, width) && r[k].value == matrix[r[k].y][r[k].x]
      ensures forall y, x :: InBounds(x, y, height, width) ==>
        y * width + x < |r| && r[y * width + x] == Point(x, y, matrix[y][x])
      ensures forall i, j :: 0 <= i < j < |r| ==> RowMajorBefore(r[i], r[j])
    {
      PointsShape(matrix, height, width);
      Points(matrix)
    }

    /** Writes each point's value at its coordinates, in list order. */
    method SetPoints(points: seq<Point<T>>)
      requires forall k :: 0 <= k < |points| ==> Cell(matrix, points[k].x, points[k].y).Some?
      modifies this
      ensures matrix == WritePoints(old(matrix), points)
      ensures old(Valid()) ==> Valid()
    {
      for i := 0 to |points|
        invariant SameShape(matrix, old(matrix))
        invariant matrix == WritePoints(old(matrix), points[..i])
      {
        var point := points[i];
        assert Cell(old(matrix), point.x, point.y).Some?;
        matrix := matrix[point.y := matrix[point.y][point.x := point.value]];
        assert points[..i + 1][..i] == points[..i];
      }
      assert points[..|points|] == points;
    }

    /**
     * A new grid of the same dimensions whose cell (x, y) is
     * `mapFn(value at (x, y), x, y)`. The source fills the new grid with `null`
     * first; here any value of `R` stands in for it, since every cell is then
     * overwritten.
     */
    method Map<R(0)>(mapFn: (T, int, int) -> R) returns (m: Matrix<R>)
      requires Valid()
      ensures fresh(m) && m.Valid()
      ensures m.height == height && m.width == width
      ensures forall y, x :: InBounds(x, y, height, width) ==> m.matrix[y][x] == mapFn(matrix[y][x], x, y)
    {
      var placeholder: R := *;
      m := new Matrix<R>(height, width, placeholder);
      var points := GetPoints();
      var mapped := MapPoints(points, mapFn);
      MapPointsWrite(m.matrix, matrix, height, width, mapFn);
      m.SetPoints(mapped);
    }

    /** An independent grid with the same dimensions, fill value and cells. */
    method Copy() returns (m: Matrix<T>)
      requires Valid()
      ensures fresh(m) && m.Valid()
      ensures m.height == height && m.width == width && m.fillValue == fillValue
      ensures m.matrix == matrix
    {
      m := new Matrix<T>(height, width, fillValue);
      var points := GetPoints();
      ghost var blank := m.matrix;
      m.SetPoints(points);
      PointsCoverAll(matrix, height, width);
      WritePointsCovering(blank, matrix, points, height, width);
    }
  }

  /**
   * A write to a copy leaves the original as it was: the two grids share no
   * storage.
   */
  method CopyThenSet<T>(g: Matrix<T>, x: int, y: int, v: T) returns (c: Matrix<T>)
    requires g.Valid()
    ensures fresh(c) && c.Valid()
    ensures c.matrix == Write(g.matrix, x, y, v)
    ensures g.matrix == old(g.matrix)
  {
    c := g.Copy();
    c.Set(x, y, v);
  }

  /** A write to the original after copying leaves the copy as the original was. */
  method SetAfterCopy<T>(g: Matrix<T>, x: int, y: int, v: T) returns (c: Matrix<T>)
    requires g.Valid()
    modifies g
    ensures fresh(c) && c.Valid() && g.Valid()
    ensures g.matrix == Write(old(g.matrix), x, y, v)
    ensures c.matrix == old(g.matrix)
  {
    c := g.Copy();
    g.Set(x, y, v);
  }
}
