/**
 * The one-tick transition of the simulator (`Universe.nextState` in src/main.ts).
 *
 * The tick copies the grid into a staging grid and visits the cells of the OLD
 * grid in row-major order. Every decision about a cell reads only the old grid;
 * every write goes to the staging grid, so what a cell's move does depends on
 * what earlier cells of the same tick staged.
 *
 * `Decide` is the choice of rule for one cell and `Apply` its effect on the
 * staging grid; `NextStateSpec` folds them over the cells in traversal order.
 * The method `NextState` runs the source's loop on `Matrix` objects and is
 * proved to compute `NextStateSpec`.
 */
module Universe {
  import opened Options
  import opened Grids
  import opened Atoms

  /** `matrix.get(x, y)?.isEmpty()`: the cell exists and is empty. */
  predicate EmptyAt(g: seq<seq<Atom>>, x: int, y: int) {
    Cell(g, x, y).Some? && Cell(g, x, y).value.IsEmpty()
  }

  /**
   * What processing one cell does to the staging grid:
   * Skip, an early return that writes nothing;
   * Stay, "put the atom back if its staged cell is unset";
   * Swap(tx, ty, fallback), stage at the source the content already staged at
   * (tx, ty) (or `fallback` if there is none) and stage the atom at (tx, ty).
   */
  datatype Rule = Skip | Stay | Swap(tx: int, ty: int, fallback: Atom)

  /**
   * The rule for the atom at (x, y), read off the old grid `g`: fall; else
   * settle down-left, then down-right; else sand sinks into water; else water
   * moves left, then right, but not when both sides are empty.
   */
  function Decide(g: seq<seq<Atom>>, x: int, y: int, atom: Atom): (r: Rule)
    ensures atom.IsEmpty() ==> r == Skip
    ensures r.Swap? ==> Cell(g, r.tx, r.ty).Some?
    ensures r.Swap? ==> -1 <= r.tx - x <= 1 && 0 <= r.ty - y <= 1 && !(r.tx == x && r.ty == y)
    ensures r.Swap? ==>
      || (EmptyAt(g, r.tx, r.ty) && r.fallback == CreateVoid())
      || (atom.kind == Sand && Cell(g, x, y + 1) == Some(Atom(Water)) && r == Swap(x, y + 1, Atom(Water)))
  {
    if atom.IsEmpty() then Skip
    else
      var bottomAtom := Cell(g, x, y + 1);
      if bottomAtom.None? then Stay
      else if bottomAtom.value.IsEmpty() then Swap(x, y + 1, CreateVoid())
      else if EmptyAt(g, x - 1, y + 1) then Swap(x - 1, y + 1, CreateVoid())
      else if EmptyAt(g, x + 1, y + 1) then Swap(x + 1, y + 1, CreateVoid())
      else if atom.kind == Sand && bottomAtom.value.kind == Water then Swap(x, y + 1, bottomAtom.value)
      else if atom.kind == Water then
        var leftEmpty := EmptyAt(g, x - 1, y);
        var rightEmpty := EmptyAt(g, x + 1, y);
        if leftEmpty && rightEmpty then Skip
        else if leftEmpty then Swap(x - 1, y, CreateVoid())
        else if rightEmpty then Swap(x + 1, y, CreateVoid())
        else Stay
      else Stay
  }

  /** The writes of `rule` for the atom at (x, y) into the staging grid `next`. */
  function Apply(next: seq<seq<Atom>>, x: int, y: int, atom: Atom, rule: Rule): (r: seq<seq<Atom>>)
    ensures SameShape(r, next)
  {
    match rule
    case Skip => next
    case Stay => if Cell(next, x, y).None? then Write(next, x, y, atom) else next
    case Swap(tx, ty, fallback) => Write(Write(next, x, y, Cell(next, tx, ty).GetOr(fallback)), tx, ty, atom)
  }

  /** The `forEach` callback on one point of the old grid `g`. */
  function StepCell(g: seq<seq<Atom>>, next: seq<seq<Atom>>, p: Point<Atom>): seq<seq<Atom>> {
    Apply(next, p.x, p.y, p.value, Decide(g, p.x, p.y, p.value))
  }

  /** The staging grid after the callback has run on `pts`, in order, starting from `next`. */
  function StepAll(g: seq<seq<Atom>>, next: seq<seq<Atom>>, pts: seq<Point<Atom>>): (r: seq<seq<Atom>>)
    ensures SameShape(r, next)
  {
    if |pts| == 0 then next
    else StepCell(g, StepAll(g, next, pts[..|pts| - 1]), pts[|pts| - 1])
  }

  /** `nextState`: stage into a copy of `g` while visiting every point of `g` in row-major order. */
  function NextStateSpec(g: seq<seq<Atom>>): (r: seq<seq<Atom>>)
    ensures SameShape(r, g)
  {
    StepAll(g, g, Points(g))
  }

  /** The `forEach` callback body, on `Matrix` objects: reads `matrix`, writes `next`. */
  method ApplyRules(matrix: Matrix<Atom>, next: Matrix<Atom>, atom: Atom, x: int, y: int)
    requires next != matrix
    modifies next
    ensures next.matrix == StepCell(matrix.matrix, old(next.matrix), Point(x, y, atom))
  {
    if atom.IsEmpty() {
      return;
    }
    var bottomAtom := matrix.Get(x, y + 1);
    if bottomAtom.None? {
      assert Decide(matrix.matrix, x, y, atom) == Stay;
      if next.Get(x, y).None? {
        next.Set(x, y, atom);
      }
      return;
    }

    if bottomAtom.value.IsEmpty() {
      assert Decide(matrix.matrix, x, y, atom) == Swap(x, y + 1, CreateVoid());
      next.Set(x, y, next.Get(x, y + 1).GetOr(CreateVoid()));
      next.Set(x, y + 1, atom);
      return;
    }

    var bottomLeftAtom := matrix.Get(x - 1, y + 1);
    if bottomLeftAtom.Some? && bottomLeftAtom.value.IsEmpty() {
      assert Decide(matrix.matrix, x, y, atom) == Swap(x - 1, y + 1, CreateVoid());
      next.Set(x, y, next.Get(x - 1, y + 1).GetOr(CreateVoid()));
      next.Set(x - 1, y + 1, atom);
      return;
    }

    var bottomRightAtom := matrix.Get(x + 1, y + 1);
    if bottomRightAtom.Some? && bottomRightAtom.value.IsEmpty() {
      assert Decide(matrix.matrix, x, y, atom) == Swap(x + 1, y + 1, CreateVoid());
      next.Set(x, y, next.Get(x + 1, y + 1).GetOr(CreateVoid()));
      next.Set(x + 1, y + 1, atom);
      return;
    }

    if atom.kind == Sand && bottomAtom.value.kind == Water {
      assert Decide(matrix.matrix, x, y, atom) == Swap(x, y + 1, bottomAtom.value);
      next.Set(x, y, next.Get(x, y + 1).GetOr(bottomAtom.value));
      next.Set(x, y + 1, atom);
      return;
    }

    if atom.kind == Water {
      var leftAtom := matrix.Get(x - 1, y);
      var rightAtom := matrix.Get(x + 1, y);
      var leftEmpty := leftAtom.Some? && leftAtom.value.IsEmpty();
      var rightEmpty := rightAtom.Some? && rightAtom.value.IsEmpty();

      if leftEmpty && rightEmpty {
        assert Decide(matrix.matrix, x, y, atom) == Skip;
        return;
      }

      if leftEmpty {
        assert Decide(matrix.matrix, x, y, atom) == Swap(x - 1, y, CreateVoid());
        next.Set(x, y, next.Get(x - 1, y).GetOr(CreateVoid()));
        next.Set(x - 1, y, atom);
        return;
      }

      if rightEmpty {
        assert Decide(matrix.matrix, x, y, atom) == Swap(x + 1, y, CreateVoid());
        next.Set(x, y, next.Get(x + 1, y).GetOr(CreateVoid()));
        next.Set(x + 1, y, atom);
        return;
      }
    }

    assert Decide(matrix.matrix, x, y, atom) == Stay;
    if next.Get(x, y).None? {
      next.Set(x, y, atom);
    }
  }

  /** One tick: a new grid, computed from `matrix` without changing it. */
  method NextState(matrix: Matrix<Atom>) returns (nextStepMatrix: Matrix<Atom>)
    requires matrix.Valid()
    ensures fresh(nextStepMatrix) && nextStepMatrix.Valid()
    ensures nextStepMatrix.height == matrix.height && nextStepMatrix.width == matrix.width
    ensures nextStepMatrix.matrix == NextStateSpec(matrix.matrix)
  {
    nextStepMatrix := matrix.Copy();
    var points := matrix.GetPoints();
    for i := 0 to |points|
      invariant fresh(nextStepMatrix)
      invariant nextStepMatrix.height == matrix.height && nextStepMatrix.width == matrix.width
      invariant nextStepMatrix.matrix == StepAll(matrix.matrix, matrix.matrix, points[..i])
    {
      var point := points[i];
      ApplyRules(matrix, nextStepMatrix, point.value, point.x, point.y);
      assert points[..i + 1][..i] == points[..i];
    }
    assert points[..|points|] == points;
  }

  // ---------------------------------------------------------------------------
  // One cell: the order in which the rules are tried
  // ---------------------------------------------------------------------------

  /** A non-empty atom above an empty cell falls, whatever surrounds it. */
  lemma FallFirst(g: seq<seq<Atom>>, x: int, y: int, atom: Atom)
    requires !atom.IsEmpty() && EmptyAt(g, x, y + 1)
    ensures Decide(g, x, y, atom) == Swap(x, y + 1, CreateVoid())
  {}

  /**
   * An atom settles down-left exactly when the cell below exists and is
   * occupied and the cell down-left exists and is empty; it settles down-right
   * exactly when, in addition, down-left is not an empty cell of the grid.
   */
  lemma DiagonalPriority(g: seq<seq<Atom>>, x: int, y: int, atom: Atom)
    ensures Decide(g, x, y, atom) == Swap(x - 1, y + 1, CreateVoid()) <==>
      !atom.IsEmpty() && Cell(g, x, y + 1).Some? && !EmptyAt(g, x, y + 1) && EmptyAt(g, x - 1, y + 1)
    ensures Decide(g, x, y, atom) == Swap(x + 1, y + 1, CreateVoid()) <==>
      !atom.IsEmpty() && Cell(g, x, y + 1).Some? && !EmptyAt(g, x, y + 1) && !EmptyAt(g, x - 1, y + 1) && EmptyAt(g, x + 1, y + 1)
  {}

  /** Sand above water, with neither diagonal an empty cell, trades places with the water. */
  lemma SandSinksIntoWater(g: seq<seq<Atom>>, x: int, y: int)
    requires Cell(g, x, y + 1) == Some(Atom(Water))
    requires !EmptyAt(g, x - 1, y + 1) && !EmptyAt(g, x + 1, y + 1)
    ensures Decide(g, x, y, Atom(Sand)) == Swap(x, y + 1, Atom(Water))
  {}

  /** Sand only ever moves to the row below. */
  lemma SandNeverMovesSideways(g: seq<seq<Atom>>, x: int, y: int)
    ensures Decide(g, x, y, Atom(Sand)).Swap? ==> Decide(g, x, y, Atom(Sand)).ty == y + 1
  {}

  /**
   * Water that can neither fall, settle nor be sunk into stays when both sides
   * are empty, moves left when only the left is empty, right when only the
   * right is empty, and otherwise stays.
   */
  lemma WaterSpreads(g: seq<seq<Atom>>, x: int, y: int)
    requires Cell(g, x, y + 1).Some? && !EmptyAt(g, x, y + 1)
    requires !EmptyAt(g, x - 1, y + 1) && !EmptyAt(g, x + 1, y + 1)
    ensures var r := Decide(g, x, y, Atom(Water));
      && (EmptyAt(g, x - 1, y) && EmptyAt(g, x + 1, y) ==> r == Skip)
      && (EmptyAt(g, x - 1, y) && !EmptyAt(g, x + 1, y) ==> r == Swap(x - 1, y, CreateVoid()))
      && (!EmptyAt(g, x - 1, y) && EmptyAt(g, x + 1, y) ==> r == Swap(x + 1, y, CreateVoid()))
      && (!EmptyAt(g, x - 1, y) && !EmptyAt(g, x + 1, y) ==> r == Stay)
  {}

  /** An atom in the bottom row never moves on its own, so water on the floor never spreads. */
  lemma FloorAtomsStay(g: seq<seq<Atom>>, height: nat, width: nat, x: int, y: int, atom: Atom)
    requires Rect(g, height, width) && y == height - 1
    ensures !Decide(g, x, y, atom).Swap?
  {}

  /** The "stay if unset" write never fires on a cell of the grid. */
  lemma StayWritesNothing(next: seq<seq<Atom>>, x: int, y: int, atom: Atom)
    requires Cell(next, x, y).Some?
    ensures Apply(next, x, y, atom, Stay) == next
  {}

  /** The `??` fallback of a move is never used: its target is always a cell of the staging grid. */
  lemma FallbackNeverUsed(g: seq<seq<Atom>>, next: seq<seq<Atom>>, x: int, y: int, atom: Atom, other: Atom)
    requires SameShape(next, g) && Decide(g, x, y, atom).Swap?
    ensures var r := Decide(g, x, y, atom);
      Apply(next, x, y, atom, r) == Apply(next, x, y, atom, Swap(r.tx, r.ty, other))
  {
    var r := Decide(g, x, y, atom);
    assert Cell(next, r.tx, r.ty).Some?;
  }

  /**
   * A move whose source still holds the moving atom in the staging grid
   * exchanges two staged cells: nothing else changes and no material is made
   * or lost.
   */
  lemma SwapExchanges(next: seq<seq<Atom>>, x: int, y: int, atom: Atom, tx: int, ty: int, fallback: Atom)
    requires Cell(next, x, y) == Some(atom) && Cell(next, tx, ty).Some? && !(tx == x && ty == y)
    ensures var r := Apply(next, x, y, atom, Swap(tx, ty, fallback));
      && Cell(r, x, y) == Cell(next, tx, ty)
      && Cell(r, tx, ty) == Some(atom)
      && (forall cx, cy :: !(cx == x && cy == y) && !(cx == tx && cy == ty) ==> Cell(r, cx, cy) == Cell(next, cx, cy))
      && multiset(Flatten(r)) == multiset(Flatten(next))
  {
    var b := Cell(next, tx, ty).value;
    var n1 := Write(next, x, y, b);
    var n2 := Write(n1, tx, ty, atom);
    assert Apply(next, x, y, atom, Swap(tx, ty, fallback)) == n2;
    FlattenWrite(next, x, y, b);
    FlattenWrite(n1, tx, ty, atom);
    FlattenHas(next, x, y);
    assert n1[ty][tx] == b;
    MultisetReplaceBack(multiset(Flatten(next)), atom, b);
  }

  // ---------------------------------------------------------------------------
  // A whole tick
  // ---------------------------------------------------------------------------

  lemma {:induction false} StepAllAppend(g: seq<seq<Atom>>, next: seq<seq<Atom>>, a: seq<Point<Atom>>, b: seq<Point<Atom>>)
    ensures StepAll(g, next, a + b) == StepAll(g, StepAll(g, next, a), b)
    decreases |b|
  {
    if |b| == 0 {
      assert a + b == a;
    } else {
      assert (a + b)[..|a + b| - 1] == a + b[..|b| - 1];
      assert (a + b)[|a + b| - 1] == b[|b| - 1];
      StepAllAppend(g, next, a, b[..|b| - 1]);
    }
  }

  /** Cells whose rule is not a move leave the staging grid as it was. */
  lemma {:induction false} StepAllQuiet(g: seq<seq<Atom>>, next: seq<seq<Atom>>, pts: seq<Point<Atom>>)
    requires forall k :: 0 <= k < |pts| ==>
      !Decide(g, pts[k].x, pts[k].y, pts[k].value).Swap? && Cell(next, pts[k].x, pts[k].y).Some?
    ensures StepAll(g, next, pts) == next
  {
    if |pts| > 0 {
      StepAllQuiet(g, next, pts[..|pts| - 1]);
    }
  }

  /** A grid in which no cell's rule is a move is returned unchanged. */
  lemma QuiescentIsFixedPoint(g: seq<seq<Atom>>, height: nat, width: nat)
    requires Rect(g, height, width)
    requires forall y, x :: InBounds(x, y, height, width) ==> !Decide(g, x, y, g[y][x]).Swap?
    ensures NextStateSpec(g) == g
  {
    PointsShape(g, height, width);
    StepAllQuiet(g, g, Points(g));
  }

  /** An all-empty grid is returned unchanged. */
  lemma AllVoidIsFixedPoint(g: seq<seq<Atom>>, height: nat, width: nat)
    requires Rect(g, height, width)
    requires forall y, x :: InBounds(x, y, height, width) ==> g[y][x].IsEmpty()
    ensures NextStateSpec(g) == g
  {
    QuiescentIsFixedPoint(g, height, width);
  }

  /**
   * When only the cell (x, y) has a move for its rule, the tick is that
   * cell's writes applied to the grid itself.
   */
  lemma LoneMover(g: seq<seq<Atom>>, height: nat, width: nat, x: int, y: int)
    requires Rect(g, height, width) && InBounds(x, y, height, width)
    requires forall cy, cx :: InBounds(cx, cy, height, width) && !(cx == x && cy == y) ==>
      !Decide(g, cx, cy, g[cy][cx]).Swap?
    ensures NextStateSpec(g) == StepCell(g, g, Point(x, y, g[y][x]))
  {
    var pts := Points(g);
    PointsShape(g, height, width);
    var k := y * width + x;
    assert pts[k] == Point(x, y, g[y][x]);
    var a, b := pts[..k], pts[k + 1..];
    assert pts == a + [pts[k]] + b;
    StepAllAppend(g, g, a + [pts[k]], b);
    StepAllAppend(g, g, a, [pts[k]]);
    QuietBefore(g, height, width, x, y);
    assert [pts[k]][..0] == [];
    var moved := StepCell(g, g, pts[k]);
    QuietAfter(g, height, width, x, y, moved);
  }

  /** The points before (x, y) in traversal order leave the staging grid `g` as it is. */
  lemma QuietBefore(g: seq<seq<Atom>>, height: nat, width: nat, x: int, y: int)
    requires Rect(g, height, width) && InBounds(x, y, height, width)
    requires forall cy, cx :: InBounds(cx, cy, height, width) && !(cx == x && cy == y) ==>
      !Decide(g, cx, cy, g[cy][cx]).Swap?
    ensures y * width + x <= |Points(g)|
    ensures StepAll(g, g, Points(g)[..y * width + x]) == g
  {
    var pts := Points(g);
    PointsShape(g, height, width);
    var k := y * width + x;
    assert pts[k] == Point(x, y, g[y][x]);
    var a := pts[..k];
    forall j | 0 <= j < |a|
      ensures !Decide(g, a[j].x, a[j].y, a[j].value).Swap? && Cell(g, a[j].x, a[j].y).Some?
    {
      assert a[j] == pts[j] && RowMajorBefore(pts[j], pts[k]);
    }
    StepAllQuiet(g, g, a);
  }

  /** The points after (x, y) in traversal order leave any staging grid of `g`'s shape as it is. */
  lemma QuietAfter(g: seq<seq<Atom>>, height: nat, width: nat, x: int, y: int, moved: seq<seq<Atom>>)
    requires Rect(g, height, width) && InBounds(x, y, height, width) && SameShape(moved, g)
    requires forall cy, cx :: InBounds(cx, cy, height, width) && !(cx == x && cy == y) ==>
      !Decide(g, cx, cy, g[cy][cx]).Swap?
    ensures y * width + x < |Points(g)|
    ensures StepAll(g, moved, Points(g)[y * width + x + 1..]) == moved
  {
    var pts := Points(g);
    PointsShape(g, height, width);
    var k := y * width + x;
    assert pts[k] == Point(x, y, g[y][x]);
    var b := pts[k + 1..];
    forall j | 0 <= j < |b|
      ensures !Decide(g, b[j].x, b[j].y, b[j].value).Swap? && Cell(moved, b[j].x, b[j].y).Some?
    {
      assert b[j] == pts[k + 1 + j] && RowMajorBefore(pts[k], pts[k + 1 + j]);
    }
    StepAllQuiet(g, moved, b);
  }

  /**
   * When every non-empty cell other than (x, y) lies in the bottom row, the
   * tick is the writes of (x, y) alone.
   */
  lemma LoneAirborneAtom(g: seq<seq<Atom>>, height: nat, width: nat, x: int, y: int)
    requires Rect(g, height, width) && InBounds(x, y, height, width)
    requires forall cy, cx :: InBounds(cx, cy, height, width) && !(cx == x && cy == y) && !g[cy][cx].IsEmpty() ==>
      cy == height - 1
    ensures NextStateSpec(g) == StepCell(g, g, Point(x, y, g[y][x]))
  {
    forall cy, cx | InBounds(cx, cy, height, width) && !(cx == x && cy == y)
      ensures !Decide(g, cx, cy, g[cy][cx]).Swap?
    {
      if !g[cy][cx].IsEmpty() {
        FloorAtomsStay(g, height, width, cx, cy, g[cy][cx]);
      }
    }
    LoneMover(g, height, width, x, y);
  }

  /**
   * A lone atom with an empty cell below moves down one cell and no further:
   * its old cell becomes empty, the cell below holds it, every other cell is
   * unchanged.
   */
  lemma SingleParticleFalls(g: seq<seq<Atom>>, height: nat, width: nat, x: int, y: int)
    requires Rect(g, height, width) && InBounds(x, y, height, width) && y + 1 < height
    requires !g[y][x].IsEmpty()
    requires forall cy, cx :: InBounds(cx, cy, height, width) && !(cx == x && cy == y) ==> g[cy][cx].IsEmpty()
    ensures NextStateSpec(g) == Write(Write(g, x, y, CreateVoid()), x, y + 1, g[y][x])
  {
    assert InBounds(x, y + 1, height, width);
    LoneAirborneAtom(g, height, width, x, y);
  }

  // ---------------------------------------------------------------------------
  // Conservation of material
  // ---------------------------------------------------------------------------

  /** Sand at (x, y) directly above water: the only case in which the sink rule can fire. */
  ghost predicate SinksAt(g: seq<seq<Atom>>, x: int, y: int) {
    Cell(g, x, y) == Some(Atom(Sand)) && Cell(g, x, y + 1) == Some(Atom(Water))
  }

  ghost predicate NoSink(g: seq<seq<Atom>>) {
    forall x, y :: !SinksAt(g, x, y)
  }

  /**
   * Every move chosen in `g` targets a cell that is empty in `g`: the sink
   * rule, the only rule whose target holds material, fires nowhere.
   */
  ghost predicate SinkNeverFires(g: seq<seq<Atom>>) {
    forall x, y :: Cell(g, x, y).Some? && Decide(g, x, y, g[y][x]).Swap? ==>
      EmptyAt(g, Decide(g, x, y, g[y][x]).tx, Decide(g, x, y, g[y][x]).ty)
  }

  /** With no sand directly above water the sink rule cannot fire. */
  lemma NoSinkNeverFires(g: seq<seq<Atom>>)
    requires NoSink(g)
    ensures SinkNeverFires(g)
  {
    forall x, y | Cell(g, x, y).Some? && Decide(g, x, y, g[y][x]).Swap?
      ensures EmptyAt(g, Decide(g, x, y, g[y][x]).tx, Decide(g, x, y, g[y][x]).ty)
    {
      assert !SinksAt(g, x, y);
    }
  }

  /**
   * When the sink rule fires nowhere, every move of the first `i` cells is an
   * exchange of two staged cells, and every later non-empty cell is still
   * staged with its own atom.
   */
  lemma {:induction false} StepAllConserves(g: seq<seq<Atom>>, height: nat, width: nat, pts: seq<Point<Atom>>, i: nat)
    requires Rect(g, height, width) && SinkNeverFires(g) && i <= |pts|
    requires forall k :: 0 <= k < |pts| ==> Cell(g, pts[k].x, pts[k].y) == Some(pts[k].value)
    requires forall k, j :: 0 <= k < j < |pts| ==> RowMajorBefore(pts[k], pts[j])
    ensures multiset(Flatten(StepAll(g, g, pts[..i]))) == multiset(Flatten(g))
    ensures forall j :: i <= j < |pts| && !pts[j].value.IsEmpty() ==>
      Cell(StepAll(g, g, pts[..i]), pts[j].x, pts[j].y) == Some(pts[j].value)
    decreases i
  {
    if i > 0 {
      StepAllConserves(g, height, width, pts, i - 1);
      var prev := StepAll(g, g, pts[..i - 1]);
      assert pts[..i][..i - 1] == pts[..i - 1];
      var p := pts[i - 1];
      var cur := StepAll(g, g, pts[..i]);
      assert cur == StepCell(g, prev, p);
      var rule := Decide(g, p.x, p.y, p.value);
      if rule.Swap? {
        assert g[p.y][p.x] == p.value;
        assert EmptyAt(g, rule.tx, rule.ty);
        SwapExchanges(prev, p.x, p.y, p.value, rule.tx, rule.ty, rule.fallback);
        forall j | i <= j < |pts| && !pts[j].value.IsEmpty()
          ensures Cell(cur, pts[j].x, pts[j].y) == Some(pts[j].value)
        {
          assert RowMajorBefore(pts[i - 1], pts[j]);
        }
      } else {
        assert Cell(prev, p.x, p.y).Some?;
        assert cur == prev;
      }
    }
  }

  /**
   * In a grid where the sink rule fires nowhere the tick makes and loses no
   * material: the multiset of atoms, hence the count of each element type, is
   * preserved.
   */
  lemma ConservationWhenSinkNeverFires(g: seq<seq<Atom>>, height: nat, width: nat)
    requires Rect(g, height, width) && SinkNeverFires(g)
    ensures multiset(Flatten(NextStateSpec(g))) == multiset(Flatten(g))
  {
    var pts := Points(g);
    PointsShape(g, height, width);
    StepAllConserves(g, height, width, pts, |pts|);
    assert pts[..|pts|] == pts;
  }

  /** The simpler sufficient condition: no sand directly above water anywhere. */
  lemma ConservationWithoutSink(g: seq<seq<Atom>>, height: nat, width: nat)
    requires Rect(g, height, width) && NoSink(g)
    ensures multiset(Flatten(NextStateSpec(g))) == multiset(Flatten(g))
  {
    NoSinkNeverFires(g);
    ConservationWhenSinkNeverFires(g, height, width);
  }

  /**
   * Sand above water whose lower-left neighbour is empty settles diagonally
   * instead of sinking, so this grid keeps its material although it has sand
   * directly above water.
   */
  lemma DiagonalOverWaterConserves()
    ensures !NoSink([[Atom(Void), Atom(Sand)], [Atom(Void), Atom(Water)]])
    ensures SinkNeverFires([[Atom(Void), Atom(Sand)], [Atom(Void), Atom(Water)]])
    ensures multiset(Flatten(NextStateSpec([[Atom(Void), Atom(Sand)], [Atom(Void), Atom(Water)]])))
         == multiset(Flatten([[Atom(Void), Atom(Sand)], [Atom(Void), Atom(Water)]]))
  {
    var g: seq<seq<Atom>> := [[Atom(Void), Atom(Sand)], [Atom(Void), Atom(Water)]];
    assert SinksAt(g, 1, 0);
    forall x, y | Cell(g, x, y).Some? && Decide(g, x, y, g[y][x]).Swap?
      ensures EmptyAt(g, Decide(g, x, y, g[y][x]).tx, Decide(g, x, y, g[y][x]).ty)
    {
      assert y == 0 || y == 1;
      assert x == 0 || x == 1;
      assert Decide(g, 1, 0, Atom(Sand)) == Swap(0, 1, CreateVoid());
    }
    ConservationWhenSinkNeverFires(g, 2, 2);
  }

  /** A grid without water keeps its sand. */
  lemma SandOnlyConserves(g: seq<seq<Atom>>, height: nat, width: nat)
    requires Rect(g, height, width)
    requires forall y, x :: InBounds(x, y, height, width) ==> g[y][x].kind != Water
    ensures multiset(Flatten(NextStateSpec(g))) == multiset(Flatten(g))
  {
    forall x, y ensures !SinksAt(g, x, y) {
      if Cell(g, x, y + 1).Some? {
        assert InBounds(x, y + 1, height, width);
      }
    }
    ConservationWithoutSink(g, height, width);
  }

  // ---------------------------------------------------------------------------
  // Scenarios
  // ---------------------------------------------------------------------------

  /** 3 x 3, sand at (1, 0): after one tick (1, 0) is empty, (1, 1) holds the sand, (1, 2) is still empty. */
  lemma FallScenario()
    ensures var r := NextStateSpec([[Atom(Void), Atom(Sand), Atom(Void)],
                                    [Atom(Void), Atom(Void), Atom(Void)],
                                    [Atom(Void), Atom(Void), Atom(Void)]]);
      r[0][1] == Atom(Void) && r[1][1] == Atom(Sand) && r[2][1] == Atom(Void)
  {
    var g: seq<seq<Atom>> := [[Atom(Void), Atom(Sand), Atom(Void)],
              [Atom(Void), Atom(Void), Atom(Void)],
              [Atom(Void), Atom(Void), Atom(Void)]];
    forall cy, cx | InBounds(cx, cy, 3, 3) && !(cx == 1 && cy == 0) ensures g[cy][cx].IsEmpty() {
      assert cy == 0 || cy == 1 || cy == 2;
    }
    SingleParticleFalls(g, 3, 3, 1, 0);
  }

  /**
   * 3 wide, 2 tall, sand at (1, 0) on sand at (1, 1), both (0, 1) and (2, 1)
   * empty: the top grain settles down-left, not down-right.
   */
  lemma DiagonalScenario()
    ensures var r := NextStateSpec([[Atom(Void), Atom(Sand), Atom(Void)],
                                    [Atom(Void), Atom(Sand), Atom(Void)]]);
      r[0][1] == Atom(Void) && r[1][0] == Atom(Sand) && r[1][1] == Atom(Sand) && r[1][2] == Atom(Void)
  {
    var g: seq<seq<Atom>> := [[Atom(Void), Atom(Sand), Atom(Void)],
                              [Atom(Void), Atom(Sand), Atom(Void)]];
    forall cy, cx | InBounds(cx, cy, 2, 3) && !(cx == 1 && cy == 0) && !g[cy][cx].IsEmpty() ensures cy == 1 {
      assert cy == 0 || cy == 1;
    }
    LoneAirborneAtom(g, 2, 3, 1, 0);
    assert Decide(g, 1, 0, Atom(Sand)) == Swap(0, 1, CreateVoid());
    var r := Write(Write(g, 1, 0, Atom(Void)), 0, 1, Atom(Sand));
    assert NextStateSpec(g) == r;
    assert Cell(r, 1, 0) == Some(Atom(Void)) && Cell(r, 0, 1) == Some(Atom(Sand));
    assert Cell(r, 1, 1) == Some(Atom(Sand)) && Cell(r, 2, 1) == Some(Atom(Void));
  }

  /** Sand at (0, 0) directly above water at (0, 1): after one tick the two have traded places. */
  lemma SinkScenario()
    ensures var r := NextStateSpec([[Atom(Sand)], [Atom(Water)]]);
      r[0][0] == Atom(Water) && r[1][0] == Atom(Sand)
  {
    var g: seq<seq<Atom>> := [[Atom(Sand)], [Atom(Water)]];
    LoneAirborneAtom(g, 2, 1, 0, 0);
    assert Decide(g, 0, 0, Atom(Sand)) == Swap(0, 1, Atom(Water));
    var r := Write(Write(g, 0, 0, Atom(Water)), 0, 1, Atom(Sand));
    assert NextStateSpec(g) == r;
    assert Cell(r, 0, 0) == Some(Atom(Water)) && Cell(r, 0, 1) == Some(Atom(Sand));
  }

  /** Water at (1, 0) on a floor of sand, with both sides empty, does not move. */
  lemma SpreadNoOpScenario()
    ensures NextStateSpec([[Atom(Void), Atom(Water), Atom(Void)], [Atom(Sand), Atom(Sand), Atom(Sand)]])
         == [[Atom(Void), Atom(Water), Atom(Void)], [Atom(Sand), Atom(Sand), Atom(Sand)]]
  {
    var g: seq<seq<Atom>> := [[Atom(Void), Atom(Water), Atom(Void)], [Atom(Sand), Atom(Sand), Atom(Sand)]];
    forall cy, cx | InBounds(cx, cy, 2, 3) && !(cx == 1 && cy == 0) && !g[cy][cx].IsEmpty() ensures cy == 1 {
      assert cy == 0 || cy == 1;
    }
    LoneAirborneAtom(g, 2, 3, 1, 0);
    assert Decide(g, 1, 0, Atom(Water)) == Skip;
  }

  /** Water at (1, 0) on a floor of sand, empty on the left and at the grid's edge on the right, moves left. */
  lemma SlideLeftScenario()
    ensures var r := NextStateSpec([[Atom(Void), Atom(Water)], [Atom(Sand), Atom(Sand)]]);
      r[0][0] == Atom(Water) && r[0][1] == Atom(Void)
  {
    var g: seq<seq<Atom>> := [[Atom(Void), Atom(Water)], [Atom(Sand), Atom(Sand)]];
    forall cy, cx | InBounds(cx, cy, 2, 2) && !(cx == 1 && cy == 0) && !g[cy][cx].IsEmpty() ensures cy == 1 {
      assert cy == 0 || cy == 1;
    }
    LoneAirborneAtom(g, 2, 2, 1, 0);
    assert Decide(g, 1, 0, Atom(Water)) == Swap(0, 0, CreateVoid());
    var r := Write(Write(g, 1, 0, Atom(Void)), 0, 0, Atom(Water));
    assert NextStateSpec(g) == r;
    assert Cell(r, 0, 0) == Some(Atom(Water)) && Cell(r, 1, 0) == Some(Atom(Void));
  }

  /** Width 1: sand over water over empty. The sand sinks, then the water falls onto it: the sand is lost. */
  lemma SinkColumnLosesSand()
    ensures NextStateSpec([[Atom(Sand)], [Atom(Water)], [Atom(Void)]]) == [[Atom(Water)], [Atom(Void)], [Atom(Water)]]
    ensures multiset(Flatten(NextStateSpec([[Atom(Sand)], [Atom(Water)], [Atom(Void)]])))
         != multiset(Flatten([[Atom(Sand)], [Atom(Water)], [Atom(Void)]]))
  {
    var g: seq<seq<Atom>> := [[Atom(Sand)], [Atom(Water)], [Atom(Void)]];
    var n2: seq<seq<Atom>> := [[Atom(Water)], [Atom(Void)], [Atom(Water)]];
    SinkColumnTick();
    ColumnFlatten(Atom(Water), Atom(Void), Atom(Water));
    ColumnFlatten(Atom(Sand), Atom(Water), Atom(Void));
    assert multiset(Flatten(n2))[Atom(Sand)] == 0;
    assert multiset(Flatten(g))[Atom(Sand)] == 1;
  }

  /**
   * No bound of one cell per tick holds for a grain of material, even where
   * material is kept. In the grid
   *   V V S
   *   W V S
   *   S S S
   * the sand at (2, 0) settles down-left into (1, 1). The water at (0, 1) then
   * moves right into (1, 1), which is empty in the old grid, and carries the
   * staged sand back to (0, 1). Exactly three cells change, and the only
   * cell that loses sand, (2, 0), and the only cell that gains sand, (0, 1),
   * are two columns apart.
   */
  lemma TwoColumnDrift()
    ensures var g := DriftGrid();
      NextStateSpec(g) == [[Atom(Void), Atom(Void), Atom(Void)],
                           [Atom(Sand), Atom(Water), Atom(Sand)],
                           [Atom(Sand), Atom(Sand), Atom(Sand)]]
    ensures var g := DriftGrid();
      multiset(Flatten(NextStateSpec(g))) == multiset(Flatten(g))
    ensures var g := DriftGrid(); var r := NextStateSpec(g);
      forall y, x :: 0 <= y < 3 && 0 <= x < 3 && (g[y][x] == Atom(Sand)) != (r[y][x] == Atom(Sand)) ==>
        (x == 2 && y == 0 && r[y][x] == Atom(Void)) || (x == 0 && y == 1 && g[y][x] == Atom(Water))
  {
    DriftTick();
    DriftKeepsMaterial();
    DriftSandCells();
  }

  /** The grid of `TwoColumnDrift`. */
  function DriftGrid(): (g: seq<seq<Atom>>)
    ensures Rect(g, 3, 3)
  {
    [[Atom(Void), Atom(Void), Atom(Sand)],
     [Atom(Water), Atom(Void), Atom(Sand)],
     [Atom(Sand), Atom(Sand), Atom(Sand)]]
  }

  lemma RowsFlatten(a: seq<Atom>, b: seq<Atom>, c: seq<Atom>)
    ensures Flatten([a, b, c]) == a + b + c
  {
    var g: seq<seq<Atom>> := [a, b, c];
    assert g[1..] == [b, c] && g[1..][1..] == [c] && g[1..][1..][1..] == [];
    assert Flatten([c]) == c + Flatten([]);
    assert Flatten([b, c]) == b + Flatten([c]);
    assert Flatten(g) == a + Flatten([b, c]);
  }

  /** The drift tick's result holds the same atoms as the drift grid. */
  lemma DriftKeepsMaterial()
    ensures multiset(Flatten(DriftGrid()))
         == multiset(Flatten([[Atom(Void), Atom(Void), Atom(Void)],
                              [Atom(Sand), Atom(Water), Atom(Sand)],
                              [Atom(Sand), Atom(Sand), Atom(Sand)]]))
  {
    var g := DriftGrid();
    var r: seq<seq<Atom>> := [[Atom(Void), Atom(Void), Atom(Void)],
                              [Atom(Sand), Atom(Water), Atom(Sand)],
                              [Atom(Sand), Atom(Sand), Atom(Sand)]];
    RowsFlatten(g[0], g[1], g[2]);
    RowsFlatten(r[0], r[1], r[2]);
    assert g == [g[0], g[1], g[2]] && r == [r[0], r[1], r[2]];
    var front: seq<Atom> := [Atom(Void), Atom(Void)];
    var back: seq<Atom> := [Atom(Sand), Atom(Sand), Atom(Sand), Atom(Sand)];
    assert Flatten(g) == front + [Atom(Sand), Atom(Water), Atom(Void)] + back;
    assert Flatten(r) == front + [Atom(Void), Atom(Sand), Atom(Water)] + back;
    assert multiset([Atom(Sand), Atom(Water), Atom(Void)]) == multiset([Atom(Void), Atom(Sand), Atom(Water)]);
  }

  /** Between the drift grid and its tick, only (2, 0) loses sand and only (0, 1) gains it. */
  lemma DriftSandCells()
    ensures var g := DriftGrid();
      var r: seq<seq<Atom>> := [[Atom(Void), Atom(Void), Atom(Void)],
                                [Atom(Sand), Atom(Water), Atom(Sand)],
                                [Atom(Sand), Atom(Sand), Atom(Sand)]];
      forall y, x :: 0 <= y < 3 && 0 <= x < 3 && (g[y][x] == Atom(Sand)) != (r[y][x] == Atom(Sand)) ==>
        (x == 2 && y == 0 && r[y][x] == Atom(Void)) || (x == 0 && y == 1 && g[y][x] == Atom(Water))
  {
    var g := DriftGrid();
    var r: seq<seq<Atom>> := [[Atom(Void), Atom(Void), Atom(Void)],
                              [Atom(Sand), Atom(Water), Atom(Sand)],
                              [Atom(Sand), Atom(Sand), Atom(Sand)]];
    forall y, x | 0 <= y < 3 && 0 <= x < 3 && (g[y][x] == Atom(Sand)) != (r[y][x] == Atom(Sand))
      ensures (x == 2 && y == 0 && r[y][x] == Atom(Void)) || (x == 0 && y == 1 && g[y][x] == Atom(Water))
    {
      assert y == 0 || y == 1 || y == 2;
      assert x == 0 || x == 1 || x == 2;
    }
  }

  /** The drift grid's tick: two moves, then nothing. */
  lemma DriftTick()
    ensures NextStateSpec(DriftGrid()) == [[Atom(Void), Atom(Void), Atom(Void)],
                                           [Atom(Sand), Atom(Water), Atom(Sand)],
                                           [Atom(Sand), Atom(Sand), Atom(Sand)]]
  {
    var g := DriftGrid();
    var pts := DriftPoints();
    DriftPointsAre();
    var n1: seq<seq<Atom>> := [[Atom(Void), Atom(Void), Atom(Void)],
                               [Atom(Water), Atom(Sand), Atom(Sand)],
                               [Atom(Sand), Atom(Sand), Atom(Sand)]];
    var n2: seq<seq<Atom>> := [[Atom(Void), Atom(Void), Atom(Void)],
                               [Atom(Sand), Atom(Water), Atom(Sand)],
                               [Atom(Sand), Atom(Sand), Atom(Sand)]];
    // The two empty cells before the first move do nothing.
    assert pts[..2] == [Point(0, 0, Atom(Void)), Point(1, 0, Atom(Void))];
    StepAllQuiet(g, g, pts[..2]);
    assert pts[..3][..2] == pts[..2] && pts[..3][2] == Point(2, 0, Atom(Sand));
    DriftFirstMove();
    assert StepAll(g, g, pts[..3]) == n1;
    assert pts[..4][..3] == pts[..3] && pts[..4][3] == Point(0, 1, Atom(Water));
    DriftSecondMove();
    assert StepAll(g, g, pts[..4]) == n2;
    // The five cells after the second move stay where they are.
    DriftRestQuiet(pts[4..]);
    StepAllAppend(g, g, pts[..4], pts[4..]);
    assert pts[..4] + pts[4..] == pts;
  }

  /** The drift grid's points, in row-major order. */
  function DriftPoints(): seq<Point<Atom>> {
    [Point(0, 0, Atom(Void)), Point(1, 0, Atom(Void)), Point(2, 0, Atom(Sand)),
     Point(0, 1, Atom(Water)), Point(1, 1, Atom(Void)), Point(2, 1, Atom(Sand)),
     Point(0, 2, Atom(Sand)), Point(1, 2, Atom(Sand)), Point(2, 2, Atom(Sand))]
  }

  lemma DriftPointsAre()
    ensures Points(DriftGrid()) == DriftPoints()
  {
    var g := DriftGrid();
    var r0 := [Point(0, 0, Atom(Void)), Point(1, 0, Atom(Void)), Point(2, 0, Atom(Sand))];
    var r1 := [Point(0, 1, Atom(Water)), Point(1, 1, Atom(Void)), Point(2, 1, Atom(Sand))];
    var r2 := [Point(0, 2, Atom(Sand)), Point(1, 2, Atom(Sand)), Point(2, 2, Atom(Sand))];
    assert RowPoints(g[0], 0) == r0;
    assert RowPoints(g[1], 1) == r1;
    assert RowPoints(g[2], 2) == r2;
    assert PointsFrom(g, 3) == [];
    assert PointsFrom(g, 2) == r2 + [];
    assert PointsFrom(g, 1) == r1 + r2;
    assert PointsFrom(g, 0) == r0 + (r1 + r2);
    assert r0 + (r1 + r2) == DriftPoints();
  }

  lemma DriftFirstMove()
    ensures StepCell(DriftGrid(), DriftGrid(), Point(2, 0, Atom(Sand)))
         == [[Atom(Void), Atom(Void), Atom(Void)],
             [Atom(Water), Atom(Sand), Atom(Sand)],
             [Atom(Sand), Atom(Sand), Atom(Sand)]]
  {
    var g := DriftGrid();
    assert Decide(g, 2, 0, Atom(Sand)) == Swap(1, 1, CreateVoid());
    var w1 := g[0 := g[0][2 := Atom(Void)]];
    assert Write(g, 2, 0, Atom(Void)) == w1;
    assert w1[0] == [Atom(Void), Atom(Void), Atom(Void)];
    assert Write(w1, 1, 1, Atom(Sand)) == w1[1 := w1[1][1 := Atom(Sand)]];
    assert w1[1][1 := Atom(Sand)] == [Atom(Water), Atom(Sand), Atom(Sand)];
  }

  lemma DriftSecondMove()
    ensures StepCell(DriftGrid(),
                     [[Atom(Void), Atom(Void), Atom(Void)],
                      [Atom(Water), Atom(Sand), Atom(Sand)],
                      [Atom(Sand), Atom(Sand), Atom(Sand)]],
                     Point(0, 1, Atom(Water)))
         == [[Atom(Void), Atom(Void), Atom(Void)],
             [Atom(Sand), Atom(Water), Atom(Sand)],
             [Atom(Sand), Atom(Sand), Atom(Sand)]]
  {
    var g := DriftGrid();
    var n1: seq<seq<Atom>> := [[Atom(Void), Atom(Void), Atom(Void)],
                               [Atom(Water), Atom(Sand), Atom(Sand)],
                               [Atom(Sand), Atom(Sand), Atom(Sand)]];
    assert !EmptyAt(g, -1, 2) && !EmptyAt(g, 1, 2) && !EmptyAt(g, -1, 1) && EmptyAt(g, 1, 1);
    assert Decide(g, 0, 1, Atom(Water)) == Swap(1, 1, CreateVoid());
    var w1 := n1[1 := n1[1][0 := Atom(Sand)]];
    assert Write(n1, 0, 1, Atom(Sand)) == w1;
    assert w1[1] == [Atom(Sand), Atom(Sand), Atom(Sand)];
    assert Write(w1, 1, 1, Atom(Water)) == w1[1 := w1[1][1 := Atom(Water)]];
    assert w1[1][1 := Atom(Water)] == [Atom(Sand), Atom(Water), Atom(Sand)];
  }

  /** The points (1, 1) to (2, 2) of the drift grid are not moves. */
  lemma DriftRestQuiet(rest: seq<Point<Atom>>)
    requires rest == DriftPoints()[4..]
    ensures StepAll(DriftGrid(), [[Atom(Void), Atom(Void), Atom(Void)],
                                  [Atom(Sand), Atom(Water), Atom(Sand)],
                                  [Atom(Sand), Atom(Sand), Atom(Sand)]], rest)
         == [[Atom(Void), Atom(Void), Atom(Void)],
             [Atom(Sand), Atom(Water), Atom(Sand)],
             [Atom(Sand), Atom(Sand), Atom(Sand)]]
  {
    var g := DriftGrid();
    var n2: seq<seq<Atom>> := [[Atom(Void), Atom(Void), Atom(Void)],
                               [Atom(Sand), Atom(Water), Atom(Sand)],
                               [Atom(Sand), Atom(Sand), Atom(Sand)]];
    assert rest == [Point(1, 1, Atom(Void)), Point(2, 1, Atom(Sand)),
                    Point(0, 2, Atom(Sand)), Point(1, 2, Atom(Sand)), Point(2, 2, Atom(Sand))];
    assert Decide(g, 2, 1, Atom(Sand)) == Stay;
    StepAllQuiet(g, n2, rest);
  }

  lemma ColumnFlatten(a: Atom, b: Atom, c: Atom)
    ensures Flatten([[a], [b], [c]]) == [a, b, c]
  {
    var g: seq<seq<Atom>> := [[a], [b], [c]];
    assert g[1..] == [[b], [c]] && g[1..][1..] == [[c]] && g[1..][1..][1..] == [];
    assert Flatten([[c]]) == [c] + Flatten([]);
    assert Flatten([[b], [c]]) == [b] + Flatten([[c]]);
    assert Flatten(g) == [a] + Flatten([[b], [c]]);
  }

  /** The sink column's tick, one visited cell at a time. */
  lemma SinkColumnTick()
    ensures NextStateSpec([[Atom(Sand)], [Atom(Water)], [Atom(Void)]]) == [[Atom(Water)], [Atom(Void)], [Atom(Water)]]
  {
    var g: seq<seq<Atom>> := [[Atom(Sand)], [Atom(Water)], [Atom(Void)]];
    var pts := [Point(0, 0, Atom(Sand)), Point(0, 1, Atom(Water)), Point(0, 2, Atom(Void))];
    ColumnPoints();
    var n1: seq<seq<Atom>> := [[Atom(Water)], [Atom(Sand)], [Atom(Void)]];
    var n2: seq<seq<Atom>> := [[Atom(Water)], [Atom(Void)], [Atom(Water)]];
    SinkColumnFirstCell();
    SinkColumnSecondCell();
    assert pts[..1][..0] == [];
    assert StepAll(g, g, pts[..1]) == n1;
    assert pts[..2][..1] == pts[..1];
    assert StepAll(g, g, pts[..2]) == n2;
    assert pts[..2] == pts[..|pts| - 1];
    assert StepAll(g, g, pts) == StepCell(g, n2, pts[2]);
    assert Decide(g, 0, 2, Atom(Void)) == Skip;
  }

  lemma ColumnPoints()
    ensures Points([[Atom(Sand)], [Atom(Water)], [Atom(Void)]])
         == [Point(0, 0, Atom(Sand)), Point(0, 1, Atom(Water)), Point(0, 2, Atom(Void))]
  {
    var g: seq<seq<Atom>> := [[Atom(Sand)], [Atom(Water)], [Atom(Void)]];
    PointsShape(g, 3, 1);
    assert InBounds(0, 0, 3, 1) && InBounds(0, 1, 3, 1) && InBounds(0, 2, 3, 1);
  }

  lemma SinkColumnFirstCell()
    ensures StepCell([[Atom(Sand)], [Atom(Water)], [Atom(Void)]], [[Atom(Sand)], [Atom(Water)], [Atom(Void)]],
                     Point(0, 0, Atom(Sand)))
         == [[Atom(Water)], [Atom(Sand)], [Atom(Void)]]
  {
    var g: seq<seq<Atom>> := [[Atom(Sand)], [Atom(Water)], [Atom(Void)]];
    assert Decide(g, 0, 0, Atom(Sand)) == Swap(0, 1, Atom(Water));
    var w1: seq<seq<Atom>> := [[Atom(Water)], [Atom(Water)], [Atom(Void)]];
    assert Write(g, 0, 0, Atom(Water)) == g[0 := g[0][0 := Atom(Water)]];
    assert g[0][0 := Atom(Water)] == [Atom(Water)];
    assert g[0 := [Atom(Water)]] == w1;
    assert Write(w1, 0, 1, Atom(Sand)) == w1[1 := w1[1][0 := Atom(Sand)]];
    assert w1[1][0 := Atom(Sand)] == [Atom(Sand)];
    assert w1[1 := [Atom(Sand)]] == [[Atom(Water)], [Atom(Sand)], [Atom(Void)]];
  }

  lemma SinkColumnSecondCell()
    ensures StepCell([[Atom(Sand)], [Atom(Water)], [Atom(Void)]], [[Atom(Water)], [Atom(Sand)], [Atom(Void)]],
                     Point(0, 1, Atom(Water)))
         == [[Atom(Water)], [Atom(Void)], [Atom(Water)]]
  {
    var g: seq<seq<Atom>> := [[Atom(Sand)], [Atom(Water)], [Atom(Void)]];
    var n1: seq<seq<Atom>> := [[Atom(Water)], [Atom(Sand)], [Atom(Void)]];
    assert Decide(g, 0, 1, Atom(Water)) == Swap(0, 2, Atom(Void));
    var w2: seq<seq<Atom>> := [[Atom(Water)], [Atom(Void)], [Atom(Void)]];
    assert Write(n1, 0, 1, Atom(Void)) == n1[1 := n1[1][0 := Atom(Void)]];
    assert n1[1][0 := Atom(Void)] == [Atom(Void)];
    assert n1[1 := [Atom(Void)]] == w2;
    assert Write(w2, 0, 2, Atom(Water)) == w2[2 := w2[2][0 := Atom(Water)]];
    assert w2[2][0 := Atom(Water)] == [Atom(Water)];
    assert w2[2 := [Atom(Water)]] == [[Atom(Water)], [Atom(Void)], [Atom(Water)]];
  }
}
