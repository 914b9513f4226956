/**
 * The driver of the simulator (`Sandbox` in src/main.ts): it owns the current
 * grid, paints material into it with a square brush, and advances it by
 * `velocity` ticks per frame. The display, the timer and the mouse wiring are
 * not part of this model.
 */
module Sandboxes {
  import opened Options
  import opened Grids
  import opened Atoms
  import Universe

  /** (cx, cy) lies in the square of half-side `b` centred on (x, y). */
  predicate InBrush(cx: int, cy: int, x: int, y: int, b: int) {
    x - b <= cx <= x + b && y - b <= cy <= y + b
  }

  /**
   * The grid after painting `atom` into every cell of the brush square that
   * exists; the rest of the grid keeps its values. A negative brush size is an
   * empty square.
   */
  function Brush<T>(g: seq<seq<T>>, x: int, y: int, atom: T, brushSize: int): (r: seq<seq<T>>)
    ensures SameShape(r, g)
  {
    seq(|g|, cy requires 0 <= cy < |g| =>
      seq(|g[cy]|, cx requires 0 <= cx < |g[cy]| =>
        if InBrush(cx, cy, x, y, brushSize) then atom else g[cy][cx]))
  }

  /** Every cell inside the square that exists holds `atom`; every other cell is untouched. */
  lemma BrushAt<T>(g: seq<seq<T>>, x: int, y: int, atom: T, brushSize: int, cx: int, cy: int)
    ensures Cell(Brush(g, x, y, atom, brushSize), cx, cy)
         == if InBrush(cx, cy, x, y, brushSize) && Cell(g, cx, cy).Some? then Some(atom) else Cell(g, cx, cy)
  {}

  /** Painting the same square twice is painting it once. */
  lemma BrushIdempotent<T>(g: seq<seq<T>>, x: int, y: int, atom: T, brushSize: int)
    ensures Brush(Brush(g, x, y, atom, brushSize), x, y, atom, brushSize) == Brush(g, x, y, atom, brushSize)
  {
    var once := Brush(g, x, y, atom, brushSize);
    var twice := Brush(once, x, y, atom, brushSize);
    forall cy | 0 <= cy < |g| ensures twice[cy] == once[cy] {
      assert |twice[cy]| == |once[cy]|;
    }
  }

  /** With brush size 0 the brush is the single write of `Matrix.set`. */
  lemma BrushPoint<T>(g: seq<seq<T>>, x: int, y: int, atom: T)
    ensures Brush(g, x, y, atom, 0) == Write(g, x, y, atom)
  {
    var r := Brush(g, x, y, atom, 0);
    var w := Write(g, x, y, atom);
    forall cy | 0 <= cy < |g| ensures r[cy] == w[cy] {
      forall cx | 0 <= cx < |g[cy]| ensures r[cy][cx] == w[cy][cx] {
        assert Cell(w, cx, cy) == Some(w[cy][cx]);
      }
    }
  }

  /** `n` applications of `step`, one after another; none for `n <= 0`. */
  function Repeat<T>(step: T -> T, x: T, n: int): T
    decreases n
  {
    if n <= 0 then x else step(Repeat(step, x, n - 1))
  }

  /** `m + n` applications are `m` applications followed by `n` more. */
  lemma {:induction false} RepeatAdd<T>(step: T -> T, x: T, m: nat, n: nat)
    ensures Repeat(step, Repeat(step, x, m), n) == Repeat(step, x, m + n)
    decreases n
  {
    if n > 0 {
      RepeatAdd(step, x, m, n - 1);
      assert m + n - 1 == m + (n - 1);
    }
  }

  /** A fixed point of `step` is a fixed point of any number of applications. */
  lemma {:induction false} RepeatFixed<T>(step: T -> T, x: T, n: int)
    requires step(x) == x
    ensures Repeat(step, x, n) == x
    decreases n
  {
    if n > 0 {
      RepeatFixed(step, x, n - 1);
    }
  }

  /** `n` ticks of the universe, one after another; no ticks for `n <= 0`. */
  function Iterate(g: seq<seq<Atom>>, n: int): seq<seq<Atom>> {
    Repeat(Universe.NextStateSpec, g, n)
  }

  /** Any number of ticks keeps the grid's shape. */
  lemma {:induction false} IterateShape(g: seq<seq<Atom>>, n: int)
    ensures SameShape(Iterate(g, n), g)
    decreases n
  {
    if n > 0 {
      IterateShape(g, n - 1);
      var prev := Iterate(g, n - 1);
      assert Iterate(g, n) == Universe.NextStateSpec(prev);
    }
  }

  /** An all-empty grid stays all-empty however many ticks it is advanced. */
  lemma IterateAllVoid(g: seq<seq<Atom>>, height: nat, width: nat, n: int)
    requires Rect(g, height, width)
    requires forall y, x :: InBounds(x, y, height, width) ==> g[y][x].IsEmpty()
    ensures Iterate(g, n) == g
  {
    Universe.AllVoidIsFixedPoint(g, height, width);
    RepeatFixed(Universe.NextStateSpec, g, n);
  }

  /** `m + n` ticks are `m` ticks followed by `n` more. */
  lemma IterateAdd(g: seq<seq<Atom>>, m: nat, n: nat)
    ensures Iterate(Iterate(g, m), n) == Iterate(g, m + n)
  {
    RepeatAdd(Universe.NextStateSpec, g, m, n);
  }

  class Sandbox {
    var matrix: Matrix<Atom>
    var velocity: int

    ghost predicate Valid()
      reads this, matrix
    {
      matrix.Valid()
    }

    /** A sandbox of the display's size, every cell empty, advancing one tick per frame. */
    constructor (height: nat, width: nat)
      ensures Valid() && fresh(matrix)
      ensures matrix.height == height && matrix.width == width
      ensures forall y, x :: InBounds(x, y, height, width) ==> matrix.matrix[y][x] == CreateVoid()
      ensures velocity == 1
    {
      matrix := new Matrix<Atom>(height, width, CreateVoid());
      velocity := 1;
    }

    /**
     * Paints `atom` into the square of half-side `brushSize` around (x, y),
     * column by column; cells of the square outside the grid are skipped by
     * `Matrix.set`.
     */
    method SetAtom(x: int, y: int, atom: Atom, brushSize: int)
      requires Valid()
      modifies matrix
      ensures Valid()
      ensures matrix.matrix == Brush(old(matrix.matrix), x, y, atom, brushSize)
    {
      ghost var g0 := matrix.matrix;
      var cursorX := x - brushSize;
      while cursorX < x + brushSize + 1
        invariant matrix.Valid()
        invariant x - brushSize <= cursorX
        invariant cursorX <= x + brushSize + 1 || cursorX == x - brushSize
        invariant forall cy, cx :: InBounds(cx, cy, matrix.height, matrix.width) ==>
          matrix.matrix[cy][cx] == if x - brushSize <= cx < cursorX && y - brushSize <= cy <= y + brushSize then atom else g0[cy][cx]
        decreases x + brushSize + 1 - cursorX
      {
        var cursorY := y - brushSize;
        while cursorY < y + brushSize + 1
          invariant matrix.Valid()
          invariant y - brushSize <= cursorY <= y + brushSize + 1
          invariant forall cy, cx :: InBounds(cx, cy, matrix.height, matrix.width) ==>
            matrix.matrix[cy][cx]
              == if (x - brushSize <= cx < cursorX && y - brushSize <= cy <= y + brushSize)
                    || (cx == cursorX && y - brushSize <= cy < cursorY)
                 then atom else g0[cy][cx]
          decreases y + brushSize + 1 - cursorY
        {
          ghost var before := matrix.matrix;
          matrix.Set(cursorX, cursorY, atom);
          forall cy, cx | InBounds(cx, cy, matrix.height, matrix.width)
            ensures matrix.matrix[cy][cx] == if cx == cursorX && cy == cursorY then atom else before[cy][cx]
          {
            assert Cell(matrix.matrix, cx, cy) == Some(matrix.matrix[cy][cx]);
          }
          cursorY := cursorY + 1;
        }
        cursorX := cursorX + 1;
      }
      var r := Brush(g0, x, y, atom, brushSize);
      assert cursorX == x + brushSize + 1 || brushSize < 0;
      assert forall cy, cx :: InBounds(cx, cy, matrix.height, matrix.width) ==> matrix.matrix[cy][cx] == r[cy][cx];
      RectEq(matrix.matrix, r, matrix.height, matrix.width);
    }

    /**
     * One frame without the repaint: `velocity` ticks of the universe, each
     * replacing the sandbox's grid by the next one.
     */
    method Advance()
      requires Valid()
      modifies this
      ensures Valid() && velocity == old(velocity)
      ensures matrix.height == old(matrix.height) && matrix.width == old(matrix.width)
      ensures matrix.matrix == Iterate(old(matrix.matrix), velocity)
    {
      ghost var g0 := matrix.matrix;
      var i := 0;
      while i < velocity
        invariant matrix.Valid() && velocity == old(velocity)
        invariant matrix.height == old(matrix.height) && matrix.width == old(matrix.width)
        invariant 0 <= i && (i <= velocity || i == 0)
        invariant matrix.matrix == Iterate(g0, i)
        decreases velocity - i
      {
        matrix := Universe.NextState(matrix);
        i := i + 1;
      }
    }
  }
}
