/**
  Views of pads larger than the screen.  Rows and columns work alike, so this is
  about one axis: a pad of `size` cells, a view of `view` cells that begins at
  cell `pos`, and steps of `grid` cells.
 */
module PadViewport {

  // ---- Moving ----------------------------------------------------------------

  /** The last position that the code allows. */
  function Limit(size: nat, view: nat): nat
  {
    if size > view + 1 then size - view - 1 else 0
  }

  function Min(a: int, b: int): int
  {
    if a < b then a else b
  }

  function Max(a: int, b: int): int
  {
    if a > b then a else b
  }

  datatype Move = Back | Forward | Stay

  function After(pos: int, move: Move, limit: nat, grid: nat): int
  {
    match move
    case Back => Max(0, pos - grid)
    case Forward => Min(limit, pos + grid)
    case Stay => pos
  }

  function AfterAll(pos: int, moves: seq<Move>, limit: nat, grid: nat): int
  {
    if moves == [] then pos
    else After(AfterAll(pos, moves[..|moves| - 1], limit, grid), moves[|moves| - 1], limit, grid)
  }

  /** In every run the view stays between the first position and the limit. */
  lemma {:induction false} RunsStayInRange(pos: nat, moves: seq<Move>, limit: nat, grid: nat)
    requires pos <= limit
    ensures 0 <= AfterAll(pos, moves, limit, grid) <= limit
  {
    if moves != [] {
      RunsStayInRange(pos, moves[..|moves| - 1], limit, grid);
    }
  }

  function Repeat(move: Move, n: nat): (moves: seq<Move>)
    ensures |moves| == n
  {
    seq(n, i => move)
  }

  lemma RepeatNext(move: Move, n: nat)
    requires n > 0
    ensures Repeat(move, n)[..n - 1] == Repeat(move, n - 1) && Repeat(move, n)[n - 1] == move
  {
  }

  lemma {:induction false} ManyForward(pos: nat, n: nat, limit: nat, grid: nat)
    requires pos <= limit
    ensures AfterAll(pos, Repeat(Forward, n), limit, grid) == Min(limit, pos + n * grid)
  {
    if n > 0 {
      RepeatNext(Forward, n);
      ManyForward(pos, n - 1, limit, grid);
      assert n * grid == (n - 1) * grid + grid;
    }
  }

  lemma {:induction false} ManyBack(pos: nat, n: nat, limit: nat, grid: nat)
    requires pos <= limit
    ensures AfterAll(pos, Repeat(Back, n), limit, grid) == Max(0, pos - n * grid)
  {
    if n > 0 {
      RepeatNext(Back, n);
      ManyBack(pos, n - 1, limit, grid);
      assert n * grid == (n - 1) * grid + grid;
    }
  }

  /** The quotient rounded up, as the code computes it. */
  function CeilDiv(a: nat, b: nat): nat
    requires b > 0
  {
    (a + b - 1) / b
  }

  /** It is the least number of steps of length `b` that cover `a`. */
  lemma CeilDivIsLeast(a: nat, b: nat, n: nat)
    requires b > 0
    ensures n >= CeilDiv(a, b) <==> n * b >= a
  {
    var q := CeilDiv(a, b);
    assert q * b <= a + b - 1 < q * b + b;
    if n >= q {
      assert n * b >= q * b;
    } else {
      assert (q - 1) * b == q * b - b;
      assert n * b <= (q - 1) * b;
    }
  }

  /** Moving forward again and again reaches the limit at the step whose number
      is the gap divided by the grid, rounded up, and not before. */
  lemma ForwardReachesLimit(pos: nat, n: nat, limit: nat, grid: nat)
    requires pos <= limit && grid > 0
    ensures AfterAll(pos, Repeat(Forward, n), limit, grid) == limit <==> n >= CeilDiv(limit - pos, grid)
  {
    ManyForward(pos, n, limit, grid);
    CeilDivIsLeast(limit - pos, grid, n);
  }

  lemma BackReachesStart(pos: nat, n: nat, limit: nat, grid: nat)
    requires pos <= limit && grid > 0
    ensures AfterAll(pos, Repeat(Back, n), limit, grid) == 0 <==> n >= CeilDiv(pos, grid)
  {
    ManyBack(pos, n, limit, grid);
    CeilDivIsLeast(pos, grid, n);
  }

  // ---- What can be seen ------------------------------------------------------

  predicate Shown(pos: int, view: nat, cell: nat)
  {
    pos <= cell < pos + view
  }

  /** On a pad larger than the view the last cell is never shown, because the
      limit is one less than the room there is. */
  lemma LastCellNeverShown(size: nat, view: nat, moves: seq<Move>, grid: nat)
    requires size > view
    ensures !Shown(AfterAll(0, moves, Limit(size, view), grid), view, size - 1)
  {
    RunsStayInRange(0, moves, Limit(size, view), grid);
  }

  lemma StepsBefore(cell: nat, grid: nat) returns (n: nat)
    requires grid > 0
    ensures n * grid <= cell < n * grid + grid
  {
    n := cell / grid;
  }

  /** With steps no longer than the view, some run shows a cell exactly when the
      whole pad fits or the cell is not the last. */
  lemma ShortStepsShowIff(size: nat, view: nat, cell: nat, grid: nat)
    requires cell < size && 0 < grid <= view
    ensures (exists moves :: Shown(AfterAll(0, moves, Limit(size, view), grid), view, cell)) <==>
            size <= view || cell < size - 1
  {
    if size <= view || cell < size - 1 {
      var limit := Limit(size, view);
      var n := StepsBefore(cell, grid);
      ManyForward(0, n, limit, grid);
      assert Shown(AfterAll(0, Repeat(Forward, n), limit, grid), view, cell);
    } else {
      forall moves ensures !Shown(AfterAll(0, moves, Limit(size, view), grid), view, cell) {
        LastCellNeverShown(size, view, moves, grid);
      }
    }
  }

  // ---- Steps of any length -----------------------------------------------------

  /** `n` steps from the start, or `n` steps back from the limit. */
  predicate StopAt(pos: int, limit: nat, grid: nat, n: nat)
  {
    pos == n * grid || pos == limit - n * grid
  }

  ghost predicate Stop(pos: int, limit: nat, grid: nat)
  {
    0 <= pos <= limit && exists n: nat :: StopAt(pos, limit, grid, n)
  }

  lemma StepsStop(pos: int, move: Move, limit: nat, grid: nat)
    requires Stop(pos, limit, grid)
    ensures Stop(After(pos, move, limit, grid), limit, grid)
  {
    var n: nat :| StopAt(pos, limit, grid, n);
    var pos' := After(pos, move, limit, grid);
    assert (n + 1) * grid == n * grid + grid;
    assert n > 0 ==> (n - 1) * grid == n * grid - grid;
    assert StopAt(pos', limit, grid, 0) || StopAt(pos', limit, grid, n) || StopAt(pos', limit, grid, n + 1)
        || (n > 0 && StopAt(pos', limit, grid, n - 1));
  }

  lemma {:induction false} RunsStop(moves: seq<Move>, limit: nat, grid: nat)
    ensures Stop(AfterAll(0, moves, limit, grid), limit, grid)
  {
    if moves == [] {
      assert StopAt(0, limit, grid, 0);
    } else {
      var n := |moves| - 1;
      RunsStop(moves[..n], limit, grid);
      StepsStop(AfterAll(0, moves[..n], limit, grid), moves[n], limit, grid);
    }
  }

  lemma {:induction false} AfterAllAppend(pos: int, a: seq<Move>, b: seq<Move>, limit: nat, grid: nat)
    ensures AfterAll(pos, a + b, limit, grid) == AfterAll(AfterAll(pos, a, limit, grid), b, limit, grid)
  {
    if b == [] {
      assert a + b == a;
    } else {
      var n := |b| - 1;
      AfterAllAppend(pos, a, b[..n], limit, grid);
      assert (a + b)[..|a| + n] == a + b[..n];
    }
  }

  /** Every stop is reached by some run. */
  lemma StopReached(pos: int, limit: nat, grid: nat) returns (moves: seq<Move>)
    requires Stop(pos, limit, grid) && grid > 0
    ensures AfterAll(0, moves, limit, grid) == pos
  {
    var n: nat :| StopAt(pos, limit, grid, n);
    if pos == n * grid {
      moves := Repeat(Forward, n);
      ManyForward(0, n, limit, grid);
    } else {
      moves := Repeat(Forward, limit) + Repeat(Back, n);
      ManyForward(0, limit, limit, grid);
      assert limit * grid >= limit;
      ManyBack(limit, n, limit, grid);
      AfterAllAppend(0, Repeat(Forward, limit), Repeat(Back, n), limit, grid);
    }
  }

  /** The positions that some run reaches are exactly the stops. */
  lemma ReachedIffStop(pos: int, limit: nat, grid: nat)
    requires grid > 0
    ensures (exists moves :: AfterAll(0, moves, limit, grid) == pos) <==> Stop(pos, limit, grid)
  {
    if moves :| AfterAll(0, moves, limit, grid) == pos {
      RunsStop(moves, limit, grid);
    }
    if Stop(pos, limit, grid) {
      var moves := StopReached(pos, limit, grid);
    }
  }

  /** The last stop at or before `cell` on the way out, and on the way back from
      the limit, which is negative if there is none. */
  function StopOut(cell: nat, limit: nat, grid: nat): int
    requires grid > 0
  {
    Min(cell, limit) / grid * grid
  }

  function StopBack(cell: nat, limit: nat, grid: nat): int
    requires grid > 0
  {
    if cell >= limit then limit else limit - CeilDiv(limit - cell, grid) * grid
  }

  lemma StopOutIsLast(cell: nat, limit: nat, grid: nat, n: nat)
    requires grid > 0
    ensures StopAt(StopOut(cell, limit, grid), limit, grid, Min(cell, limit) / grid)
    ensures 0 <= StopOut(cell, limit, grid) <= cell && StopOut(cell, limit, grid) <= limit
    ensures n * grid <= cell && n * grid <= limit ==> n * grid <= StopOut(cell, limit, grid)
  {
    var m := Min(cell, limit);
    var q := m / grid;
    assert q * grid <= m < q * grid + grid;
    if n * grid <= m {
      NotBeyond(n, q, grid, m);
    }
  }

  lemma NotBeyond(n: nat, q: nat, grid: nat, m: nat)
    requires n * grid <= m < q * grid + grid
    ensures n * grid <= q * grid
  {
    assert (q + 1) * grid == q * grid + grid;
    Shorter(n, q + 1, grid);
    assert n <= q;
  }

  lemma StopBackIsLast(cell: nat, limit: nat, grid: nat, n: nat)
    requires grid > 0
    ensures StopBack(cell, limit, grid) <= cell && StopBack(cell, limit, grid) <= limit
    ensures exists k: nat :: StopAt(StopBack(cell, limit, grid), limit, grid, k)
    ensures limit - n * grid <= cell ==> limit - n * grid <= StopBack(cell, limit, grid)
  {
    if cell >= limit {
      assert StopAt(limit, limit, grid, 0);
    } else {
      var q := CeilDiv(limit - cell, grid);
      CeilDivIsLeast(limit - cell, grid, q);
      assert StopAt(limit - q * grid, limit, grid, q);
      CeilDivIsLeast(limit - cell, grid, n);
      assert n >= q ==> n * grid >= q * grid;
    }
  }

  /** For every grid, some run shows a cell exactly when the view covers it from
      one of these two stops. */
  lemma CellShownIff(cell: nat, limit: nat, view: nat, grid: nat)
    requires grid > 0
    ensures (exists moves :: Shown(AfterAll(0, moves, limit, grid), view, cell)) <==>
            || cell < StopOut(cell, limit, grid) + view
            || (StopBack(cell, limit, grid) >= 0 && cell < StopBack(cell, limit, grid) + view)
  {
    StopOutIsLast(cell, limit, grid, 0);
    StopBackIsLast(cell, limit, grid, 0);
    if cell < StopOut(cell, limit, grid) + view {
      var moves := StopReached(StopOut(cell, limit, grid), limit, grid);
      assert Shown(AfterAll(0, moves, limit, grid), view, cell);
    } else if StopBack(cell, limit, grid) >= 0 && cell < StopBack(cell, limit, grid) + view {
      var moves := StopReached(StopBack(cell, limit, grid), limit, grid);
      assert Shown(AfterAll(0, moves, limit, grid), view, cell);
    }
    if moves :| Shown(AfterAll(0, moves, limit, grid), view, cell) {
      ShownFromStop(moves, cell, limit, view, grid);
    }
  }

  /** A pad of ten cells seen one at a time in steps of three: cell 1 is never
      shown, although it is not the last. */
  lemma LongStepsLeaveGaps(moves: seq<Move>)
    ensures Limit(10, 1) == 8 && !Shown(AfterAll(0, moves, Limit(10, 1), 3), 1, 1)
  {
    CellShownIff(1, 8, 1, 3);
    assert StopOut(1, 8, 3) == 0 && StopBack(1, 8, 3) == -1;
    assert Shown(AfterAll(0, moves, 8, 3), 1, 1) ==> exists moves :: Shown(AfterAll(0, moves, 8, 3), 1, 1);
  }

  lemma ShownFromStop(moves: seq<Move>, cell: nat, limit: nat, view: nat, grid: nat)
    requires grid > 0 && Shown(AfterAll(0, moves, limit, grid), view, cell)
    ensures || cell < StopOut(cell, limit, grid) + view
            || (StopBack(cell, limit, grid) >= 0 && cell < StopBack(cell, limit, grid) + view)
  {
    RunsStop(moves, limit, grid);
    var pos := AfterAll(0, moves, limit, grid);
    var n: nat :| StopAt(pos, limit, grid, n);
    StopOutIsLast(cell, limit, grid, n);
    StopBackIsLast(cell, limit, grid, n);
  }

  // ---- The slider ------------------------------------------------------------

  function SliderLength(size: nat, view: nat): int
  {
    if size != 0 then
      var len := CeilDiv(view * view, size);
      var len1 := if len == 0 then 1 else len;
      if len1 > view then view else len1
    else 1
  }

  /** Where the slider would begin before it is pushed back into the frame. */
  function RawStart(pos: nat, size: nat, view: nat): int
  {
    if size != 0 then CeilDiv(pos * view, size) else 0
  }

  function SliderStart(pos: nat, size: nat, view: nat): int
  {
    var col, len := RawStart(pos, size, view), SliderLength(size, view);
    if size != 0 && col + len > view then view - len else col
  }

  lemma CeilDivMonotone(a: nat, b: nat, d: nat)
    requires a <= b && d > 0
    ensures CeilDiv(a, d) <= CeilDiv(b, d)
  {
    CeilDivIsLeast(b, d, CeilDiv(b, d));
    CeilDivIsLeast(a, d, CeilDiv(b, d));
  }

  /** `q` is the quotient of `a` and `d` rounded up, said without dividing. */
  predicate IsCeil(q: nat, a: nat, d: nat)
  {
    q * d >= a && (q > 0 ==> (q - 1) * d < a)
  }

  lemma CeilDivIsCeil(a: nat, d: nat)
    requires d > 0
    ensures IsCeil(CeilDiv(a, d), a, d)
  {
    var q := CeilDiv(a, d);
    CeilDivIsLeast(a, d, q);
    if q > 0 {
      CeilDivIsLeast(a, d, q - 1);
    }
  }

  lemma Shorter(p: nat, q: nat, d: nat)
    requires p * d < q * d
    ensures p < q
  {
    assert p >= q ==> p * d >= q * d;
  }

  lemma CeilSum(a: nat, b: nat, d: nat, p: nat, q: nat, r: nat)
    requires d > 0 && IsCeil(p, a, d) && IsCeil(q, b, d) && IsCeil(r, a + b, d)
    ensures r <= p + q <= r + 1
  {
    assert (p + q) * d == p * d + q * d;
    if r > 0 {
      Shorter(r - 1, p + q, d);
    }
    if p > 0 && q > 0 {
      assert (p - 1 + (q - 1)) * d == (p - 1) * d + (q - 1) * d;
      Shorter(p - 1 + (q - 1), r, d);
    } else if p > 0 {
      Shorter(p - 1, r, d);
    } else if q > 0 {
      Shorter(q - 1, r, d);
    }
  }

  lemma CeilDivSum(a: nat, b: nat, d: nat)
    requires d > 0
    ensures CeilDiv(a + b, d) <= CeilDiv(a, d) + CeilDiv(b, d) <= CeilDiv(a + b, d) + 1
  {
    CeilDivIsCeil(a, d);
    CeilDivIsCeil(b, d);
    CeilDivIsCeil(a + b, d);
    CeilSum(a, b, d, CeilDiv(a, d), CeilDiv(b, d), CeilDiv(a + b, d));
  }

  /** The slider is at least one cell long and lies within the frame. */
  lemma SliderFits(pos: nat, size: nat, view: nat)
    requires view >= 1
    ensures 1 <= SliderLength(size, view) <= view
    ensures 0 <= SliderStart(pos, size, view) && SliderStart(pos, size, view) + SliderLength(size, view) <= view
  {
  }

  /** The slider is to its frame as the view is to the pad, rounded up: in length,
      and before the push in place too. */
  lemma SliderProportion(pos: nat, size: nat, view: nat)
    requires view >= 1
    ensures size <= view ==> SliderLength(size, view) == if size == 0 then 1 else view
    ensures size > view ==> IsCeil(SliderLength(size, view), view * view, size)
    ensures size > 0 ==> IsCeil(RawStart(pos, size, view), pos * view, size)
    ensures SliderStart(pos, size, view) ==
            if size > 0 then Min(RawStart(pos, size, view), view - SliderLength(size, view)) else 0
  {
    if size > 0 {
      CeilDivIsCeil(view * view, size);
      CeilDivIsCeil(pos * view, size);
      CeilDivIsLeast(view * view, size, view);
      CeilDivIsLeast(view * view, size, 0);
      LengthBounds(size, view);
    }
  }

  lemma LengthBounds(size: nat, view: nat)
    requires size > 0 && view >= 1
    ensures 0 * size < view * view
    ensures size > view ==> view * size >= view * view
    ensures size <= view ==> (view - 1) * size < view * view && CeilDiv(view * view, size) >= view
  {
    if size <= view {
      assert (view - 1) * size <= (view - 1) * view;
      assert (view - 1) * view == view * view - view;
      CeilDivIsLeast(view * view, size, view - 1);
    }
  }

  lemma SliderMonotone(pos: nat, pos': nat, size: nat, view: nat)
    requires pos <= pos'
    ensures SliderStart(pos, size, view) <= SliderStart(pos', size, view)
  {
    if size != 0 {
      assert pos * view <= pos' * view;
      CeilDivMonotone(pos * view, pos' * view, size);
    }
  }

  /** The raw start and the unclipped length together exceed the frame by at
      most one cell. */
  lemma CoversAtMost(pos: nat, size: nat, view: nat)
    requires pos + view <= size && size > 0
    ensures CeilDiv(pos * view, size) + CeilDiv(view * view, size) <= view + 1
  {
    CeilDivSum(pos * view, view * view, size);
    Product(pos, size, view);
    CeilDivIsLeast(pos * view + view * view, size, view);
  }

  lemma Product(pos: nat, size: nat, view: nat)
    requires pos + view <= size
    ensures pos * view + view * view <= view * size
  {
    assert pos * view + view * view == view * (pos + view);
    assert view * (pos + view) <= view * size;
  }

  /** At the limit they cover the frame. */
  lemma CoversAtLimit(pos: nat, size: nat, view: nat)
    requires pos + view + 1 == size
    ensures CeilDiv(pos * view, size) + CeilDiv(view * view, size) >= view
  {
    var both := (pos + view) * view;
    CeilDivSum(pos * view, view * view, size);
    assert pos * view + view * view == both;
    if view > 0 {
      JustShort(pos, size, view, both);
      CeilDivIsLeast(both, size, view - 1);
    }
  }

  lemma JustShort(pos: nat, size: nat, view: nat, both: nat)
    requires pos + view + 1 == size && view > 0 && both == (pos + view) * view
    ensures (view - 1) * size < both
  {
    assert both == (size - 1) * view;
    assert (size - 1) * view == size * view - view;
    assert (view - 1) * size == size * view - size;
  }

  /** In a position that can be reached the slider is pushed back by at most one
      cell. */
  lemma PushedByOneAtMost(pos: nat, size: nat, view: nat)
    requires pos <= Limit(size, view)
    ensures RawStart(pos, size, view) - 1 <= SliderStart(pos, size, view) <= RawStart(pos, size, view)
  {
    if size > view {
      CoversAtMost(pos, size, view);
    }
  }

  /** At the first position the slider begins the frame. */
  lemma SliderAtStart(size: nat, view: nat)
    requires view >= 1
    ensures SliderStart(0, size, view) == 0
  {
    if size > 0 {
      assert 0 * view == 0;
      CeilDivIsLeast(0, size, 0);
    }
    SliderFits(0, size, view);
  }

  /** At the limit it ends the frame. */
  lemma SliderAtLimit(size: nat, view: nat)
    requires size > view >= 1
    ensures SliderStart(Limit(size, view), size, view) + SliderLength(size, view) == view
  {
    CoversAtLimit(Limit(size, view), size, view);
  }
}
