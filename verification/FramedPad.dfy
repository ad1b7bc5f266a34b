/**
  Pads with a frame: the requests that move the view over the pad in both
  directions, and the scroll bars in the frame.
 */
module FramedPad {
  import opened Collections
  import opened PadViewport

  // ---- The pad ---------------------------------------------------------------

  datatype Key = KeyUp | KeyDown | KeyLeft | KeyRight | KeyExit | CtrlX | OtherKey(code: int)

  datatype Request = Refresh | Left | Right | Up | Down | Exit | Unknown(code: int)

  function Driver(key: Key): Request
  {
    match key
    case KeyUp => Up
    case KeyDown => Down
    case KeyLeft => Left
    case KeyRight => Right
    case KeyExit => Exit
    case CtrlX => Exit
    case OtherKey(code) => Unknown(code)
  }

  /** The requests that a run carries out: those of the keys before the first
      that asks to leave. */
  function Requests(keys: seq<Key>): seq<Request>
  {
    if keys == [] || Driver(keys[0]) == Exit then [] else [Driver(keys[0])] + Requests(keys[1..])
  }

  function ColumnMove(req: Request): Move
  {
    match req case Left => Back case Right => Forward case _ => Stay
  }

  function RowMove(req: Request): Move
  {
    match req case Up => Back case Down => Forward case _ => Stay
  }

  function ColumnMoves(reqs: seq<Request>): seq<Move>
  {
    seq(|reqs|, i requires 0 <= i < |reqs| => ColumnMove(reqs[i]))
  }

  function RowMoves(reqs: seq<Request>): seq<Move>
  {
    seq(|reqs|, i requires 0 <= i < |reqs| => RowMove(reqs[i]))
  }

  /** Where the view is, and how often the pad has beeped. */
  datatype Scroll = Scroll(col: int, row: int, beeps: nat)

  /** How far a view can go, and how far one step takes it. */
  datatype Span = Span(colLimit: nat, rowLimit: nat, hGrid: nat, vGrid: nat)

  /** A request that moves nothing beeps. */
  function Serving(p: Scroll, req: Request, v: Span): Scroll
  {
    var col := After(p.col, ColumnMove(req), v.colLimit, v.hGrid);
    var row := After(p.row, RowMove(req), v.rowLimit, v.vGrid);
    Scroll(col, row, p.beeps + if col == p.col && row == p.row then 1 else 0)
  }

  function Served(p: Scroll, reqs: seq<Request>, v: Span): Scroll
  {
    if reqs == [] then p else Serving(Served(p, reqs[..|reqs| - 1], v), reqs[|reqs| - 1], v)
  }

  /** What a run does with the keys. */
  function Pressed(p: Scroll, keys: seq<Key>, v: Span): Scroll
  {
    Served(p, Requests(keys), v)
  }

  function Keys(key: Key, n: nat): (keys: seq<Key>)
    ensures |keys| == n
  {
    seq(n, i => key)
  }

  predicate Leaves(key: Key)
  {
    key == KeyExit || key == CtrlX
  }

  // ---- What keys do ------------------------------------------------------------

  lemma {:induction false} ServedConcat(p: Scroll, a: seq<Request>, b: seq<Request>, v: Span)
    ensures Served(p, a + b, v) == Served(Served(p, a, v), b, v)
  {
    if b == [] {
      assert a + b == a;
    } else {
      var n := |b| - 1;
      ServedConcat(p, a, b[..n], v);
      assert (a + b)[..|a| + n] == a + b[..n];
    }
  }

  lemma {:induction false} RequestsConcat(a: seq<Key>, b: seq<Key>)
    requires forall i :: 0 <= i < |a| ==> !Leaves(a[i])
    ensures Requests(a + b) == Requests(a) + Requests(b)
  {
    if a == [] {
      assert a + b == b;
    } else {
      assert (a + b)[1..] == a[1..] + b && !Leaves(a[0]);
      RequestsConcat(a[1..], b);
    }
  }

  /** Keys pressed in two runs do what they do in one. */
  lemma KeysConcat(p: Scroll, a: seq<Key>, b: seq<Key>, v: Span)
    requires forall i :: 0 <= i < |a| ==> !Leaves(a[i])
    ensures Pressed(p, a + b, v) == Pressed(Pressed(p, a, v), b, v)
  {
    RequestsConcat(a, b);
    ServedConcat(p, Requests(a), Requests(b), v);
  }

  /** What follows the first key that leaves has no effect. */
  lemma {:induction false} KeysAfterExit(p: Scroll, a: seq<Key>, key: Key, b: seq<Key>, v: Span)
    requires Leaves(key)
    ensures Pressed(p, a + [key] + b, v) == Pressed(p, a, v)
  {
    RequestsExit(a, key, b);
  }

  lemma {:induction false} RequestsExit(a: seq<Key>, key: Key, b: seq<Key>)
    requires Leaves(key)
    ensures Requests(a + [key] + b) == Requests(a)
  {
    var all := a + [key] + b;
    if a == [] {
      assert all[0] == key;
    } else {
      assert all[0] == a[0] && all[1..] == a[1..] + [key] + b;
      RequestsExit(a[1..], key, b);
    }
  }

  /** One more press of a key that does not leave. */
  lemma NextKey(p: Scroll, key: Key, n: nat, v: Span)
    requires n > 0 && !Leaves(key)
    ensures Pressed(p, Keys(key, n), v) == Pressed(Pressed(p, Keys(key, n - 1), v), [key], v)
  {
    assert Keys(key, n) == Keys(key, n - 1) + [key];
    KeysConcat(p, Keys(key, n - 1), [key], v);
  }

  /** One press of each key. */
  lemma OneKey(p: Scroll, key: Key, v: Span)
    ensures var q := Pressed(p, [key], v);
            match key
            case KeyDown => q.col == p.col && q.row == Min(v.rowLimit, p.row + v.vGrid)
            case KeyUp => q.col == p.col && q.row == Max(0, p.row - v.vGrid)
            case KeyRight => q.row == p.row && q.col == Min(v.colLimit, p.col + v.hGrid)
            case KeyLeft => q.row == p.row && q.col == Max(0, p.col - v.hGrid)
            case KeyExit => q == p
            case CtrlX => q == p
            case OtherKey(_) => q == p.(beeps := p.beeps + 1)
    ensures !Leaves(key) ==>
              Pressed(p, [key], v).beeps ==
                p.beeps + if (Pressed(p, [key], v).col, Pressed(p, [key], v).row) == (p.col, p.row) then 1 else 0
  {
    var keys := [key];
    assert keys[1..] == [] && Requests(keys[1..]) == [];
    if !Leaves(key) {
      var reqs := Requests(keys);
      assert reqs == [Driver(key)] && reqs[..0] == [];
      assert Served(p, reqs[..0], v) == p && Served(p, reqs, v) == Serving(p, reqs[0], v);
    }
  }

  predicate InSpan(p: Scroll, v: Span)
  {
    0 <= p.col <= v.colLimit && 0 <= p.row <= v.rowLimit && v.hGrid > 0 && v.vGrid > 0
  }

  /** `n` times KEY_DOWN: the view is `n` grids further down or at the limit, and
      each press at the limit beeps. */
  lemma {:induction false} DownKeys(p: Scroll, n: nat, v: Span)
    requires InSpan(p, v)
    ensures Pressed(p, Keys(KeyDown, n), v) ==
            Scroll(p.col, Min(v.rowLimit, p.row + n * v.vGrid),
                   p.beeps + Max(0, n - CeilDiv(v.rowLimit - p.row, v.vGrid)))
  {
    if n > 0 {
      DownKeys(p, n - 1, v);
      NextKey(p, KeyDown, n, v);
      OneKey(Pressed(p, Keys(KeyDown, n - 1), v), KeyDown, v);
      CeilDivIsLeast(v.rowLimit - p.row, v.vGrid, n - 1);
      assert n * v.vGrid == (n - 1) * v.vGrid + v.vGrid;
    }
  }

  lemma {:induction false} UpKeys(p: Scroll, n: nat, v: Span)
    requires InSpan(p, v)
    ensures Pressed(p, Keys(KeyUp, n), v) ==
            Scroll(p.col, Max(0, p.row - n * v.vGrid), p.beeps + Max(0, n - CeilDiv(p.row, v.vGrid)))
  {
    if n > 0 {
      UpKeys(p, n - 1, v);
      NextKey(p, KeyUp, n, v);
      OneKey(Pressed(p, Keys(KeyUp, n - 1), v), KeyUp, v);
      CeilDivIsLeast(p.row, v.vGrid, n - 1);
      assert n * v.vGrid == (n - 1) * v.vGrid + v.vGrid;
    }
  }

  lemma {:induction false} RightKeys(p: Scroll, n: nat, v: Span)
    requires InSpan(p, v)
    ensures Pressed(p, Keys(KeyRight, n), v) ==
            Scroll(Min(v.colLimit, p.col + n * v.hGrid), p.row,
                   p.beeps + Max(0, n - CeilDiv(v.colLimit - p.col, v.hGrid)))
  {
    if n > 0 {
      RightKeys(p, n - 1, v);
      NextKey(p, KeyRight, n, v);
      OneKey(Pressed(p, Keys(KeyRight, n - 1), v), KeyRight, v);
      CeilDivIsLeast(v.colLimit - p.col, v.hGrid, n - 1);
      assert n * v.hGrid == (n - 1) * v.hGrid + v.hGrid;
    }
  }

  lemma {:induction false} LeftKeys(p: Scroll, n: nat, v: Span)
    requires InSpan(p, v)
    ensures Pressed(p, Keys(KeyLeft, n), v) ==
            Scroll(Max(0, p.col - n * v.hGrid), p.row, p.beeps + Max(0, n - CeilDiv(p.col, v.hGrid)))
  {
    if n > 0 {
      LeftKeys(p, n - 1, v);
      NextKey(p, KeyLeft, n, v);
      OneKey(Pressed(p, Keys(KeyLeft, n - 1), v), KeyLeft, v);
      CeilDivIsLeast(p.col, v.hGrid, n - 1);
      assert n * v.hGrid == (n - 1) * v.hGrid + v.hGrid;
    }
  }

  predicate Only(keys: seq<Key>, key: Key)
  {
    forall i :: 0 <= i < |keys| ==> keys[i] == key
  }

  /** A run in which one key is pressed again and again. */
  lemma OneKeyOnly(p: Scroll, keys: seq<Key>, v: Span)
    requires InSpan(p, v)
    ensures var q, n := Pressed(p, keys, v), |keys|;
            && (Only(keys, KeyDown) ==> q.col == p.col && q.row == Min(v.rowLimit, p.row + n * v.vGrid))
            && (Only(keys, KeyUp) ==> q.col == p.col && q.row == Max(0, p.row - n * v.vGrid))
            && (Only(keys, KeyRight) ==> q.row == p.row && q.col == Min(v.colLimit, p.col + n * v.hGrid))
            && (Only(keys, KeyLeft) ==> q.row == p.row && q.col == Max(0, p.col - n * v.hGrid))
  {
    var n := |keys|;
    if Only(keys, KeyDown) {
      DownKeys(p, n, v);
      assert keys == Keys(KeyDown, n);
    }
    if Only(keys, KeyUp) {
      UpKeys(p, n, v);
      assert keys == Keys(KeyUp, n);
    }
    if Only(keys, KeyRight) {
      RightKeys(p, n, v);
      assert keys == Keys(KeyRight, n);
    }
    if Only(keys, KeyLeft) {
      LeftKeys(p, n, v);
      assert keys == Keys(KeyLeft, n);
    }
  }

  /** The row and the column of a run are those of its moves. */
  lemma {:induction false} ServedPlace(p: Scroll, reqs: seq<Request>, v: Span)
    ensures Served(p, reqs, v).col == AfterAll(p.col, ColumnMoves(reqs), v.colLimit, v.hGrid)
    ensures Served(p, reqs, v).row == AfterAll(p.row, RowMoves(reqs), v.rowLimit, v.vGrid)
  {
    if reqs != [] {
      var n := |reqs| - 1;
      ServedPlace(p, reqs[..n], v);
      AddRequest(reqs[..n], reqs[n], p.col, v.colLimit, v.hGrid);
      AddRequest(reqs[..n], reqs[n], p.row, v.rowLimit, v.vGrid);
      assert reqs == reqs[..n] + [reqs[n]];
    }
  }

  datatype Cell = Line | LowArrow | HighArrow | Block

  /** What cell `i` of a scroll bar shows. */
  function BarCell(i: int, start: int, len: int): Cell
  {
    if i <= start || i > start + len then Line
    else if len >= 2 && i == start + 1 then LowArrow
    else if len >= 2 && i == start + len then HighArrow
    else Block
  }

  class Pad {
    const width: nat
    const height: nat
    var hasView: bool
    var viewWidth: nat
    var viewHeight: nat
    var hGrid: int
    var vGrid: int
    var minRow: int
    var minCol: int
    var beeps: nat

    ghost predicate Valid()
      reads this
    {
      hasView ==>
        && viewWidth >= 1 && viewHeight >= 1 && hGrid > 0 && vGrid > 0
        && 0 <= minCol <= Limit(width, viewWidth) && 0 <= minRow <= Limit(height, viewHeight)
    }

    ghost function Place(): Scroll
      reads this
    {
      Scroll(minCol, minRow, beeps)
    }

    ghost function Reach(): Span
      requires Valid() && hasView
      reads this
    {
      Span(Limit(width, viewWidth), Limit(height, viewHeight), hGrid, vGrid)
    }

    constructor (height: nat, width: nat)
      ensures Valid() && !hasView && this.height == height && this.width == width
    {
      this.height, this.width, hasView := height, width, false;
      viewWidth, viewHeight, hGrid, vGrid, minRow, minCol, beeps := 0, 0, 0, 0, 0, 0, 0;
    }

    /** setWindow; `ok` is false where it calls the error handler. */
    method SetWindow(viewHeight: nat, viewWidth: nat, vGrid: int, hGrid: int) returns (ok: bool)
      requires viewHeight >= 1 && viewWidth >= 1
      modifies this
      ensures ok <==> vGrid > 0 && hGrid > 0
      ensures hasView && this.viewWidth == viewWidth && this.viewHeight == viewHeight && minRow == minCol == 0
      ensures ok ==> Valid() && this.vGrid == vGrid && this.hGrid == hGrid
    {
      hasView, this.viewHeight, this.viewWidth := true, viewHeight, viewWidth;
      minRow, minCol := 0, 0;
      if hGrid <= 0 || vGrid <= 0 {
        return false;
      }
      this.hGrid, this.vGrid := hGrid, vGrid;
      ok := true;
    }

    method MoveLeft() returns (changed: bool)
      requires Valid() && hasView
      modifies `minCol
      ensures Valid() && minCol == After(old(minCol), Back, Limit(width, viewWidth), hGrid)
      ensures changed <==> minCol != old(minCol)
    {
      changed := minCol > 0;
      if changed {
        if minCol < hGrid {
          minCol := 0;
        } else {
          minCol := minCol - hGrid;
        }
      }
    }

    method MoveRight() returns (changed: bool)
      requires Valid() && hasView
      modifies `minCol
      ensures Valid() && minCol == After(old(minCol), Forward, Limit(width, viewWidth), hGrid)
      ensures changed <==> minCol != old(minCol)
    {
      changed := minCol < width - viewWidth - 1;
      if changed {
        if minCol > width - viewWidth - hGrid - 1 {
          minCol := width - viewWidth - 1;
        } else {
          minCol := minCol + hGrid;
        }
      }
    }

    method MoveUp() returns (changed: bool)
      requires Valid() && hasView
      modifies `minRow
      ensures Valid() && minRow == After(old(minRow), Back, Limit(height, viewHeight), vGrid)
      ensures changed <==> minRow != old(minRow)
    {
      changed := minRow > 0;
      if changed {
        if minRow < vGrid {
          minRow := 0;
        } else {
          minRow := minRow - vGrid;
        }
      }
    }

    method MoveDown() returns (changed: bool)
      requires Valid() && hasView
      modifies `minRow
      ensures Valid() && minRow == After(old(minRow), Forward, Limit(height, viewHeight), vGrid)
      ensures changed <==> minRow != old(minRow)
    {
      changed := minRow < height - viewHeight - 1;
      if changed {
        if minRow > height - viewHeight - vGrid - 1 {
          minRow := height - viewHeight - 1;
        } else {
          minRow := minRow + vGrid;
        }
      }
    }

    /** One turn of the loop of operator(): a request that moves nothing beeps. */
    method Serve(req: Request) returns (changed: bool)
      requires Valid() && hasView
      modifies `minCol, `minRow, `beeps
      ensures Valid()
      ensures minCol == After(old(minCol), ColumnMove(req), Limit(width, viewWidth), hGrid)
      ensures minRow == After(old(minRow), RowMove(req), Limit(height, viewHeight), vGrid)
      ensures req == Refresh ==> changed
      ensures req != Refresh ==> Place() == Serving(old(Place()), req, Reach())
      ensures req != Refresh ==> (changed <==> (minCol, minRow) != (old(minCol), old(minRow)))
      ensures beeps == if changed then old(beeps) else old(beeps) + 1
    {
      match req {
        case Refresh => changed := true;
        case Left => changed := MoveLeft();
        case Right => changed := MoveRight();
        case Up => changed := MoveUp();
        case Down => changed := MoveDown();
        case _ => changed := false;
      }
      if !changed {
        beeps := beeps + 1;
      }
    }

    /** operator(): serves the requests of the keys until one asks to leave. */
    method Run(keys: seq<Key>)
      requires Valid()
      modifies `minCol, `minRow, `beeps
      ensures Valid()
      ensures !hasView ==> Place() == old(Place())
      ensures hasView ==> Place() == Pressed(old(Place()), keys, Reach())
      ensures hasView ==>
                && minCol == AfterAll(old(minCol), ColumnMoves(Requests(keys)), Limit(width, viewWidth), hGrid)
                && minRow == AfterAll(old(minRow), RowMoves(Requests(keys)), Limit(height, viewHeight), vGrid)
      ensures hasView && Only(keys, KeyDown) ==>
                minCol == old(minCol) && minRow == Min(Limit(height, viewHeight), old(minRow) + |keys| * vGrid)
      ensures hasView && Only(keys, KeyUp) ==>
                minCol == old(minCol) && minRow == Max(0, old(minRow) - |keys| * vGrid)
      ensures hasView && Only(keys, KeyRight) ==>
                minRow == old(minRow) && minCol == Min(Limit(width, viewWidth), old(minCol) + |keys| * hGrid)
      ensures hasView && Only(keys, KeyLeft) ==>
                minRow == old(minRow) && minCol == Max(0, old(minCol) - |keys| * hGrid)
    {
      if !hasView {
        return;
      }
      OneKeyOnly(Place(), keys, Reach());
      ServedPlace(Place(), Requests(keys), Reach());
      ServeAll(keys);
    }

    /** The loop of operator(). */
    method ServeAll(keys: seq<Key>)
      requires Valid() && hasView
      modifies `minCol, `minRow, `beeps
      ensures Valid() && Place() == Pressed(old(Place()), keys, Reach())
    {
      var changed := Serve(Refresh);
      ghost var done: seq<Request> := [];
      var i := 0;
      assert keys[0..] == keys && done + Requests(keys) == Requests(keys);
      while i < |keys|
        invariant 0 <= i <= |keys| && Valid()
        invariant done + Requests(keys[i..]) == Requests(keys)
        invariant Place() == Served(old(Place()), done, Reach())
      {
        var req := Driver(keys[i]);
        assert keys[i..][1..] == keys[i + 1..];
        if req == Exit {
          break;
        }
        assert (done + [req])[..|done|] == done;
        Associative(done, [req], Requests(keys[i + 1..]));
        changed := Serve(req);
        done := done + [req];
        i := i + 1;
      }
      assert done + [] == done;
    }

    /** The length and the start of the horizontal slider, as OnOperation
        computes them. */
    method ColumnSlider() returns (start: int, len: int)
      requires Valid() && hasView
      ensures len == SliderLength(width, viewWidth) && start == SliderStart(minCol, width, viewWidth)
      ensures 1 <= len <= viewWidth && 0 <= start && start + len <= viewWidth
    {
      SliderFits(minCol, width, viewWidth);
      if width != 0 {
        len := (viewWidth * viewWidth + width - 1) / width;
        if len == 0 {
          len := 1;
        }
        if len > viewWidth {
          len := viewWidth;
        }
        start := (minCol * viewWidth + width - 1) / width;
        if start + len > viewWidth {
          start := viewWidth - len;
        }
      } else {
        start, len := 0, 1;
      }
    }

    method RowSlider() returns (start: int, len: int)
      requires Valid() && hasView
      ensures len == SliderLength(height, viewHeight) && start == SliderStart(minRow, height, viewHeight)
      ensures 1 <= len <= viewHeight && 0 <= start && start + len <= viewHeight
    {
      SliderFits(minRow, height, viewHeight);
      if height != 0 {
        len := (viewHeight * viewHeight + height - 1) / height;
        if len == 0 {
          len := 1;
        }
        if len > viewHeight {
          len := viewHeight;
        }
        start := (minRow * viewHeight + height - 1) / height;
        if start + len > viewHeight {
          start := viewHeight - len;
        }
      } else {
        start, len := 0, 1;
      }
    }

    /** OnOperation: draws both scroll bars and leaves the corners alone. */
    method OnOperation(right: array<Cell>, bottom: array<Cell>)
      requires Valid() && hasView && right != bottom
      requires right.Length == viewHeight + 2 && bottom.Length == viewWidth + 2
      modifies right, bottom
      ensures Drawn(right[..], old(right[..]), viewHeight,
                    SliderStart(minRow, height, viewHeight), SliderLength(height, viewHeight))
      ensures Drawn(bottom[..], old(bottom[..]), viewWidth,
                    SliderStart(minCol, width, viewWidth), SliderLength(width, viewWidth))
    {
      var row, vLen := RowSlider();
      DrawBar(right, viewHeight, row, vLen);
      var col, hLen := ColumnSlider();
      DrawBar(bottom, viewWidth, col, hLen);
    }
  }

  /** The bar shows the slider, and the cells at its ends are as before. */
  predicate Drawn(bar: seq<Cell>, was: seq<Cell>, view: nat, start: int, len: int)
  {
    && |bar| == |was| == view + 2 && bar[0] == was[0] && bar[view + 1] == was[view + 1]
    && forall i :: 1 <= i <= view ==> bar[i] == BarCell(i, start, len)
  }

  /** The cells before and behind the slider show the line; a slider of one cell
      is a block, a longer one has an arrow at each end and blocks between. */
  lemma DrawnIs(bar: seq<Cell>, was: seq<Cell>, view: nat, start: int, len: int, i: int)
    requires Drawn(bar, was, view, start, len) && 0 <= start && 1 <= len && start + len <= view && 1 <= i <= view
    ensures i <= start || i > start + len ==> bar[i] == Line
    ensures len == 1 && i == start + 1 ==> bar[i] == Block
    ensures len >= 2 && i == start + 1 ==> bar[i] == LowArrow
    ensures len >= 2 && i == start + len ==> bar[i] == HighArrow
    ensures start + 1 < i < start + len ==> bar[i] == Block
  {
  }

  method DrawBar(bar: array<Cell>, view: nat, start: int, len: int)
    requires bar.Length == view + 2 && 0 <= start && 1 <= len && start + len <= view
    modifies bar
    ensures Drawn(bar[..], old(bar[..]), view, start, len)
  {
    forall i | 1 <= i <= view {
      bar[i] := Line;
    }
    if len >= 2 {
      bar[start + 1] := LowArrow;
      for i := 2 to len
        invariant bar[0] == old(bar[0]) && bar[view + 1] == old(bar[view + 1])
        invariant forall j :: 1 <= j <= view ==>
                    bar[j] == if j == start + 1 then LowArrow else if start + 1 < j < start + i then Block else Line
      {
        bar[start + i] := Block;
      }
      bar[start + len] := HighArrow;
    } else {
      bar[start + 1] := Block;
    }
  }

  lemma AddRequest(done: seq<Request>, req: Request, pos: int, limit: nat, grid: nat)
    ensures AfterAll(pos, ColumnMoves(done + [req]), limit, grid) ==
            After(AfterAll(pos, ColumnMoves(done), limit, grid), ColumnMove(req), limit, grid)
    ensures AfterAll(pos, RowMoves(done + [req]), limit, grid) ==
            After(AfterAll(pos, RowMoves(done), limit, grid), RowMove(req), limit, grid)
  {
    assert ColumnMoves(done + [req])[..|done|] == ColumnMoves(done);
    assert RowMoves(done + [req])[..|done|] == RowMoves(done);
  }

  /** Whatever the keys, the view stays within the limits of the pad, and the
      sliders are in their frame and pushed back by at most one cell. */
  lemma EveryRunIsSound(keys: seq<Key>, size: nat, view: nat, grid: nat)
    requires view >= 1
    ensures var pos := AfterAll(0, ColumnMoves(Requests(keys)), Limit(size, view), grid);
            && 0 <= pos <= Limit(size, view)
            && 0 <= SliderStart(pos, size, view) && SliderStart(pos, size, view) + SliderLength(size, view) <= view
            && RawStart(pos, size, view) - 1 <= SliderStart(pos, size, view) <= RawStart(pos, size, view)
    ensures var pos := AfterAll(0, RowMoves(Requests(keys)), Limit(size, view), grid);
            && 0 <= pos <= Limit(size, view)
            && 0 <= SliderStart(pos, size, view) && SliderStart(pos, size, view) + SliderLength(size, view) <= view
            && RawStart(pos, size, view) - 1 <= SliderStart(pos, size, view) <= RawStart(pos, size, view)
  {
    var limit := Limit(size, view);
    RunsStayInRange(0, ColumnMoves(Requests(keys)), limit, grid);
    RunsStayInRange(0, RowMoves(Requests(keys)), limit, grid);
    var c := AfterAll(0, ColumnMoves(Requests(keys)), limit, grid);
    var r := AfterAll(0, RowMoves(Requests(keys)), limit, grid);
    SliderFits(c, size, view);
    SliderFits(r, size, view);
    PushedByOneAtMost(c, size, view);
    PushedByOneAtMost(r, size, view);
  }
}
