/** The blank contents of a new field's buffer. */
module FieldBuffer {
  import opened FormStore

  ghost function BlankRow(cells: nat): seq<char>
  {
    seq(cells, i => ' ') + ['\0']
  }

  /** `n` buffers of blanks, each ended by a zero. */
  ghost function Prefilled(cells: nat, n: int): seq<char>
    decreases n
  {
    if n <= 0 then [] else Prefilled(cells, n - 1) + BlankRow(cells)
  }

  /** One blank buffer, and as many more as the field asks for. */
  ghost predicate BlankBuffers(s: seq<char>, d: Dims)
  {
    BufferLength(d) >= 0 && s == Prefilled(BufferLength(d), 1 + d.nbuf)
  }

  /** Cell `i` of buffer `j`: a blank, or the zero behind the last one. */
  lemma {:induction false} PrefilledAt(cells: nat, n: nat, j: nat, i: nat)
    requires j < n && i <= cells
    ensures |Prefilled(cells, n)| == (cells + 1) * n && 0 <= (cells + 1) * j + i < (cells + 1) * n
    ensures Prefilled(cells, n)[(cells + 1) * j + i] == if i == cells then '\0' else ' '
  {
    PrefilledLength(cells, n - 1);
    PrefilledLength(cells, n);
    RowBounds(cells + 1, j, n);
    if j < n - 1 {
      PrefilledAt(cells, n - 1, j, i);
    }
  }

  lemma {:induction false} PrefilledLength(cells: nat, n: nat)
    ensures |Prefilled(cells, n)| == (cells + 1) * n
  {
    if n > 0 {
      PrefilledLength(cells, n - 1);
      Distribute(cells + 1, n - 1, 1);
    }
  }

  lemma RowsFit(cells: int, n: int)
    requires (cells + 1) * n >= 0 && cells >= 0
    ensures n >= 0
  {
  }

  method FillRow(buf: array<char>, at: nat, cells: nat)
    requires at + cells < buf.Length
    modifies buf
    ensures buf[..at] == old(buf[..at]) && buf[at..at + cells + 1] == BlankRow(cells)
  {
    var j := 0;
    while j < cells
      invariant 0 <= j <= cells
      invariant buf[..at] == old(buf[..at])
      invariant forall k :: at <= k < at + j ==> buf[k] == ' '
    {
      buf[at + j] := ' ';
      j := j + 1;
    }
    buf[at + j] := '\0';
  }

  lemma Distribute(w: nat, a: nat, b: nat)
    ensures w * (a + b) == w * a + w * b
  {
  }

  lemma NotNegative(w: nat, a: nat)
    ensures w * a >= 0
  {
  }

  lemma RowBounds(w: nat, i: nat, n: nat)
    requires i < n
    ensures 0 <= w * i && w * i + w == w * (i + 1) && w * (i + 1) <= w * n
  {
    Distribute(w, i, 1);
    Distribute(w, i + 1, n - (i + 1));
    NotNegative(w, i);
    NotNegative(w, n - (i + 1));
  }

  /** The prefill loops of new_field. */
  method Prefill(buf: array<char>, cells: nat, n: nat)
    requires buf.Length == (cells + 1) * n
    modifies buf
    ensures buf[..] == Prefilled(cells, n)
  {
    var i, at := 0, 0;
    while i < n
      invariant 0 <= i <= n && at == (cells + 1) * i <= buf.Length
      invariant buf[..at] == Prefilled(cells, i)
    {
      RowBounds(cells + 1, i, n);
      FillRow(buf, at, cells);
      assert buf[..at + cells + 1] == buf[..at] + buf[at..at + cells + 1];
      i, at := i + 1, at + cells + 1;
    }
    assert buf[..] == buf[..at];
  }
}
