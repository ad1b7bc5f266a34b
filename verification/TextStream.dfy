/**
  The counted buffers of the standard streams.  A stream serves characters from
  a buffer of `cnt` characters at `ptr`, and goes to the file only when the
  buffer is empty (reading) or full (writing).
 */
module TextStream {
  import opened Collections
  import opened TextCodec

  /** What the operating system answers to one request: how much it moves, or an
      error. */
  datatype Answer = Moved(n: nat) | Failed

  /** No request ever fails. */
  ghost predicate Reliable(answers: nat -> Answer)
  {
    forall i :: answers(i).Moved? && answers(i).n > 0
  }

  /** One transfer of 1 to `most` bytes. */
  function Clip(n: nat, most: nat): (m: nat)
    requires most > 0
    ensures 1 <= m <= most
  {
    if n == 0 then 1 else if n > most then most else n
  }

  /** Of the `n` bytes at `from`, `k` come before the first Ctrl-Z: what is
      visible is those bytes and what is visible behind them. */
  lemma ReadBefore(file: seq<Byte>, from: nat, n: nat, k: nat)
    requires k <= n && from + n <= |file| && n > 0
    requires forall i :: from <= i < from + k ==> file[i] != CTRL_Z
    requires k < n ==> file[from + k] == CTRL_Z
    ensures Visible(file[from..]) == file[from..from + k] + Visible(file[from + k..])
    ensures k == 0 ==> Visible(file[from..]) == []
  {
    assert file[from..] == file[from..from + k] + file[from + k..];
    VisibleAppend(file[from..from + k], file[from + k..]);
  }

  lemma TailOfSum(a: seq<Byte>, b: seq<Byte>)
    requires a != []
    ensures (a + b)[0] == a[0] && (a + b)[1..] == a[1..] + b
  {
  }

  /** The string in a null-terminated array. */
  function CString(s: seq<Byte>): seq<Byte>
  {
    if s == [] || s[0] == 0 then [] else [s[0]] + CString(s[1..])
  }

  lemma {:induction false} CStringIs(s: seq<Byte>, n: nat)
    requires n < |s| && s[n] == 0 && 0 !in s[..n]
    ensures CString(s) == s[..n]
  {
    if n > 0 {
      assert s[0] in s[..n];
      assert s[1..][..n - 1] == s[..n][1..];
      CStringIs(s[1..], n - 1);
    }
  }

  /** What a program reads from a stream with these bytes to serve. */
  function Translate(raw: seq<Byte>, text: bool): seq<Byte>
  {
    if text then Decode(raw) else raw
  }

  /** A stream open for reading.  `text` is the O_TEXT mode of the handle, and
      `strg` marks a stream over a string. */
  class ReadStream {
    const text: bool
    const strg: bool
    const unbuffered: bool
    const bufsiz: nat
    const base: array<Byte>
    var cnt: nat
    var ptr: nat
    var fillsize: nat
    var eof: bool
    var err: bool

    const file: seq<Byte>
    var pos: nat
    const answers: nat -> Answer
    var clock: nat

    ghost predicate Valid()
      reads this, base
    {
      && bufsiz <= base.Length && ptr + cnt <= bufsiz && pos <= |file|
      && (!strg ==> bufsiz >= 1 && fillsize >= 1)
    }

    predicate IsText()
    {
      !strg && text
    }

    /** The bytes that the stream has still to serve. */
    ghost function Pending(): seq<Byte>
      requires Valid()
      reads this, base
    {
      base[ptr..ptr + cnt] + Unread()
    }

    ghost function Unread(): seq<Byte>
      requires pos <= |file|
      reads this
    {
      if strg || eof then [] else if text then Visible(file[pos..]) else file[pos..]
    }

    constructor Open(text: bool, unbuffered: bool, bufsiz: nat, file: seq<Byte>, answers: nat -> Answer)
      requires bufsiz >= 1
      ensures Valid() && fresh(base) && !err && !strg
      ensures this.text == text && this.file == file && this.answers == answers
      ensures Pending() == if text then Visible(file) else file
    {
      this.text, this.strg, this.unbuffered, this.bufsiz := text, false, unbuffered, bufsiz;
      this.file, this.answers := file, answers;
      base := new Byte[bufsiz];
      cnt, ptr, fillsize, eof, err, pos, clock := 0, 0, 512, false, false, 0, 0;
    }

    /** __stropenr: a stream over the characters of a string before its null. */
    constructor FromString(str: array<Byte>)
      requires 0 in str[..]
      ensures Valid() && base == str && strg && !err && Pending() == CString(str[..])
    {
      var n := 0;
      while str[n] != 0
        invariant 0 <= n < str.Length && 0 !in str[..n]
        decreases str.Length - n
      {
        n := n + 1;
      }
      CStringIs(str[..], n);
      assert str[..][..n] == str[..n];
      text, strg, unbuffered, bufsiz, base := false, true, false, n, str;
      file, answers := [], _ => Failed;
      cnt, ptr, fillsize, eof, err, pos, clock := n, 0, 0, false, false, 0, 0;
    }

    /** _read: moves some bytes at the file position into the buffer.  It moves
        none exactly at the end of the file. */
    method ReadFile(size: nat) returns (n: int)
      requires Valid() && 1 <= size <= bufsiz
      modifies `pos, `clock, base
      ensures Valid() && clock == old(clock) + 1 && (Reliable(answers) ==> n != -1)
      ensures n == -1 ==> pos == old(pos)
      ensures n != -1 ==>
                && 0 <= n <= size && n <= |file| - old(pos) && (n == 0 <==> old(pos) == |file|)
                && pos == old(pos) + n && (forall i :: 0 <= i < n ==> base[i] == file[old(pos) + i])
    {
      var a := answers(clock);
      clock := clock + 1;
      if a.Failed? {
        return -1;
      }
      var left := |file| - pos;
      n := if left == 0 then 0 else Clip(a.n, if left < size then left else size);
      forall i | 0 <= i < n {
        base[i] := file[pos + i];
      }
      pos := pos + n;
    }

    /** The number of bytes before the first Ctrl-Z among the first `n`. */
    method FindCtrlZ(n: nat) returns (k: nat)
      requires n <= base.Length
      ensures k <= n && (forall i :: 0 <= i < k ==> base[i] != CTRL_Z) && (k < n ==> base[k] == CTRL_Z)
    {
      k := 0;
      while k < n && base[k] != CTRL_Z
        invariant 0 <= k <= n && forall i :: 0 <= i < k ==> base[i] != CTRL_Z
      {
        k := k + 1;
      }
    }

    /** How much _filbuf asks for: 512 bytes, then 1536, then twice as much each
        time, and never more than the buffer holds. */
    method FillSize() returns (size: nat)
      requires Valid() && !strg
      modifies `fillsize
      ensures Valid() && 1 <= size <= bufsiz
    {
      if fillsize > bufsiz {
        fillsize := bufsiz;
      }
      size := fillsize;
      if size == 1024 && bufsiz >= 1536 {
        size := 1536;
      }
      if unbuffered {
        size := 1;
      }
      if fillsize < bufsiz {
        fillsize := fillsize * 2;
      }
    }

    /** Gives back to the file what lies behind a Ctrl-Z in the first `n` bytes
        of the buffer, which have just been read. */
    method CutAtCtrlZ(n: nat) returns (k: nat)
      requires Valid() && 0 < n <= bufsiz && n <= pos
      requires forall i :: 0 <= i < n ==> base[i] == file[pos - n + i]
      modifies `pos
      ensures Valid() && k <= n
      ensures Visible(file[old(pos) - n..]) == base[..k] + Visible(file[pos..])
      ensures k == 0 ==> Visible(file[old(pos) - n..]) == []
    {
      k := FindCtrlZ(n);
      ghost var from := pos - n;
      assert forall i :: from <= i < from + k ==> file[i] == base[i - from];
      ReadBefore(file, from, n, k);
      assert base[..k] == file[from..from + k];
      pos := pos - (n - k);
    }

    /** The read of _filbuf; `n` is the number of bytes in the buffer. */
    method Fill() returns (n: int)
      requires Valid() && !strg && !eof && cnt == 0
      modifies `pos, `clock, `fillsize, base
      ensures Valid() && (Reliable(answers) ==> n != -1)
      ensures n == -1 ==> Unread() == old(Unread())
      ensures n != -1 ==>
                && 0 <= n <= bufsiz && old(Unread()) == base[..n] + Unread()
                && (n == 0 ==> old(Unread()) == [])
    {
      var size := FillSize();
      n := ReadFile(size);
      if text && n > 0 {
        n := CutAtCtrlZ(n);
      } else if n >= 0 {
        assert file[old(pos)..] == base[..n] + file[pos..];
      }
    }

    /** The end of _filbuf, with `n` bytes in the buffer. */
    method Start(n: int) returns (c: int)
      requires Valid() && !err && cnt == 0 && n <= bufsiz
      modifies `cnt, `ptr, `eof, `err
      ensures Valid()
      ensures n < 0 ==> err && c == EOF && eof == old(eof) && cnt == 0
      ensures n == 0 ==> !err && c == EOF && eof && cnt == 0
      ensures n > 0 ==> !err && eof == old(eof) && c == base[0] && base[ptr..ptr + cnt] == base[1..n]
    {
      ptr := 0;
      if n <= 0 {
        if n == 0 {
          eof := true;
        } else {
          err := true;
        }
        return -1;
      }
      cnt := n - 1;
      ptr := 1;
      c := base[0];
    }

    /** _filbuf: the next byte from the file, or EOF. */
    method Filbuf() returns (c: int)
      requires Valid() && !err && cnt == 0
      modifies `cnt, `ptr, `fillsize, `eof, `err, `pos, `clock, base
      ensures Valid() && Serves(old(Pending()), c) && (Reliable(answers) ==> !err)
    {
      if strg || eof {
        return -1;
      }
      assert Pending() == Unread();
      var n := Fill();
      ghost var unread := Unread();
      if n > 0 {
        TailOfSum(base[..n], unread);
        assert base[..n][1..] == base[1..n];
      }
      c := Start(n);
      if n > 0 {
        assert Unread() == unread;
      }
    }

    /** `c` is the first of the bytes `was`, and the others are pending; after a
        failed read all of them are. */
    ghost predicate Serves(was: seq<Byte>, c: int)
      requires Valid()
      reads this, base
    {
      if err then c == EOF && Pending() == was
      else if was == [] then c == EOF && Pending() == []
      else c == was[0] && Pending() == was[1..]
    }

    /** The next byte of the buffer. */
    method Next() returns (c: Byte)
      requires Valid() && cnt > 0
      modifies `cnt, `ptr
      ensures Valid() && old(Pending()) == [c] + Pending()
    {
      ghost var buf, unread := base[ptr..ptr + cnt], Unread();
      Associative([buf[0]], buf[1..], unread);
      assert buf == [buf[0]] + buf[1..];
      cnt := cnt - 1;
      ptr := ptr + 1;
      c := base[ptr - 1];
      assert base[ptr..ptr + cnt] == buf[1..];
      assert Pending() == buf[1..] + unread;
    }

    method GetcRaw() returns (c: int)
      requires Valid() && !err
      modifies `cnt, `ptr, `fillsize, `eof, `err, `pos, `clock, base
      ensures Valid() && Serves(old(Pending()), c) && (Reliable(answers) ==> !err)
    {
      if cnt > 0 {
        c := Next();
      } else {
        c := Filbuf();
      }
    }

    /** __getc: on a text stream a carriage return is dropped and the byte after
        it is returned, wherever the buffer ends. */
    method Getc() returns (c: int)
      requires Valid() && !err
      modifies `cnt, `ptr, `fillsize, `eof, `err, `pos, `clock, base
      ensures Valid() && (err ==> c == EOF) && (Reliable(answers) ==> !err)
      ensures !err && c == EOF ==> Translate(old(Pending()), IsText()) == [] && Pending() == []
      ensures !err && c != EOF ==>
                && 0 <= c < 256 && |Pending()| < |old(Pending())|
                && Translate(old(Pending()), IsText()) == [c] + Translate(Pending(), IsText())
    {
      c := GetcRaw();
      if c == CR && IsText() {
        ghost var rest := Pending();
        assert rest == old(Pending())[1..];
        c := GetcRaw();
        assert |rest| > 0 ==> rest[1..] == old(Pending())[2..];
      }
    }

    /** Reads to the end: the result depends on the bytes alone, not on how the
        reads cut them. */
    method ReadAll() returns (out: seq<Byte>)
      requires Valid() && !err
      modifies `cnt, `ptr, `fillsize, `eof, `err, `pos, `clock, base
      ensures Valid() && (Reliable(answers) ==> !err)
      ensures !err ==> out == Translate(old(Pending()), IsText()) && Pending() == []
    {
      out := [];
      ghost var all := Translate(Pending(), IsText());
      assert [] + all == all;
      while true
        invariant Valid() && !err && out + Translate(Pending(), IsText()) == all
        decreases |Pending()|
      {
        var c := Getc();
        if c == EOF {
          assert out + [] == out;
          return;
        }
        Associative(out, [c], Translate(Pending(), IsText()));
        out := out + [c];
      }
    }
  }

  datatype Buffering = Full | Line | Unbuffered

  /** A stream open for writing.  The buffer is allocated by the first _flsbuf;
      when that fails the stream becomes unbuffered, and the standard output of
      a terminal becomes line buffered. */
  class WriteStream {
    const text: bool
    const terminal: bool
    const memory: bool
    const bufsiz: nat
    const base: array<Byte>
    var ready: bool
    var mode: Buffering
    var cnt: int
    var ptr: nat
    var err: bool

    var file: seq<Byte>
    const answers: nat -> Answer
    var clock: nat

    ghost predicate Valid()
      reads this, base
    {
      && base.Length == bufsiz >= 1 && ptr <= bufsiz
      && (!ready || mode == Unbuffered ==> ptr == 0 && cnt == 0)
      && (ready && mode == Full ==> cnt == bufsiz - ptr)
      && (ready && mode == Line ==> cnt + ptr == 0 && ptr < bufsiz)
    }

    /** The file and what is waiting in the buffer. */
    ghost function Written(): seq<Byte>
      requires Valid()
      reads this, base
    {
      file + base[..ptr]
    }

    /** Nothing waits in the buffer once `c` is put: every character on an
        unbuffered stream, a newline on a line-buffered one. */
    predicate Flushes(c: Byte)
      reads this
    {
      mode == Unbuffered || (mode == Line && c == NL)
    }

    constructor (text: bool, mode: Buffering, terminal: bool, memory: bool, bufsiz: nat, answers: nat -> Answer)
      requires bufsiz >= 1
      ensures Valid() && fresh(base) && !err && this.text == text && this.answers == answers && Written() == []
    {
      this.text, this.mode, this.terminal, this.memory, this.bufsiz := text, mode, terminal, memory, bufsiz;
      this.answers, base := answers, new Byte[bufsiz];
      ready, cnt, ptr, err, file, clock := false, 0, 0, false, [], 0;
    }

    /** The writing loop of _flsbuf and fflush: repeats until everything is
        written or a write fails. */
    method WriteOut(data: seq<Byte>) returns (ok: bool)
      modifies `file, `err, `clock
      ensures err == (old(err) || !ok) && (Reliable(answers) ==> ok)
      ensures ok ==> file == old(file) + data
    {
      var off := 0;
      while off < |data|
        invariant 0 <= off <= |data| && file == old(file) + data[..off] && err == old(err)
      {
        var a := answers(clock);
        clock := clock + 1;
        if a.Failed? || a.n == 0 {
          err := true;
          return false;
        }
        var n := Clip(a.n, |data| - off);
        Associative(old(file), data[..off], data[off..off + n]);
        assert data[..off] + data[off..off + n] == data[..off + n];
        file := file + data[off..off + n];
        off := off + n;
      }
      assert data[..|data|] == data;
      ok := true;
    }

    /** The buffer of the first _flsbuf. */
    method Allocate()
      requires Valid() && !ready && mode != Unbuffered
      modifies `ready, `mode, `cnt
      ensures if memory then ready && mode != Unbuffered && cnt == bufsiz else mode == Unbuffered && cnt == 0
    {
      if memory {
        ready := true;
        cnt := bufsiz;
        if terminal {
          mode := Line;
        }
      } else {
        mode := Unbuffered;
      }
    }

    /** _flsbuf on a line-buffered stream. */
    method PutLine(c: Byte) returns (r: int)
      requires base.Length == bufsiz && ready && mode == Line && ptr < bufsiz
      modifies `cnt, `ptr, `err, `file, `clock, base
      ensures Valid() && err == (old(err) || r == EOF) && (Reliable(answers) ==> r != EOF)
      ensures r != EOF ==> r == c && Written() == old(file + base[..ptr]) + [c]
      ensures r != EOF ==> file == if c == NL || old(ptr) + 1 >= bufsiz then Written() else old(file)
    {
      base[ptr] := c;
      ptr := ptr + 1;
      assert base[..ptr] == old(base[..ptr]) + [c];
      Associative(file, old(base[..ptr]), [c]);
      var rn := ptr;
      if c == NL || rn >= bufsiz {
        ptr := 0;
        cnt := 0;
        var ok := WriteOut(base[..rn]);
        assert file + base[..0] == file;
        if !ok {
          return EOF;
        }
      } else {
        cnt := -rn;
      }
      r := c;
    }

    /** _flsbuf on a fully buffered stream. */
    method PutFull(c: Byte) returns (r: int)
      requires base.Length == bufsiz >= 1 && ready && mode == Full && ptr <= bufsiz
      modifies `cnt, `ptr, `err, `file, `clock, base
      ensures Valid() && err == (old(err) || r == EOF) && (Reliable(answers) ==> r != EOF)
      ensures r != EOF ==> r == c && Written() == old(file + base[..ptr]) + [c]
      ensures r != EOF ==> file == old(file + base[..ptr])
    {
      var rn := ptr;
      ptr := 0;
      cnt := bufsiz;
      var ok := WriteOut(base[..rn]);
      if !ok {
        return EOF;
      }
      cnt := cnt - 1;
      base[0] := c;
      ptr := 1;
      assert base[..1] == [c];
      r := c;
    }

    /** _flsbuf on an unbuffered stream. */
    method PutThrough(c: Byte) returns (r: int)
      requires base.Length == bufsiz >= 1 && mode == Unbuffered && ptr == 0
      modifies `cnt, `err, `file, `clock
      ensures Valid() && err == (old(err) || r == EOF) && (Reliable(answers) ==> r != EOF)
      ensures r != EOF ==> r == c && Written() == old(file + base[..ptr]) + [c]
      ensures r != EOF ==> file == Written()
    {
      assert base[..0] == [];
      cnt := 0;
      var ok := WriteOut([c]);
      r := if ok then c else EOF;
    }

    method Flsbuf(c: Byte) returns (r: int)
      requires Valid()
      modifies `ready, `mode, `cnt, `ptr, `err, `file, `clock, base
      ensures Valid() && err == (old(err) || r == EOF) && (Reliable(answers) ==> r != EOF)
      ensures r != EOF ==> r == c && Written() == old(Written()) + [c]
      ensures r != EOF && Flushes(c) ==> file == Written()
      ensures r != EOF && mode == Full ==> file == old(Written())
      ensures mode != old(mode) ==> old(!ready)
    {
      if !ready && mode != Unbuffered {
        Allocate();
      }
      match mode
      case Line => r := PutLine(c);
      case Unbuffered => r := PutThrough(c);
      case Full => r := PutFull(c);
    }

    method PutcRaw(x: int) returns (r: int)
      requires Valid()
      modifies `ready, `mode, `cnt, `ptr, `err, `file, `clock, base
      ensures Valid() && err == (old(err) || r == EOF) && (Reliable(answers) ==> r != EOF)
      ensures r != EOF ==> r == x % 256 && Written() == old(Written()) + [x % 256]
      ensures r != EOF && Flushes(x % 256) ==> file == Written()
      ensures old(cnt) > 0 ==> file == old(file)
    {
      if cnt > 0 {
        base[ptr] := x % 256;
        ptr := ptr + 1;
        cnt := cnt - 1;
        assert base[..ptr] == old(base[..ptr]) + [x % 256];
        r := x % 256;
      } else {
        r := Flsbuf(x % 256);
      }
    }

    /** __putc: on a text stream a newline is preceded by a carriage return. */
    method Putc(x: int) returns (r: int)
      requires Valid()
      modifies `ready, `mode, `cnt, `ptr, `err, `file, `clock, base
      ensures Valid() && (old(err) || r == EOF ==> err) && (Reliable(answers) ==> err == old(err))
      ensures !err ==> r == x % 256 && Written() == old(Written()) + EncodeOne(x, text)
      ensures !err && Flushes(x % 256) ==> file == Written()
    {
      if x == NL && text {
        r := PutcRaw(CR);
        Associative(old(Written()), [CR], [x % 256]);
      }
      r := PutcRaw(x);
    }

    /** fflush: everything written is in the file. */
    method Fflush() returns (r: int)
      requires Valid()
      modifies `cnt, `ptr, `err, `file, `clock
      ensures Valid() && err == (old(err) || r == EOF) && (Reliable(answers) ==> r != EOF)
      ensures r != EOF ==> r == 0 && file == Written() == old(Written())
    {
      if mode != Unbuffered && ready && ptr > 0 {
        var rn := ptr;
        ptr := 0;
        cnt := if mode == Line then 0 else bufsiz;
        var ok := WriteOut(base[..rn]);
        if !ok {
          return EOF;
        }
      }
      assert base[..0] == [];
      r := 0;
    }
  }
}
