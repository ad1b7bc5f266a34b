/**
  Whole files: what is written through a stream, and what is read back through
  another, whatever the buffers and however the system cuts the transfers.
 */
module TextFile {
  import opened TextCodec
  import opened TextStream

  /** Writes the characters to a new file and closes it. */
  method Save(s: seq<int>, text: bool, mode: Buffering, terminal: bool, memory: bool, bufsiz: nat,
              answers: nat -> Answer)
    returns (ok: bool, file: seq<Byte>)
    requires bufsiz >= 1
    ensures ok ==> file == EncodeAll(s, text)
    ensures Reliable(answers) ==> ok
  {
    var w := new WriteStream(text, mode, terminal, memory, bufsiz, answers);
    var i := 0;
    while i < |s|
      invariant 0 <= i <= |s| && w.Valid() && w.text == text && fresh(w) && fresh(w.base)
      invariant w.answers == answers && (Reliable(answers) ==> !w.err)
      invariant !w.err ==> w.Written() == EncodeAll(s[..i], text)
    {
      assert s[..i + 1][..i] == s[..i];
      var r := w.Putc(s[i]);
      i := i + 1;
    }
    assert s[..|s|] == s;
    var r := w.Fflush();
    ok, file := !w.err, w.file;
  }

  /** Reads a file to its end, however the reads cut it. */
  method Load(file: seq<Byte>, text: bool, unbuffered: bool, bufsiz: nat, answers: nat -> Answer)
    returns (ok: bool, s: seq<Byte>)
    requires bufsiz >= 1
    ensures ok ==> s == if text then Decode(Visible(file)) else file
    ensures Reliable(answers) ==> ok
  {
    var f := new ReadStream.Open(text, unbuffered, bufsiz, file, answers);
    s := f.ReadAll();
    ok := !f.err;
  }

  /** A binary file gives back every string, a text file exactly those in which
      every carriage return is followed by a newline and which have no Ctrl-Z. */
  method SaveAndLoad(s: seq<Byte>, text: bool, mode: Buffering, bufsiz: nat, out: nat -> Answer, inp: nat -> Answer)
    returns (ok: bool, t: seq<Byte>)
    requires bufsiz >= 1
    ensures Reliable(out) && Reliable(inp) ==> ok
    ensures ok && !text ==> t == s
    ensures ok && text ==> (t == s <==> Paired(s) && CTRL_Z !in s)
  {
    var file;
    ok, file := Save(s, text, mode, false, true, bufsiz, out);
    t := [];
    if ok {
      ok, t := Load(file, text, false, bufsiz, inp);
    }
    EncodeAllIsEncode(s);
    EncodeAllPlain(s);
    RoundTripIff(s);
  }
}
