/**
  Text translation of the standard streams: what a text file holds, and which
  strings survive being written to one and read back.
 */
module TextCodec {
  import opened Collections

  type Byte = b: int | 0 <= b < 256

  const NL: Byte := 10
  const CR: Byte := 13
  const CTRL_Z: Byte := 26
  const EOF: int := -1

  /** What __putc hands down for one character: the comparison is made before
      the character is cut to a byte. */
  function EncodeOne(x: int, text: bool): seq<Byte>
  {
    (if x == NL && text then [CR] else []) + [x % 256]
  }

  function EncodeAll(xs: seq<int>, text: bool): seq<Byte>
  {
    if xs == [] then [] else EncodeAll(xs[..|xs| - 1], text) + EncodeOne(xs[|xs| - 1], text)
  }

  function Mark(x: Byte): seq<Byte>
  {
    if x == NL then [CR, NL] else [x]
  }

  /** The same for a string, from the front. */
  function Encode(s: seq<Byte>): seq<Byte>
  {
    if s == [] then [] else Mark(s[0]) + Encode(s[1..])
  }

  lemma {:induction false} EncodeAppend(s: seq<Byte>, t: seq<Byte>)
    ensures Encode(s + t) == Encode(s) + Encode(t)
  {
    if s == [] {
      assert s + t == t;
    } else {
      EncodeAppend(s[1..], t);
      assert (s + t)[1..] == s[1..] + t;
      Associative(Mark(s[0]), Encode(s[1..]), Encode(t));
    }
  }

  lemma {:induction false} EncodeAllIsEncode(s: seq<Byte>)
    ensures EncodeAll(s, true) == Encode(s)
  {
    if s != [] {
      var n := |s| - 1;
      EncodeAllIsEncode(s[..n]);
      EncodeAppend(s[..n], [s[n]]);
      assert s == s[..n] + [s[n]];
      assert EncodeOne(s[n], true) == Encode([s[n]]);
    }
  }

  lemma {:induction false} EncodeAllPlain(s: seq<Byte>)
    ensures EncodeAll(s, false) == s
  {
    if s != [] {
      EncodeAllPlain(s[..|s| - 1]);
    }
  }

  /** What repeated __getc returns on a text stream before its first EOF: a
      carriage return is dropped, whatever follows it. */
  function Decode(raw: seq<Byte>): seq<Byte>
  {
    if raw == [] then []
    else if raw[0] != CR then [raw[0]] + Decode(raw[1..])
    else if |raw| == 1 then []
    else [raw[1]] + Decode(raw[2..])
  }

  /** The number of carriage returns right before position `i`. */
  function ReturnsBefore(raw: seq<Byte>, i: nat): nat
    requires i <= |raw|
  {
    if i == 0 || raw[i - 1] != CR then 0 else 1 + ReturnsBefore(raw, i - 1)
  }

  /** The bytes from position `i` on, without the carriage returns that stand at
      even places of a run of carriage returns. */
  function KeptFrom(raw: seq<Byte>, i: nat): seq<Byte>
    requires i <= |raw|
    decreases |raw| - i
  {
    if i == |raw| then []
    else (if raw[i] == CR && ReturnsBefore(raw, i) % 2 == 0 then [] else [raw[i]]) + KeptFrom(raw, i + 1)
  }

  /** Reading drops exactly the first, third, fifth .. carriage return of a run. */
  lemma {:induction false} DecodeIs(raw: seq<Byte>, i: nat)
    requires i <= |raw| && ReturnsBefore(raw, i) % 2 == 0
    ensures Decode(raw[i..]) == KeptFrom(raw, i)
    decreases |raw| - i
  {
    if i < |raw| {
      assert raw[i..][0] == raw[i] && raw[i..][1..] == raw[i + 1..];
      if raw[i] != CR {
        DecodeIs(raw, i + 1);
      } else if i + 1 < |raw| {
        assert raw[i..][1] == raw[i + 1] && raw[i..][2..] == raw[i + 2..];
        assert ReturnsBefore(raw, i + 1) == ReturnsBefore(raw, i) + 1;
        DecodeIs(raw, i + 2);
      }
    }
  }

  /** What _filbuf lets through of a text file: the part before the first Ctrl-Z. */
  function Visible(raw: seq<Byte>): seq<Byte>
  {
    if raw == [] || raw[0] == CTRL_Z then [] else [raw[0]] + Visible(raw[1..])
  }

  lemma {:induction false} VisiblePrefix(raw: seq<Byte>)
    ensures var v := Visible(raw); v <= raw && CTRL_Z !in v && (|v| < |raw| ==> raw[|v|] == CTRL_Z)
  {
    if raw != [] && raw[0] != CTRL_Z {
      VisiblePrefix(raw[1..]);
    }
  }

  /** A prefix of that kind is the visible part. */
  lemma {:induction false} VisibleIs(raw: seq<Byte>, n: nat)
    requires n <= |raw| && CTRL_Z !in raw[..n] && (n < |raw| ==> raw[n] == CTRL_Z)
    ensures Visible(raw) == raw[..n]
  {
    if n > 0 {
      assert raw[0] in raw[..n];
      assert raw[1..][..n - 1] == raw[..n][1..];
      VisibleIs(raw[1..], n - 1);
    }
  }

  /** The visible part can be taken piece by piece. */
  lemma {:induction false} VisibleAppend(a: seq<Byte>, b: seq<Byte>)
    requires CTRL_Z !in a
    ensures Visible(a + b) == a + Visible(b)
  {
    if a == [] {
      assert a + b == b;
    } else {
      var ab, tail := a + b, a[1..] + b;
      assert ab[0] == a[0] && ab[1..] == tail;
      VisibleAppend(a[1..], b);
      Associative([a[0]], a[1..], Visible(b));
    }
  }

  lemma {:induction false} VisibleEncode(s: seq<Byte>)
    ensures Visible(Encode(s)) == Encode(Visible(s))
  {
    if s != [] && s[0] != CTRL_Z {
      VisibleEncode(s[1..]);
      VisibleAppend(Mark(s[0]), Encode(s[1..]));
    }
  }

  // ---- Which strings survive -----------------------------------------------

  /** Every carriage return is followed by a newline. */
  predicate Paired(s: seq<Byte>)
  {
    forall i :: 0 <= i < |s| && s[i] == CR ==> i + 1 < |s| && s[i + 1] == NL
  }

  lemma PairedTail(s: seq<Byte>, n: nat)
    requires n <= |s| && Paired(s)
    ensures Paired(s[n..])
  {
    forall i | 0 <= i < |s| - n && s[n..][i] == CR ensures i + 1 < |s| - n && s[n..][i + 1] == NL {
      assert s[n + i] == CR;
    }
  }

  /** Reading back one character that is not a carriage return. */
  lemma DecodeOne(s: seq<Byte>)
    requires s != [] && s[0] != CR
    ensures Decode(Encode(s)) == [s[0]] + Decode(Encode(s[1..]))
  {
    if s[0] == NL {
      assert Encode(s)[2..] == Encode(s[1..]);
    } else {
      assert Encode(s)[1..] == Encode(s[1..]);
    }
  }

  /** Reading back a carriage return and the character after it: the pair is
      kept before a newline, and otherwise the carriage return is lost. */
  lemma DecodePair(s: seq<Byte>)
    requires |s| >= 2 && s[0] == CR
    ensures Decode(Encode(s)) == (if s[1] == NL then [CR, NL] else [s[1]]) + Decode(Encode(s[2..]))
  {
    var rest := Encode(s[2..]);
    assert s[1..][1..] == s[2..];
    assert Encode(s[1..]) == Mark(s[1]) + rest;
    if s[1] == NL {
      DecodeReturnNewline(rest);
    } else {
      DecodeTwo(s[1], rest);
      Associative([CR], [s[1]], rest);
    }
  }

  lemma DecodeReturnNewline(rest: seq<Byte>)
    ensures Decode([CR] + ([CR, NL] + rest)) == [CR, NL] + Decode(rest)
  {
    assert [CR] + ([CR, NL] + rest) == [CR, CR] + ([NL] + rest);
    DecodeTwo(CR, [NL] + rest);
    assert ([NL] + rest)[1..] == rest;
    Associative([CR], [NL], Decode(rest));
  }

  lemma DecodeTwo(c: Byte, rest: seq<Byte>)
    ensures Decode([CR, c] + rest) == [c] + Decode(rest)
  {
    assert ([CR, c] + rest)[2..] == rest;
  }

  lemma {:induction false} PairedSurvives(s: seq<Byte>)
    requires Paired(s)
    ensures Decode(Encode(s)) == s
  {
    if s == [] {
    } else if s[0] == CR {
      PairedTail(s, 2);
      PairedSurvives(s[2..]);
      DecodePair(s);
    } else {
      PairedTail(s, 1);
      PairedSurvives(s[1..]);
      DecodeOne(s);
    }
  }

  lemma {:induction false} NeverLonger(s: seq<Byte>)
    ensures |Decode(Encode(s))| <= |s|
  {
    if s == [] {
    } else if s[0] != CR {
      NeverLonger(s[1..]);
      DecodeOne(s);
    } else if |s| >= 2 {
      NeverLonger(s[2..]);
      DecodePair(s);
    }
  }

  lemma {:induction false} SurvivorIsPaired(s: seq<Byte>)
    requires Decode(Encode(s)) == s
    ensures Paired(s)
  {
    if s == [] {
    } else if s[0] != CR {
      DecodeOne(s);
      assert Decode(Encode(s[1..])) == Decode(Encode(s))[1..];
      SurvivorIsPaired(s[1..]);
      assert forall i :: 0 < i < |s| ==> s[i] == s[1..][i - 1];
    } else if |s| == 1 {
      assert false;
    } else {
      DecodePair(s);
      NeverLonger(s[2..]);
      assert s[1] == NL;
      assert Decode(Encode(s[2..])) == Decode(Encode(s))[2..];
      SurvivorIsPaired(s[2..]);
      assert forall i :: 1 < i < |s| ==> s[i] == s[2..][i - 2];
    }
  }

  /** A string survives a text file exactly when every carriage return in it is
      followed by a newline and it has no Ctrl-Z. */
  lemma RoundTripIff(s: seq<Byte>)
    ensures Decode(Visible(Encode(s))) == s <==> Paired(s) && CTRL_Z !in s
  {
    VisibleEncode(s);
    VisiblePrefix(s);
    NeverLonger(Visible(s));
    if CTRL_Z in s {
      assert Visible(s) != s;
    } else {
      VisibleIs(s, |s|);
      assert s[..|s|] == s;
      if Paired(s) {
        PairedSurvives(s);
      } else if Decode(Encode(s)) == s {
        SurvivorIsPaired(s);
      }
    }
  }

  /** The plain law fails: "\rb" comes back as "b". */
  lemma LoneReturnIsLost()
    ensures Decode(Visible(Encode([CR, 98]))) == [98]
  {
    var s: seq<Byte> := [CR, 98];
    VisibleEncode(s);
    VisibleIs(s, 2);
    assert s[..2] == s;
    DecodePair(s);
  }
}
