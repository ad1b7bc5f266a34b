/**
  How makemake copies a makefile: blank lines go and every ampersand becomes the
  path of the directory.
 */
module MakefileFilter {
  import opened Collections

  const AND: char := '&'
  const NL: char := '\n'

  /** Without the newlines that follow a newline; `nl` says that one came before. */
  function Squeeze(s: string, nl: bool): string
  {
    if s == [] then []
    else if s[0] == NL && nl then Squeeze(s[1..], true)
    else [s[0]] + Squeeze(s[1..], s[0] == NL)
  }

  function Subst(s: string, path: string): string
  {
    if s == [] then [] else (if s[0] == AND then path else [s[0]]) + Subst(s[1..], path)
  }

  function Filter(s: string, path: string): string
  {
    Subst(Squeeze(s, true), path)
  }

  /** The loop of process_makefile. */
  method FilterText(text: string, path: string) returns (out: string)
    ensures out == Filter(text, path)
  {
    out := [];
    var lastWasNl := true;
    var i := 0;
    assert text[0..] == text && [] + Filter(text, path) == Filter(text, path);
    while i < |text|
      invariant 0 <= i <= |text|
      invariant out + Subst(Squeeze(text[i..], lastWasNl), path) == Filter(text, path)
    {
      var ch := text[i];
      assert text[i..][1..] == text[i + 1..];
      ghost var rest := Squeeze(text[i + 1..], ch == NL);
      i := i + 1;
      if ch == NL && lastWasNl {
        continue;
      }
      assert ([ch] + rest)[1..] == rest;
      lastWasNl := ch == NL;
      if ch == AND {
        Associative(out, path, Subst(rest, path));
        out := out + path;
      } else {
        Associative(out, [ch], Subst(rest, path));
        out := out + [ch];
      }
    }
    assert out + [] == out;
  }

  // ---- No blank lines --------------------------------------------------------

  /** No newline follows a newline; `nl` says that one comes before. */
  predicate Tidy(s: string, nl: bool)
  {
    && (nl && |s| > 0 ==> s[0] != NL)
    && (forall i :: 0 < i < |s| && s[i] == NL ==> s[i - 1] != NL)
  }

  lemma TidyStep(s: string, nl: bool)
    requires s != []
    ensures Tidy(s, nl) <==> !(s[0] == NL && nl) && Tidy(s[1..], s[0] == NL)
  {
    if Tidy(s[1..], s[0] == NL) {
      forall i | 0 < i < |s| && s[i] == NL ensures s[i - 1] != NL {
        assert s[i] == s[1..][i - 1];
        assert i > 1 ==> s[i - 1] == s[1..][i - 2];
      }
    }
  }

  lemma {:induction false} TidyJoin(a: string, b: string, nl: bool)
    requires a != []
    ensures Tidy(a + b, nl) <==> Tidy(a, nl) && Tidy(b, a[|a| - 1] == NL)
  {
    TidyStep(a + b, nl);
    TidyStep(a, nl);
    assert (a + b)[1..] == a[1..] + b;
    if |a| == 1 {
      assert a[1..] + b == b;
    } else {
      TidyJoin(a[1..], b, a[0] == NL);
    }
  }

  lemma {:induction false} SqueezeTidy(s: string, nl: bool)
    ensures Tidy(Squeeze(s, nl), nl)
  {
    if s == [] {
    } else if s[0] == NL && nl {
      SqueezeTidy(s[1..], true);
    } else {
      SqueezeTidy(s[1..], s[0] == NL);
      var rest := Squeeze(s[1..], s[0] == NL);
      TidyStep([s[0]] + rest, nl);
      assert ([s[0]] + rest)[1..] == rest;
    }
  }

  /** A text without blank lines stays as it is. */
  lemma {:induction false} TidyFixed(s: string, nl: bool)
    requires Tidy(s, nl)
    ensures Squeeze(s, nl) == s
  {
    if s != [] {
      TidyStep(s, nl);
      TidyFixed(s[1..], s[0] == NL);
    }
  }

  /** Paths that can take the place of a character. */
  predicate Solid(path: string)
  {
    path != [] && Tidy(path, true) && path[|path| - 1] != NL
  }

  lemma {:induction false} SubstTidy(s: string, path: string, nl: bool)
    requires Solid(path) && Tidy(s, nl)
    ensures Tidy(Subst(s, path), nl)
  {
    if s != [] {
      TidyStep(s, nl);
      SubstTidy(s[1..], path, s[0] == NL);
      TidyJoin(if s[0] == AND then path else [s[0]], Subst(s[1..], path), nl);
    }
  }

  /** The output has no blank line, whatever the input, exactly for such paths. */
  lemma TidyIff(path: string)
    ensures (forall s :: Tidy(Filter(s, path), true)) <==> Solid(path)
  {
    Probe(path);
    if Solid(path) {
      forall s ensures Tidy(Filter(s, path), true) {
        SqueezeTidy(s, true);
        SubstTidy(Squeeze(s, true), path, true);
      }
    }
    if forall s :: Tidy(Filter(s, path), true) {
      assert Tidy(Filter([AND, NL], path), true);
    }
  }

  /** The path and a newline behind it tell whether the path is solid. */
  lemma Probe(path: string)
    ensures Filter([AND, NL], path) == path + [NL]
    ensures Tidy(path + [NL], true) <==> Solid(path)
  {
    var s := [AND, NL];
    assert Tidy(s, true);
    TidyFixed(s, true);
    assert s[1..] == [NL] && [NL][1..] == [];
    assert Subst([NL], path) == [NL];
    if path == [] {
      assert path + [NL] == [NL];
    } else {
      TidyJoin(path, [NL], true);
    }
  }

  // ---- Filtering again -------------------------------------------------------

  lemma {:induction false} SubstNothing(s: string, path: string)
    requires AND !in s
    ensures Subst(s, path) == s
  {
    if s != [] {
      SubstNothing(s[1..], path);
    }
  }

  lemma {:induction false} SubstRemoves(s: string, path: string)
    requires AND !in path
    ensures AND !in Subst(s, path)
  {
    if s != [] {
      SubstRemoves(s[1..], path);
    }
  }

  lemma {:induction false} SqueezeMembers(s: string, nl: bool, c: char)
    requires c !in s
    ensures c !in Squeeze(s, nl)
  {
    if s != [] {
      SqueezeMembers(s[1..], s[0] == NL, c);
    }
  }

  /** Filtering the output again, with any path, changes nothing: this holds for
      every input exactly when the path is solid and has no ampersand. */
  lemma FilterAgainIff(path: string)
    ensures (forall s, q :: Filter(Filter(s, path), q) == Filter(s, path)) <==> Solid(path) && AND !in path
  {
    if Solid(path) && AND !in path {
      forall s, q ensures Filter(Filter(s, path), q) == Filter(s, path) {
        FilterAgain(s, path, q);
      }
    } else if forall s, q :: Filter(Filter(s, path), q) == Filter(s, path) {
      assert Filter(Filter([AND, NL], path), []) == Filter([AND, NL], path);
      FixedIsPlain(path);
    }
  }

  lemma FilterAgain(s: string, path: string, q: string)
    requires Solid(path) && AND !in path
    ensures Filter(Filter(s, path), q) == Filter(s, path)
  {
    TidyIff(path);
    TidyFixed(Filter(s, path), true);
    SubstRemoves(Squeeze(s, true), path);
    SubstNothing(Filter(s, path), q);
  }

  lemma FixedIsPlain(path: string)
    requires Filter(Filter([AND, NL], path), []) == Filter([AND, NL], path)
    ensures Solid(path) && AND !in path
  {
    Probe(path);
    var r := path + [NL];
    SubstRemoves(Squeeze(r, true), []);
    SqueezeMembers(r, true, AND);
    SubstNothing(Squeeze(r, true), []);
    SqueezeTidy(r, true);
  }

  // ---- Everything else is kept -----------------------------------------------

  function Visible(s: string): string
  {
    if s == [] then [] else (if s[0] == NL then [] else [s[0]]) + Visible(s[1..])
  }

  lemma {:induction false} VisibleAppend(a: string, b: string)
    ensures Visible(a + b) == Visible(a) + Visible(b)
  {
    if a == [] {
      assert a + b == b;
    } else {
      VisibleAppend(a[1..], b);
      assert (a + b)[1..] == a[1..] + b;
      Associative(if a[0] == NL then [] else [a[0]], Visible(a[1..]), Visible(b));
    }
  }

  lemma {:induction false} SqueezeKeeps(s: string, nl: bool)
    ensures Visible(Squeeze(s, nl)) == Visible(s)
  {
    if s == [] {
    } else if s[0] == NL && nl {
      SqueezeKeeps(s[1..], true);
    } else {
      SqueezeKeeps(s[1..], s[0] == NL);
      VisibleAppend([s[0]], Squeeze(s[1..], s[0] == NL));
      VisibleAppend([s[0]], s[1..]);
      assert [s[0]] + s[1..] == s;
    }
  }

  lemma {:induction false} SubstKeeps(s: string, path: string)
    ensures Visible(Subst(s, path)) == Subst(Visible(s), Visible(path))
  {
    if s != [] {
      SubstKeeps(s[1..], path);
      VisibleAppend(if s[0] == AND then path else [s[0]], Subst(s[1..], path));
      if s[0] != NL {
        assert Visible([s[0]]) == [s[0]];
        assert ([s[0]] + Visible(s[1..]))[1..] == Visible(s[1..]);
      } else {
        assert Visible([s[0]]) == [];
        assert [] + Visible(s[1..]) == Visible(s[1..]);
      }
    }
  }

  /** All characters but newlines are kept, in order, with the path in place of
      every ampersand. */
  lemma FilterKeeps(s: string, path: string)
    ensures Visible(Filter(s, path)) == Subst(Visible(s), Visible(path))
    ensures Visible(Filter(s, path)) == Join(Split(Visible(s), AND), Visible(path))
  {
    SqueezeKeeps(s, true);
    SubstKeeps(Squeeze(s, true), path);
    SubstIsJoin(Visible(s), Visible(path));
  }

  // ---- What the substitution is ------------------------------------------------

  lemma SubstOne(c: char, path: string)
    ensures Subst([c], path) == if c == AND then path else [c]
  {
    assert [c][1..] == [];
    assert path + [] == path;
  }

  lemma {:induction false} SubstConcat(a: string, b: string, path: string)
    ensures Subst(a + b, path) == Subst(a, path) + Subst(b, path)
  {
    if a == [] {
      assert a + b == b;
    } else {
      SubstConcat(a[1..], b, path);
      assert (a + b)[1..] == a[1..] + b;
      Associative(if a[0] == AND then path else [a[0]], Subst(a[1..], path), Subst(b, path));
    }
  }

  /** The text is cut at its ampersands and joined by the path. */
  lemma {:induction false} SubstIsJoin(s: string, path: string)
    ensures Subst(s, path) == Join(Split(s, AND), path)
  {
    if s != [] {
      var n := |s| - 1;
      SubstIsJoin(s[..n], path);
      SubstConcat(s[..n], [s[n]], path);
      SubstOne(s[n], path);
      assert s == s[..n] + [s[n]];
      var parts := Split(s[..n], AND);
      if s[n] == AND {
        JoinAppend(parts, [], path);
        assert Join(parts, path) + path + [] == Join(parts, path) + path;
      } else {
        JoinGrow(parts, s[n], path);
      }
    }
  }

  /** The filtered text is the squeezed one, cut at its ampersands and joined by
      the path. */
  lemma FilterIs(s: string, path: string)
    ensures Filter(s, path) == Join(Split(Squeeze(s, true), AND), path)
  {
    SubstIsJoin(Squeeze(s, true), path);
  }

  // ---- What the squeezing is ---------------------------------------------------

  /** The lines that are not blank. */
  function NonBlank(lines: seq<string>): seq<string>
  {
    if lines == [] then [] else (if lines[0] == [] then [] else [lines[0]]) + NonBlank(lines[1..])
  }

  lemma NonBlankCons(line: string, lines: seq<string>)
    ensures NonBlank([line] + lines) == (if line == [] then [] else [line]) + NonBlank(lines)
  {
    assert ([line] + lines)[1..] == lines;
  }

  /** Squeezing keeps the lines that are not blank, and after a character that is
      not a newline also the rest of its line. */
  lemma {:induction false} SqueezeLines(s: string, nl: bool)
    ensures NonBlank(Split(Squeeze(s, nl), NL)) == NonBlank(Split(s, NL))
    ensures !nl ==> Split(Squeeze(s, nl), NL)[0] == Split(s, NL)[0]
    ensures !nl ==> NonBlank(Split(Squeeze(s, nl), NL)[1..]) == NonBlank(Split(s, NL)[1..])
  {
    if s != [] {
      var c, rest := s[0], s[1..];
      assert s == [c] + rest;
      SqueezeLines(rest, c == NL);
      SplitCons(c, rest, NL);
      SplitCons(c, Squeeze(rest, c == NL), NL);
      LinesStep(c, Split(rest, NL), Split(Squeeze(rest, c == NL), NL));
    }
  }

  /** One more character in front of two texts with the same lines. */
  lemma LinesStep(c: char, a: seq<string>, b: seq<string>)
    requires a != [] && b != [] && NonBlank(b) == NonBlank(a)
    requires c != NL ==> b[0] == a[0] && NonBlank(b[1..]) == NonBlank(a[1..])
    ensures NonBlank([[]] + a) == NonBlank(a) && NonBlank([[]] + b) == NonBlank(b)
    ensures ([[]] + a)[1..] == a && ([[]] + b)[1..] == b
    ensures var a', b' := [[c] + a[0]] + a[1..], [[c] + b[0]] + b[1..];
            && a'[1..] == a[1..] && b'[1..] == b[1..]
            && (c != NL ==> b'[0] == a'[0] && NonBlank(b') == NonBlank(a'))
  {
    NonBlankCons([], a);
    NonBlankCons([], b);
    NonBlankCons([c] + a[0], a[1..]);
    NonBlankCons([c] + b[0], b[1..]);
  }

  /** The text still ends as it did. */
  lemma {:induction false} SqueezeEnd(s: string, nl: bool)
    requires s != []
    ensures Squeeze(s, nl) == [] ==> nl && s[|s| - 1] == NL
    ensures Squeeze(s, nl) != [] ==> Squeeze(s, nl)[|Squeeze(s, nl)| - 1] == s[|s| - 1]
  {
    if |s| > 1 {
      SqueezeEnd(s[1..], s[0] == NL);
    }
  }

  // ---- move_if_change --------------------------------------------------------

  /** The comparison loop of move_if_change: the new file replaces the old one
      exactly when they differ or there is no old one. */
  method MoveIfChange(src: string, dest: Option<string>) returns (renamed: bool)
    ensures renamed <==> dest != Some(src)
  {
    if dest.None? {
      return true;
    }
    var d := dest.value;
    var i := 0;
    while true
      invariant 0 <= i <= |src| && i <= |d| && src[..i] == d[..i]
      decreases |src| - i
    {
      var sc, dc := if i < |src| then Some(src[i]) else None, if i < |d| then Some(d[i]) else None;
      if sc != dc {
        assert src != d;
        return true;
      }
      if sc == None {
        break;
      }
      i := i + 1;
    }
    assert src[..i] == src && d[..i] == d;
    renamed := false;
  }
}
