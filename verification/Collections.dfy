/** What the other modules need of optional values and sequences. */
module Collections {

  datatype Option<+T> = None | Some(value: T)

  predicate NoDup<T(==)>(s: seq<T>)
  {
    forall i, j :: 0 <= i < j < |s| ==> s[i] != s[j]
  }

  lemma NoDupConcat<T>(a: seq<T>, b: seq<T>)
    requires NoDup(a) && NoDup(b)
    requires forall x :: x in a ==> x !in b
    ensures NoDup(a + b)
  {
    var c := a + b;
    forall i, j | 0 <= i < j < |c| ensures c[i] != c[j] {
      if i < |a| <= j {
        assert c[i] in a && c[j] in b;
      }
    }
  }

  lemma Associative<T>(a: seq<T>, b: seq<T>, c: seq<T>)
    ensures (a + b) + c == a + (b + c)
  {
  }

  /** What was added in two steps was added in one. */
  lemma Suffixes<T>(a: seq<T>, b: seq<T>, c: seq<T>)
    requires a <= b <= c
    ensures c[|a|..] == b[|a|..] + c[|b|..]
  {
  }

  /** How often `x` is in `s`. */
  ghost function Count<T>(s: seq<T>, x: T): nat
  {
    if s == [] then 0 else Count(s[..|s| - 1], x) + (if s[|s| - 1] == x then 1 else 0)
  }

  lemma CountAppend<T>(s: seq<T>, y: T, x: T)
    ensures Count(s + [y], x) == Count(s, x) + (if x == y then 1 else 0)
  {
    assert (s + [y])[..|s|] == s;
  }

  lemma {:induction false} CountConcat<T>(a: seq<T>, b: seq<T>, x: T)
    ensures Count(a + b, x) == Count(a, x) + Count(b, x)
  {
    if b == [] {
      assert a + b == a;
    } else {
      var n := |b| - 1;
      CountConcat(a, b[..n], x);
      assert (a + b)[..|a| + n] == a + b[..n];
    }
  }

  lemma {:induction false} CountIsMultiplicity<T>(s: seq<T>, x: T)
    ensures Count(s, x) == multiset(s)[x]
  {
    if s != [] {
      CountIsMultiplicity(s[..|s| - 1], x);
      assert s == s[..|s| - 1] + [s[|s| - 1]];
    }
  }

  // ---- Texts and their parts ---------------------------------------------------

  /** The parts after one more character. */
  function Grown(parts: seq<string>, c: char, sep: char): (parts': seq<string>)
    requires parts != []
    ensures parts' != []
  {
    if c == sep then parts + [[]] else parts[..|parts| - 1] + [parts[|parts| - 1] + [c]]
  }

  /** The parts of `s` between the characters `sep`. */
  function Split(s: string, sep: char): (parts: seq<string>)
    ensures parts != []
  {
    if s == [] then [[]] else Grown(Split(s[..|s| - 1], sep), s[|s| - 1], sep)
  }

  /** The parts with `sep` between each two. */
  function Join(parts: seq<string>, sep: string): string
  {
    if parts == [] then []
    else if |parts| == 1 then parts[0]
    else Join(parts[..|parts| - 1], sep) + sep + parts[|parts| - 1]
  }

  lemma JoinAppend(parts: seq<string>, part: string, sep: string)
    requires parts != []
    ensures Join(parts + [part], sep) == Join(parts, sep) + sep + part
  {
    assert (parts + [part])[..|parts|] == parts;
  }

  lemma {:induction false} JoinCons(part: string, parts: seq<string>, sep: string)
    requires parts != []
    ensures Join([part] + parts, sep) == part + sep + Join(parts, sep)
  {
    var n := |parts| - 1;
    var last := parts[n];
    assert [part] + parts == ([part] + parts[..n]) + [last];
    JoinAppend([part] + parts[..n], last, sep);
    if n == 0 {
      assert [part] + parts[..0] == [part] && parts == [last];
    } else {
      JoinCons(part, parts[..n], sep);
      assert parts == parts[..n] + [last];
      JoinAppend(parts[..n], last, sep);
      Associative(part + sep, Join(parts[..n], sep), sep);
      Associative(part + sep, Join(parts[..n], sep) + sep, last);
    }
  }

  /** The last part grows by a character. */
  lemma JoinGrow(parts: seq<string>, c: char, sep: string)
    requires parts != []
    ensures var n := |parts| - 1; Join(parts[..n] + [parts[n] + [c]], sep) == Join(parts, sep) + [c]
  {
    var n := |parts| - 1;
    var all := parts[..n] + [parts[n] + [c]];
    assert all[..n] == parts[..n];
    if n > 0 {
      Associative(Join(parts[..n], sep) + sep, parts[n], [c]);
    }
  }

  /** The parts have no separator and make up the text. */
  lemma {:induction false} SplitIs(s: string, sep: char)
    ensures Join(Split(s, sep), [sep]) == s
    ensures forall i :: 0 <= i < |Split(s, sep)| ==> sep !in Split(s, sep)[i]
  {
    if s != [] {
      var n := |s| - 1;
      SplitIs(s[..n], sep);
      var parts := Split(s[..n], sep);
      assert s == s[..n] + [s[n]];
      if s[n] == sep {
        JoinAppend(parts, [], [sep]);
        assert Join(parts, [sep]) + [sep] + [] == s;
      } else {
        JoinGrow(parts, s[n], [sep]);
      }
    }
  }

  /** The parts with one more character in front. */
  function Headed(c: char, parts: seq<string>, sep: char): seq<string>
    requires parts != []
  {
    if c == sep then [[]] + parts else [[c] + parts[0]] + parts[1..]
  }

  lemma {:induction false} SplitCons(c: char, s: string, sep: char)
    ensures Split([c] + s, sep) == Headed(c, Split(s, sep), sep)
  {
    if s == [] {
      assert [c] + s == [c] && [c][..0] == [];
      assert Split([c][..0], sep) == [""];
      SplitChar(c, sep);
    } else {
      var n := |s| - 1;
      var all := [c] + s;
      SplitCons(c, s[..n], sep);
      assert all[..n + 1] == [c] + s[..n] && all[n + 1] == s[n];
      HeadedGrown(c, Split(s[..n], sep), s[n], sep);
    }
  }

  lemma SplitChar(c: char, sep: char)
    ensures Grown([""], c, sep) == Headed(c, [""], sep)
  {
    assert "" + [c] == [c] + "";
  }

  lemma HeadedGrown(c: char, parts: seq<string>, d: char, sep: char)
    requires parts != []
    ensures Grown(Headed(c, parts, sep), d, sep) == Headed(c, Grown(parts, d, sep), sep)
  {
    if |parts| == 1 && c != sep && d != sep {
      Associative([c], parts[0], [d]);
    }
  }
}
