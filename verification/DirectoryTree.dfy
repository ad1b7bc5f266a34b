/**
  The directory trees that makemake walks, and the list of directories it finds
  in one: those with a makefile, in an order that the file system has no say in.
 */
module DirectoryTree {
  import opened Collections

  datatype Node = File(text: string) | Dir(entries: seq<Entry>)

  datatype Entry = Entry(name: string, node: Node)

  // ---- strcmp ----------------------------------------------------------------

  predicate StrLess(a: string, b: string)
  {
    b != [] && (a == [] || a[0] < b[0] || (a[0] == b[0] && StrLess(a[1..], b[1..])))
  }

  lemma {:induction false} StrLessTotal(a: string, b: string)
    ensures a == b || StrLess(a, b) || StrLess(b, a)
    ensures StrLess(a, b) ==> a != b && !StrLess(b, a)
  {
    if a != [] && b != [] && a[0] == b[0] {
      StrLessTotal(a[1..], b[1..]);
      assert a == [a[0]] + a[1..] && b == [b[0]] + b[1..];
    }
  }

  lemma {:induction false} StrLessTransitive(a: string, b: string, c: string)
    requires StrLess(a, b) && StrLess(b, c)
    ensures StrLess(a, c)
  {
    if a != [] && a[0] == b[0] == c[0] {
      StrLessTransitive(a[1..], b[1..], c[1..]);
    }
  }

  /** The first difference decides, and a prefix comes first. */
  lemma {:induction false} StrLessIff(a: string, b: string)
    ensures StrLess(a, b) <==>
            exists k: nat :: k <= |a| && k < |b| && a[..k] == b[..k] && (k == |a| || a[k] < b[k])
  {
    if a != [] && b != [] && a[0] == b[0] {
      StrLessIff(a[1..], b[1..]);
      if StrLess(a, b) {
        var a', b' := a[1..], b[1..];
        var k: nat :| k <= |a'| && k < |b'| && a'[..k] == b'[..k] && (k == |a'| || a'[k] < b'[k]);
        assert a[..k + 1] == [a[0]] + a[1..][..k] && b[..k + 1] == [b[0]] + b[1..][..k];
      }
      if k: nat :| k <= |a| && k < |b| && a[..k] == b[..k] && (k == |a| || a[k] < b[k]) {
        assert k > 0 && a[1..][..k - 1] == a[..k][1..] && b[1..][..k - 1] == b[..k][1..];
      }
    } else if StrLess(a, b) {
      assert a[..0] == b[..0];
    } else if a != [] && b != [] {
      assert forall k :: 0 < k <= |a| && k < |b| ==> a[..k][0] != b[..k][0];
    }
  }

  // ---- qsort with sort_alpha -------------------------------------------------

  predicate Ordered(names: seq<string>)
  {
    forall i, j :: 0 <= i < j < |names| ==> StrLess(names[i], names[j])
  }

  function Place(x: string, names: seq<string>): seq<string>
  {
    if names == [] || StrLess(x, names[0]) then [x] + names else [names[0]] + Place(x, names[1..])
  }

  function Sorted(names: seq<string>): seq<string>
  {
    if names == [] then [] else Place(names[0], Sorted(names[1..]))
  }

  lemma {:induction false} PlaceMembers(x: string, names: seq<string>, y: string)
    ensures y in Place(x, names) <==> y == x || y in names
  {
    if names != [] && !StrLess(x, names[0]) {
      PlaceMembers(x, names[1..], y);
    }
  }

  lemma {:induction false} SortedMembers(names: seq<string>, y: string)
    ensures y in Sorted(names) <==> y in names
  {
    if names != [] {
      SortedMembers(names[1..], y);
      PlaceMembers(names[0], Sorted(names[1..]), y);
    }
  }

  lemma {:induction false} PlaceOrdered(x: string, names: seq<string>)
    requires Ordered(names) && x !in names
    ensures Ordered(Place(x, names))
  {
    if names == [] {
    } else if StrLess(x, names[0]) {
      forall j | 0 <= j < |names| ensures StrLess(x, names[j]) {
        if j > 0 {
          StrLessTransitive(x, names[0], names[j]);
        }
      }
    } else {
      StrLessTotal(x, names[0]);
      var rest := Place(x, names[1..]);
      PlaceOrdered(x, names[1..]);
      forall j | 0 <= j < |rest| ensures StrLess(names[0], rest[j]) {
        PlaceMembers(x, names[1..], rest[j]);
        assert rest[j] in rest;
      }
    }
  }

  lemma {:induction false} SortedOrdered(names: seq<string>)
    requires NoDup(names)
    ensures Ordered(Sorted(names))
  {
    if names != [] {
      SortedOrdered(names[1..]);
      SortedMembers(names[1..], names[0]);
      PlaceOrdered(names[0], Sorted(names[1..]));
    }
  }

  /** An ordered sequence is determined by its members. */
  lemma {:induction false} OrderedUnique(a: seq<string>, b: seq<string>)
    requires Ordered(a) && Ordered(b) && forall x :: x in a <==> x in b
    ensures a == b
  {
    assert |a| > 0 ==> a[0] in b;
    assert |b| > 0 ==> b[0] in a;
    if a != [] {
      SameLeast(a, b);
      forall x ensures x in a[1..] <==> x in b[1..] {
        NotInTail(a);
        NotInTail(b);
        assert x in a <==> x == a[0] || x in a[1..];
        assert x in b <==> x == b[0] || x in b[1..];
      }
      OrderedUnique(a[1..], b[1..]);
    }
  }

  lemma NotInTail(a: seq<string>)
    requires Ordered(a) && a != []
    ensures a[0] !in a[1..]
  {
    forall j | 0 <= j < |a[1..]| ensures a[1..][j] != a[0] {
      StrLessTotal(a[0], a[j + 1]);
    }
  }

  lemma SameLeast(a: seq<string>, b: seq<string>)
    requires Ordered(a) && Ordered(b) && a != [] && b != [] && a[0] in b && b[0] in a
    ensures a[0] == b[0]
  {
    var i :| 0 <= i < |b| && b[i] == a[0];
    var j :| 0 <= j < |a| && a[j] == b[0];
    if i > 0 && j > 0 {
      StrLessTotal(a[0], b[0]);
    }
  }

  // ---- Looking things up -----------------------------------------------------

  /** The position of `name`, or the number of entries. */
  function Index(entries: seq<Entry>, name: string): (k: nat)
    ensures k <= |entries| && (k < |entries| ==> entries[k].name == name)
  {
    if entries == [] || entries[0].name == name then 0 else 1 + Index(entries[1..], name)
  }

  lemma {:induction false} IndexFinds(entries: seq<Entry>, k: nat)
    requires k < |entries| && NamesDiffer(entries)
    ensures Index(entries, entries[k].name) == k
  {
    if k > 0 {
      assert entries[0].name != entries[k].name;
      IndexFinds(entries[1..], k - 1);
    }
  }

  predicate NamesDiffer(entries: seq<Entry>)
  {
    forall i, j :: 0 <= i < j < |entries| ==> entries[i].name != entries[j].name
  }

  predicate NameOk(name: string)
  {
    name != [] && '/' !in name && '\0' !in name
  }

  /** What a file system guarantees of its names. */
  predicate TreeOk(node: Node)
  {
    node.Dir? ==>
      && NamesDiffer(node.entries)
      && forall i :: 0 <= i < |node.entries| ==> NameOk(node.entries[i].name) && TreeOk(node.entries[i].node)
  }

  predicate HasEntry(node: Node, name: string)
  {
    node.Dir? && Index(node.entries, name) < |node.entries|
  }

  function Child(node: Node, name: string): (child: Node)
    requires HasEntry(node, name)
    ensures TreeOk(node) ==> TreeOk(child)
  {
    node.entries[Index(node.entries, name)].node
  }

  predicate Exists(node: Node, path: seq<string>)
  {
    path == [] || (HasEntry(node, path[0]) && Exists(Child(node, path[0]), path[1..]))
  }

  function At(node: Node, path: seq<string>): Node
    requires Exists(node, path)
  {
    if path == [] then node else At(Child(node, path[0]), path[1..])
  }

  lemma {:induction false} ExistsAppend(node: Node, path: seq<string>, name: string)
    ensures Exists(node, path + [name]) <==> Exists(node, path) && HasEntry(At(node, path), name)
    ensures Exists(node, path + [name]) ==> At(node, path + [name]) == Child(At(node, path), name)
  {
    if path == [] {
      assert path + [name] == [name] && [name][1..] == [];
    } else {
      assert (path + [name])[1..] == path[1..] + [name];
      if HasEntry(node, path[0]) {
        ExistsAppend(Child(node, path[0]), path[1..], name);
      }
    }
  }

  lemma {:induction false} AtTreeOk(node: Node, path: seq<string>)
    requires TreeOk(node) && Exists(node, path)
    ensures TreeOk(At(node, path))
  {
    if path != [] {
      AtTreeOk(Child(node, path[0]), path[1..]);
    }
  }

  // ---- What find visits ------------------------------------------------------

  const MAKEFILE: string := "makefile"

  /** Entries that find descends into. */
  predicate IsSub(e: Entry)
  {
    '.' !in e.name && e.node.Dir?
  }

  function Subs(entries: seq<Entry>): seq<string>
  {
    if entries == [] then []
    else Subs(entries[..|entries| - 1]) +
         (if IsSub(entries[|entries| - 1]) then [entries[|entries| - 1].name] else [])
  }

  lemma {:induction false} SubsMembers(entries: seq<Entry>, name: string)
    ensures name in Subs(entries) <==> exists i :: 0 <= i < |entries| && IsSub(entries[i]) && entries[i].name == name
  {
    if entries != [] {
      var n := |entries| - 1;
      SubsMembers(entries[..n], name);
      if name in Subs(entries[..n]) {
        var i :| 0 <= i < n && IsSub(entries[..n][i]) && entries[..n][i].name == name;
        assert IsSub(entries[i]) && entries[i].name == name;
      }
    }
  }

  lemma {:induction false} SubsDiffer(entries: seq<Entry>)
    requires NamesDiffer(entries)
    ensures NoDup(Subs(entries))
  {
    if entries != [] {
      var n := |entries| - 1;
      SubsDiffer(entries[..n]);
      SubsMembers(entries[..n], entries[n].name);
      assert entries[n].name !in Subs(entries[..n]);
    }
  }

  /** A subdirectory is found by its name. */
  lemma SubIs(node: Node, name: string)
    requires TreeOk(node) && node.Dir?
    ensures name in Subs(node.entries) <==> '.' !in name && HasEntry(node, name) && Child(node, name).Dir?
  {
    SubsMembers(node.entries, name);
    if name in Subs(node.entries) {
      var i :| 0 <= i < |node.entries| && IsSub(node.entries[i]) && node.entries[i].name == name;
      IndexFinds(node.entries, i);
    }
    if '.' !in name && HasEntry(node, name) && Child(node, name).Dir? {
      var k := Index(node.entries, name);
      assert IsSub(node.entries[k]) && node.entries[k].name == name;
    }
  }

  /** The directories that find reports: a directory with a makefile before the
      ones below it, and the ones below it in the order of their names.  The top
      directory is not reported. */
  function Walk(path: seq<string>, node: Node): seq<seq<string>>
    decreases node, 1, 0
  {
    if node.File? then []
    else
      (if HasEntry(node, MAKEFILE) && path != [] then [path] else []) +
      WalkSubs(path, node, Sorted(Subs(node.entries)))
  }

  function WalkSubs(path: seq<string>, node: Node, names: seq<string>): seq<seq<string>>
    requires node.Dir?
    decreases node, 0, |names|
  {
    if names == [] then []
    else (if HasEntry(node, names[0]) then Walk(path + [names[0]], Child(node, names[0])) else []) +
         WalkSubs(path, node, names[1..])
  }

  // ---- The report is exactly the directories with a makefile -----------------

  /** `path` leads from `node` through dot-free names to a directory with a
      makefile. */
  predicate Marked(node: Node, path: seq<string>)
  {
    (forall i :: 0 <= i < |path| ==> '.' !in path[i]) && Exists(node, path + [MAKEFILE])
  }

  lemma MarkedStep(node: Node, path: seq<string>)
    requires path != []
    ensures Marked(node, path) <==>
            '.' !in path[0] && HasEntry(node, path[0]) && Marked(Child(node, path[0]), path[1..])
  {
    assert (path + [MAKEFILE])[1..] == path[1..] + [MAKEFILE];
    if '.' !in path[0] && HasEntry(node, path[0]) && Marked(Child(node, path[0]), path[1..]) {
      forall i | 0 <= i < |path| ensures '.' !in path[i] {
        assert i > 0 ==> path[i] == path[1..][i - 1];
      }
    }
  }

  lemma MarkedHere(node: Node)
    ensures Marked(node, []) <==> HasEntry(node, MAKEFILE)
  {
    var path := [] + [MAKEFILE];
    assert path[0] == MAKEFILE && path[1..] == [];
    assert HasEntry(node, MAKEFILE) ==> Exists(Child(node, MAKEFILE), path[1..]);
  }

  lemma MarkedIsDir(node: Node, path: seq<string>)
    requires Marked(node, path)
    ensures node.Dir?
  {
    assert (path + [MAKEFILE]) != [];
  }

  /** `q` continues `p` to a marked directory of `node`. */
  predicate Continues(p: seq<string>, node: Node, q: seq<string>)
  {
    |p| <= |q| && q[..|p|] == p && Marked(node, q[|p|..])
  }

  lemma ContinuesInto(p: seq<string>, node: Node, q: seq<string>)
    requires |p| < |q|
    ensures Continues(p, node, q) <==>
            '.' !in q[|p|] && HasEntry(node, q[|p|]) && Continues(p + [q[|p|]], Child(node, q[|p|]), q)
  {
    var n := |p|;
    MarkedStep(node, q[n..]);
    assert q[n..][1..] == q[n + 1..];
    assert q[..n + 1] == q[..n] + [q[n]];
  }

  lemma {:induction false} WalkMembers(p: seq<string>, node: Node, q: seq<string>)
    requires TreeOk(node)
    ensures q in Walk(p, node) <==> q != [] && Continues(p, node, q)
    decreases node, 1, 0
  {
    if Continues(p, node, q) {
      MarkedIsDir(node, q[|p|..]);
    }
    if node.Dir? {
      var names := Sorted(Subs(node.entries));
      forall x | x in names ensures x in Subs(node.entries) {
        SortedMembers(Subs(node.entries), x);
      }
      WalkSubsMembers(p, node, names, q);
      MarkedHere(node);
      assert q == p ==> q[|p|..] == [];
      if |q| > |p| && Continues(p, node, q) {
        ContinuesInto(p, node, q);
        MarkedIsDir(Child(node, q[|p|]), q[|p| + 1..]);
        SubIs(node, q[|p|]);
        SortedMembers(Subs(node.entries), q[|p|]);
      }
    }
  }

  lemma {:induction false} WalkSubsMembers(p: seq<string>, node: Node, names: seq<string>, q: seq<string>)
    requires TreeOk(node) && node.Dir? && forall x :: x in names ==> x in Subs(node.entries)
    ensures q in WalkSubs(p, node, names) <==> |p| < |q| && q[|p|] in names && Continues(p, node, q)
    decreases node, 0, |names|
  {
    if names != [] {
      var x := names[0];
      SubIs(node, x);
      WalkMembers(p + [x], Child(node, x), q);
      WalkSubsMembers(p, node, names[1..], q);
      FirstName(p, node, x, q);
      HeadOrTail(p, node, names, q);
      assert |p| < |q| ==> (q[|p|] in names <==> q[|p|] == x || q[|p|] in names[1..]);
    }
  }

  lemma HeadOrTail(p: seq<string>, node: Node, names: seq<string>, q: seq<string>)
    requires node.Dir? && names != [] && HasEntry(node, names[0])
    ensures q in WalkSubs(p, node, names) <==>
            q in Walk(p + [names[0]], Child(node, names[0])) || q in WalkSubs(p, node, names[1..])
  {
  }

  /** The paths that continue through `x`. */
  lemma FirstName(p: seq<string>, node: Node, x: string, q: seq<string>)
    requires '.' !in x && HasEntry(node, x)
    ensures q != [] && Continues(p + [x], Child(node, x), q) <==> |p| < |q| && q[|p|] == x && Continues(p, node, q)
  {
    if |p| < |q| {
      assert q[..|p| + 1] == q[..|p|] + [q[|p|]];
      if q[|p|] == x {
        ContinuesInto(p, node, q);
      } else {
        assert (p + [x])[|p|] == x;
      }
    }
  }

  // ---- The report is in order ------------------------------------------------

  /** Paths compare component by component, a directory before what it holds. */
  predicate PathLess(a: seq<string>, b: seq<string>)
  {
    b != [] && (a == [] || StrLess(a[0], b[0]) || (a[0] == b[0] && PathLess(a[1..], b[1..])))
  }

  lemma {:induction false} PathLessIff(a: seq<string>, b: seq<string>)
    ensures PathLess(a, b) <==>
            exists k: nat :: k <= |a| && k < |b| && a[..k] == b[..k] && (k == |a| || StrLess(a[k], b[k]))
  {
    if a != [] && b != [] && a[0] == b[0] {
      PathLessIff(a[1..], b[1..]);
      StrLessTotal(a[0], b[0]);
      if PathLess(a, b) {
        var a', b' := a[1..], b[1..];
        var k: nat :| k <= |a'| && k < |b'| && a'[..k] == b'[..k] && (k == |a'| || StrLess(a'[k], b'[k]));
        assert a[..k + 1] == [a[0]] + a[1..][..k] && b[..k + 1] == [b[0]] + b[1..][..k];
      }
      if k: nat :| k <= |a| && k < |b| && a[..k] == b[..k] && (k == |a| || StrLess(a[k], b[k])) {
        assert k > 0 && a[1..][..k - 1] == a[..k][1..] && b[1..][..k - 1] == b[..k][1..];
      }
    } else if PathLess(a, b) {
      assert a[..0] == b[..0];
    } else if a != [] && b != [] {
      assert forall k :: 0 < k <= |a| && k < |b| ==> a[..k][0] != b[..k][0];
    }
  }

  predicate InOrder(s: seq<seq<string>>)
  {
    forall i, j :: 0 <= i < j < |s| ==> PathLess(s[i], s[j])
  }

  lemma {:induction false} PathLessAfter(p: seq<string>, a: seq<string>, b: seq<string>)
    requires |p| <= |a| && a[..|p|] == p && |p| < |b| && b[..|p|] == p
    requires |a| == |p| || StrLess(a[|p|], b[|p|])
    ensures PathLess(a, b)
  {
    if p != [] {
      assert a[0] == p[0] == b[0];
      assert a[1..][..|p| - 1] == a[..|p|][1..] == p[1..];
      assert b[1..][..|p| - 1] == b[..|p|][1..] == p[1..];
      PathLessAfter(p[1..], a[1..], b[1..]);
    }
  }

  lemma InOrderJoin(s: seq<seq<string>>, t: seq<seq<string>>)
    requires InOrder(s) && InOrder(t) && forall a, b :: a in s && b in t ==> PathLess(a, b)
    ensures InOrder(s + t)
  {
    var st := s + t;
    forall i, j | 0 <= i < j < |st| ensures PathLess(st[i], st[j]) {
      if i < |s| && j >= |s| {
        assert st[i] in s && st[j] in t;
      }
    }
  }

  lemma {:induction false} WalkInOrder(p: seq<string>, node: Node)
    requires TreeOk(node)
    ensures InOrder(Walk(p, node))
    decreases node, 1, 0
  {
    if node.Dir? {
      var names := Sorted(Subs(node.entries));
      forall x | x in names ensures x in Subs(node.entries) {
        SortedMembers(Subs(node.entries), x);
      }
      SubsDiffer(node.entries);
      SortedOrdered(Subs(node.entries));
      WalkSubsInOrder(p, node, names);
      var here := if HasEntry(node, MAKEFILE) && p != [] then [p] else [];
      forall a, b | a in here && b in WalkSubs(p, node, names) ensures PathLess(a, b) {
        WalkSubsMembers(p, node, names, b);
        PathLessAfter(p, p, b);
      }
      InOrderJoin(here, WalkSubs(p, node, names));
    }
  }

  lemma {:induction false} WalkSubsInOrder(p: seq<string>, node: Node, names: seq<string>)
    requires TreeOk(node) && node.Dir? && Ordered(names)
    requires forall x :: x in names ==> x in Subs(node.entries)
    ensures InOrder(WalkSubs(p, node, names))
    decreases node, 0, |names|
  {
    if names != [] {
      var x := names[0];
      SubIs(node, x);
      var first, rest := Walk(p + [x], Child(node, x)), WalkSubs(p, node, names[1..]);
      WalkInOrder(p + [x], Child(node, x));
      WalkSubsInOrder(p, node, names[1..]);
      forall a, b | a in first && b in rest ensures PathLess(a, b) {
        WalkMembers(p + [x], Child(node, x), a);
        WalkSubsMembers(p, node, names[1..], b);
        Branches(p, x, a, names, b);
      }
      InOrderJoin(first, rest);
    }
  }

  lemma Branches(p: seq<string>, x: string, a: seq<string>, names: seq<string>, b: seq<string>)
    requires Ordered(names) && names != [] && x == names[0]
    requires |a| > |p| && a[..|p| + 1] == p + [x] && |b| > |p| && b[..|p|] == p && b[|p|] in names[1..]
    ensures PathLess(a, b)
  {
    assert a[..|p|] == a[..|p| + 1][..|p|] && a[|p|] == a[..|p| + 1][|p|];
    var i :| 0 <= i < |names[1..]| && names[1..][i] == b[|p|];
    assert StrLess(names[0], names[i + 1]);
    PathLessAfter(p, a, b);
  }

  // ---- Together --------------------------------------------------------------

  /** find reports the directories below the top that have a makefile and are
      reached through dot-free names: each once, in the order of their paths. */
  lemma ReportIs(root: Node, q: seq<string>)
    requires TreeOk(root)
    ensures q in Walk([], root) <==> q != [] && Marked(root, q)
    ensures InOrder(Walk([], root))
  {
    WalkMembers([], root, q);
    assert q[..0] == [] && q[0..] == q;
    WalkInOrder([], root);
  }

  lemma {:induction false} PathLessTotal(a: seq<string>, b: seq<string>)
    ensures PathLess(a, b) ==> a != b && !PathLess(b, a)
  {
    if a != [] && b != [] {
      StrLessTotal(a[0], b[0]);
      PathLessTotal(a[1..], b[1..]);
    }
  }

  /** Nothing else has these two properties, so the order in which the file
      system lists a directory does not show. */
  lemma {:induction false} ReportUnique(s: seq<seq<string>>, t: seq<seq<string>>)
    requires InOrder(s) && InOrder(t) && forall q :: q in s <==> q in t
    ensures s == t
  {
    assert |s| > 0 ==> s[0] in t;
    assert |t| > 0 ==> t[0] in s;
    if s != [] {
      FirstReported(s, t);
      forall q ensures q in s[1..] <==> q in t[1..] {
        FirstOnlyOnce(s);
        FirstOnlyOnce(t);
        assert q in s <==> q == s[0] || q in s[1..];
        assert q in t <==> q == t[0] || q in t[1..];
      }
      ReportUnique(s[1..], t[1..]);
    }
  }

  lemma FirstOnlyOnce(s: seq<seq<string>>)
    requires InOrder(s) && s != []
    ensures s[0] !in s[1..]
  {
    forall j | 0 <= j < |s[1..]| ensures s[1..][j] != s[0] {
      PathLessTotal(s[0], s[j + 1]);
    }
  }

  lemma FirstReported(s: seq<seq<string>>, t: seq<seq<string>>)
    requires InOrder(s) && InOrder(t) && s != [] && t != [] && s[0] in t && t[0] in s
    ensures s[0] == t[0]
  {
    var i :| 0 <= i < |t| && t[i] == s[0];
    var j :| 0 <= j < |s| && s[j] == t[0];
    if i > 0 && j > 0 {
      PathLessTotal(s[0], t[0]);
    }
  }
}
