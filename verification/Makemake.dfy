/**
  The walk of makemake.  It keeps the path of the current directory in one
  global buffer, which every level of the recursion writes behind the end of the
  path it was called with.
 */
module Makemake {
  import opened Collections
  import opened DirectoryTree
  import opened MakefileFilter

  const BUFFER: nat := 2000

  // ---- Paths as strings ------------------------------------------------------

  function PathString(path: seq<string>): string
  {
    if path == [] then "." else PathString(path[..|path| - 1]) + "/" + path[|path| - 1]
  }

  lemma PathStringAppend(path: seq<string>, name: string)
    ensures PathString(path + [name]) == PathString(path) + "/" + name
  {
    assert (path + [name])[..|path|] == path;
  }

  lemma {:induction false} SplitAppend(s: string, name: string)
    requires '/' !in name
    ensures Split(s + "/" + name, '/') == Split(s, '/') + [name]
  {
    var t := s + "/" + name;
    if name == [] {
      assert t[..|t| - 1] == s;
    } else {
      var init := name[..|name| - 1];
      assert t[..|t| - 1] == s + "/" + init;
      SplitAppend(s, init);
      assert name == init + [name[|name| - 1]];
      assert Split(s + "/" + init, '/')[..|Split(s, '/')|] == Split(s, '/');
    }
  }

  predicate NamesOk(path: seq<string>)
  {
    forall i :: 0 <= i < |path| ==> NameOk(path[i])
  }

  /** A path can be read back from its string. */
  lemma {:induction false} SplitPath(path: seq<string>)
    requires NamesOk(path)
    ensures Split(PathString(path), '/') == ["."] + path
  {
    if path == [] {
      var dot := ".";
      assert dot[..0] == "" && Split(dot[..0], '/') == [""];
      assert [""][..0] == [] && "" + ['.'] == dot;
      assert [] + [dot] == [dot] && ["."] + path == ["."];
    } else {
      var n := |path| - 1;
      SplitPath(path[..n]);
      SplitAppend(PathString(path[..n]), path[n]);
      assert path == path[..n] + [path[n]];
    }
  }

  lemma {:induction false} PathStringShape(path: seq<string>)
    requires NamesOk(path)
    ensures '\0' !in PathString(path)
    ensures |PathString(path)| >= 1 && PathString(path)[0] == '.'
    ensures path != [] ==> |PathString(path)| > 2 && PathString(path)[1] == '/'
  {
    if path != [] {
      PathStringShape(path[..|path| - 1]);
    }
  }

  /** What the file system finds under a path. */
  function Resolve(root: Node, s: string): Option<Node>
  {
    var parts := Split(s, '/');
    if parts[0] == "." && Exists(root, parts[1..]) then Some(At(root, parts[1..])) else None
  }

  lemma ResolvePath(root: Node, path: seq<string>)
    requires NamesOk(path)
    ensures Resolve(root, PathString(path)) == if Exists(root, path) then Some(At(root, path)) else None
  {
    SplitPath(path);
    assert (["."] + path)[1..] == path;
  }

  /** Different directories have different paths. */
  lemma PathStringInjective(p: seq<string>, q: seq<string>)
    requires NamesOk(p) && NamesOk(q) && PathString(p) == PathString(q)
    ensures p == q
  {
    SplitPath(p);
    SplitPath(q);
    assert (["."] + p)[1..] == p;
    assert (["."] + q)[1..] == q;
  }

  lemma TopPath()
    ensures PathString([MAKEFILE]) == "./makefile"
  {
    PathStringAppend([], MAKEFILE);
    assert [] + [MAKEFILE] == [MAKEFILE];
  }

  /** The test for the makefile of the top directory. */
  lemma TopMakefile(dir: seq<string>, name: string)
    requires NamesOk(dir) && NameOk(name)
    ensures PathString(dir + [name]) == "./makefile" <==> dir == [] && name == MAKEFILE
  {
    TopPath();
    if PathString(dir + [name]) == PathString([MAKEFILE]) {
      PathStringInjective(dir + [name], [MAKEFILE]);
      assert |dir + [name]| == 1 && (dir + [name])[0] == MAKEFILE;
    }
    assert [] + [name] == [name];
  }

  // ---- The files that are written --------------------------------------------

  /** The path from the top directory. */
  function Below(path: seq<string>): string
  {
    var s := PathString(path);
    if |s| < 2 then [] else s[2..]
  }

  /** The path in the buffer is the names of the directories with slashes between. */
  lemma {:induction false} PathIsJoined(path: seq<string>)
    ensures PathString(path) == Join(["."] + path, "/")
    ensures path != [] ==> Below(path) == Join(path, "/")
  {
    if path != [] {
      var n := |path| - 1;
      PathIsJoined(path[..n]);
      assert path == path[..n] + [path[n]] && ["."] + path == (["."] + path[..n]) + [path[n]];
      JoinAppend(["."] + path[..n], path[n], "/");
      JoinCons(".", path, "/");
      assert (("." + "/") + Join(path, "/"))[2..] == Join(path, "/");
    }
  }

  function MakeLine(path: seq<string>): string
  {
    "\t$(MAKE) -C " + Below(path) + " $(SUBARGS)\n"
  }

  function MakeLines(report: seq<seq<string>>): string
  {
    if report == [] then "all_subs:\n"
    else MakeLines(report[..|report| - 1]) + MakeLine(report[|report| - 1])
  }

  /** The makefile that is written: its target, and for each directory of the
      report a line that runs make there. */
  lemma MakefileIs(report: seq<seq<string>>, path: seq<string>)
    requires path != []
    ensures MakeLines([]) == "all_subs:\n"
    ensures MakeLines(report + [path]) == MakeLines(report) + ("\t$(MAKE) -C " + Join(path, "/") + " $(SUBARGS)\n")
  {
    PathIsJoined(path);
    assert (report + [path])[..|report|] == report;
  }

  const PARTS: seq<string> := ["makefile.oh", "makefile.h32", "makefile.o64", "makefile.o32"]

  function Part(root: Node, path: seq<string>, k: nat): string
    requires k < 4
  {
    if Exists(root, path + [PARTS[k]]) && At(root, path + [PARTS[k]]).File?
    then Filter(At(root, path + [PARTS[k]]).text, Below(path))
    else []
  }

  function Parts(root: Node, report: seq<seq<string>>, k: nat): string
    requires k < 4
  {
    if report == [] then [] else Parts(root, report[..|report| - 1], k) + Part(root, report[|report| - 1], k)
  }

  /** What a directory adds to an output: its file of the given name, filtered,
      or nothing if there is no such file. */
  predicate Copies(root: Node, path: seq<string>, name: string, out: string)
  {
    var p := path + [name];
    out == if Exists(root, p) && At(root, p).File? then Filter(At(root, p).text, Join(path, "/")) else []
  }

  /** The four outputs, each from the file of its own name. */
  lemma PartsAre(root: Node, report: seq<seq<string>>, path: seq<string>)
    requires path != []
    ensures Copies(root, path, "makefile.oh", Part(root, path, 0))
    ensures Copies(root, path, "makefile.h32", Part(root, path, 1))
    ensures Copies(root, path, "makefile.o64", Part(root, path, 2))
    ensures Copies(root, path, "makefile.o32", Part(root, path, 3))
    ensures forall k :: 0 <= k < 4 ==>
              && Parts(root, [], k) == []
              && Parts(root, report + [path], k) == Parts(root, report, k) + Part(root, path, k)
  {
    PathIsJoined(path);
    assert (report + [path])[..|report|] == report;
  }

  lemma {:induction false} PathStringPlain(dir: seq<string>, c: char)
    requires c != '.' && c != '/' && forall i :: 0 <= i < |dir| ==> c !in dir[i]
    ensures c !in PathString(dir)
  {
    if dir != [] {
      PathStringPlain(dir[..|dir| - 1], c);
    }
  }

  /** With plain directory names, what is copied from a directory has no blank
      line, and filtering it again would not change it. */
  lemma PartIsTidy(root: Node, dir: seq<string>, k: nat, q: string)
    requires k < 4 && dir != [] && NamesOk(dir)
    requires forall i :: 0 <= i < |dir| ==> NL !in dir[i] && AND !in dir[i]
    ensures Tidy(Part(root, dir, k), true) && Filter(Part(root, dir, k), q) == Part(root, dir, k)
  {
    PathStringShape(dir);
    PathStringPlain(dir, NL);
    PathStringPlain(dir, AND);
    assert Solid(Below(dir)) && AND !in Below(dir);
    TidyIff(Below(dir));
    if Exists(root, dir + [PARTS[k]]) && At(root, dir + [PARTS[k]]).File? {
      FilterAgain(At(root, dir + [PARTS[k]]).text, Below(dir), q);
    }
  }

  /** The buffer has room for every path that the walk writes to it. */
  predicate Fits(node: Node, len: nat, oh: bool)
  {
    node.Dir? ==>
      && (oh && HasEntry(node, MAKEFILE) ==> len + 13 < BUFFER)
      && forall i :: 0 <= i < |node.entries| && '.' !in node.entries[i].name ==>
           len + 1 + |node.entries[i].name| < BUFFER && Fits(node.entries[i].node, len + 1 + |node.entries[i].name|, oh)
  }

  class Finder {
    const root: Node
    const doOh: bool
    const path: array<char>
    var mf: string
    var parts: seq<string>
    /** The directories reported so far. */
    ghost var report: seq<seq<string>>

    /** The buffer holds the C string `s`. */
    ghost predicate Holds(s: string)
      reads path
    {
      Starts(s) && '\0' !in s && path[|s|] == '\0'
    }

    ghost predicate Starts(s: string)
      reads path
    {
      |s| < path.Length && path[..|s|] == s
    }

    ghost predicate Valid()
      reads this
    {
      && path.Length == BUFFER && |parts| == 4
      && (!doOh ==> mf == MakeLines(report))
      && (doOh ==> forall k :: 0 <= k < 4 ==> parts[k] == Parts(root, report, k))
    }

    constructor (root: Node, doOh: bool)
      ensures Valid() && fresh(path) && report == [] && this.root == root && this.doOh == doOh
    {
      this.root, this.doOh := root, doOh;
      path := new char[BUFFER](_ => '\0');
      mf, parts, report := "all_subs:\n", ["", "", "", ""], [];
    }

    method Strlen(ghost s: string) returns (n: nat)
      requires Holds(s)
      ensures n == |s|
    {
      assert forall i :: 0 <= i < |s| ==> path[i] == path[..|s|][i] && path[i] in s;
      n := 0;
      while path[n] != '\0'
        invariant 0 <= n <= |s|
        decreases |s| - n
      {
        n := n + 1;
      }
    }

    /** The string that the file system sees. */
    method Argument(ghost s: string) returns (t: string)
      requires Holds(s)
      ensures t == s
    {
      var n := Strlen(s);
      t := path[..n];
    }

    /** strcpy to the buffer at `at`. */
    method Strcpy(at: nat, s: string)
      requires at + |s| < path.Length
      modifies path
      ensures path[..at] == old(path[..at]) && path[at..at + |s|] == s && path[at + |s|] == '\0'
    {
      var i := 0;
      while i < |s|
        invariant 0 <= i <= |s|
        invariant path[..at] == old(path[..at]) && path[at..at + i] == s[..i]
      {
        path[at + i] := s[i];
        i := i + 1;
      }
      path[at + |s|] := '\0';
    }

    /** The buffer behind the path of a directory takes the name of an entry. */
    method PutName(ghost s: string, n: nat, name: string)
      requires Starts(s) && n == |s| && path[n] == '/' && '\0' !in s && '\0' !in name
      requires n + 1 + |name| < path.Length
      modifies path
      ensures Holds(s + "/" + name)
    {
      Strcpy(n + 1, name);
      assert path[..n + 1] == s + "/";
      assert path[..n + 1 + |name|] == path[..n + 1] + path[n + 1..n + 1 + |name|];
    }

    /** The strcpy and fopen of process_makefile. */
    method OpenPart(ghost dir: seq<string>, n: nat, k: nat) returns (file: Option<Node>)
      requires path.Length == BUFFER && k < 4 && n + 13 < BUFFER
      requires NamesOk(dir) && n == |PathString(dir)| && Starts(PathString(dir))
      modifies path
      ensures Starts(PathString(dir))
      ensures var p := dir + [PARTS[k]]; file == if Exists(root, p) then Some(At(root, p)) else None
    {
      PartName(k);
      var name := PARTS[k];
      PathStringShape(dir);
      PathStringAppend(dir, name);
      ResolvePath(root, dir + [name]);
      PutPart(PathString(dir), n, name);
      var arg := Argument(PathString(dir + [name]));
      file := Resolve(root, arg);
    }

    /** Behind the path of a directory the buffer takes a slash and a name. */
    method PutPart(ghost s: string, n: nat, name: string)
      requires Starts(s) && n == |s| && '\0' !in s && '\0' !in name && n + 1 + |name| < path.Length
      modifies path
      ensures Starts(s) && Holds(s + "/" + name)
    {
      var t := "/" + name;
      Strcpy(n, t);
      assert path[..n + |t|] == path[..n] + path[n..n + |t|];
      Associative(s, "/", name);
    }

    /** process_makefile: copies one of the four files, if it is there.  The path
        in the buffer keeps the name of the file when it is not. */
    method ProcessMakefile(ghost dir: seq<string>, n: nat, k: nat)
      requires path.Length == BUFFER && |parts| == 4 && k < 4 && n + 13 < BUFFER
      requires NamesOk(dir) && dir != [] && n == |PathString(dir)| && Starts(PathString(dir))
      modifies `parts, path
      ensures Starts(PathString(dir))
      ensures parts == old(parts)[k := old(parts)[k] + Part(root, dir, k)]
    {
      PathStringShape(dir);
      var file := OpenPart(dir, n, k);
      if file.None? || file.value.Dir? {
        assert parts[k] + [] == parts[k];
        return;
      }
      path[n] := '\0';
      assert path[..n] == PathString(dir);
      assert path[2..n] == path[..n][2..];
      var out := FilterText(file.value.text, path[2..n]);
      parts := parts[k := parts[k] + out];
    }

    method CopyParts(ghost dir: seq<string>, n: nat)
      requires path.Length == BUFFER && |parts| == 4 && n + 13 < BUFFER
      requires NamesOk(dir) && dir != [] && n == |PathString(dir)| && Starts(PathString(dir))
      modifies `parts, path
      ensures Starts(PathString(dir)) && |parts| == 4
      ensures forall k :: 0 <= k < 4 ==> parts[k] == old(parts)[k] + Part(root, dir, k)
    {
      ProcessMakefile(dir, n, 0);
      ProcessMakefile(dir, n, 1);
      ProcessMakefile(dir, n, 2);
      ProcessMakefile(dir, n, 3);
    }

    /** What find does in a directory with a makefile. */
    method Report(ghost dir: seq<string>, n: nat)
      requires Valid() && NamesOk(dir) && dir != [] && (doOh ==> n + 13 < BUFFER)
      requires n == |PathString(dir)| && Starts(PathString(dir))
      modifies `mf, `parts, `report, path
      ensures Valid() && Starts(PathString(dir)) && report == old(report) + [dir]
    {
      report := report + [dir];
      assert report[..|report| - 1] == old(report);
      if doOh {
        CopyParts(dir, n);
      } else {
        PathStringShape(dir);
        path[n] := '\0';
        assert path[..n] == PathString(dir);
        assert path[2..n] == path[..n][2..];
        if path[1] != '\0' {
          mf := mf + ("\t$(MAKE) -C " + path[2..n] + " $(SUBARGS)\n");
        }
      }
    }

    /** The same, with the slash put back behind the path. */
    method ReportHere(ghost dir: seq<string>, n: nat)
      requires Valid() && NamesOk(dir) && dir != [] && (doOh ==> n + 13 < BUFFER)
      requires n == |PathString(dir)| && Starts(PathString(dir))
      modifies `mf, `parts, `report, path
      ensures Valid() && Starts(PathString(dir)) && path[n] == '/' && report == old(report) + [dir]
    {
      Report(dir, n);
      path[n] := '/';
    }

    /** Writes the path of an entry and asks whether it is a directory. */
    method Stat(ghost dir: seq<string>, n: nat, ghost node: Node, ghost i: nat, e: Entry)
      returns (arg: string, isDir: bool)
      requires NamesOk(dir) && Exists(root, dir) && node == At(root, dir) && TreeOk(node) && node.Dir?
      requires i < |node.entries| && e == node.entries[i] && n + 1 + |e.name| < path.Length
      requires n == |PathString(dir)| && Starts(PathString(dir)) && path[n] == '/'
      modifies path
      ensures Starts(PathString(dir)) && path[n] == '/'
      ensures arg == PathString(dir + [e.name]) && isDir == e.node.Dir?
    {
      PathStringShape(dir);
      PathStringAppend(dir, e.name);
      PutName(PathString(dir), n, e.name);
      arg := Argument(PathString(dir + [e.name]));
      var stat := Resolve(root, arg);
      EntryResolves(root, dir, i);
      isDir := stat.Some? && stat.value.Dir?;
      StillStarts(dir, e.name, n);
    }

    /** One entry of the directory: whether it is a subdirectory, and the report
        when it is the makefile. */
    method Visit(ghost dir: seq<string>, n: nat, ghost node: Node, ghost i: nat, e: Entry) returns (sub: bool)
      requires Valid() && NamesOk(dir) && Exists(root, dir) && node == At(root, dir) && TreeOk(node) && node.Dir?
      requires i < |node.entries| && e == node.entries[i] && Fits(node, n, doOh)
      requires n == |PathString(dir)| && Starts(PathString(dir)) && path[n] == '/'
      modifies `mf, `parts, `report, path
      ensures Valid() && Starts(PathString(dir)) && path[n] == '/' && sub == IsSub(e)
      ensures report == old(report) + if e.name == MAKEFILE && dir != [] then [dir] else []
    {
      if e.name[0] == '.' || '.' in e.name {
        return false;
      }
      var arg;
      arg, sub := Stat(dir, n, node, i, e);
      TopMakefile(dir, e.name);
      if arg == "./makefile" {
        return;
      }
      if e.name == MAKEFILE {
        IndexFinds(node.entries, i);
        ReportHere(dir, n);
      }
    }

    method Opendir(ghost dir: seq<string>, ghost node: Node, n: nat) returns (entries: seq<Entry>)
      requires NamesOk(dir) && Exists(root, dir) && node == At(root, dir) && node.Dir?
      requires n == |PathString(dir)| && Holds(PathString(dir))
      modifies path
      ensures Starts(PathString(dir)) && path[n] == '/' && entries == node.entries
    {
      var arg := Argument(PathString(dir));
      ResolvePath(root, dir);
      entries := Resolve(root, arg).value.entries;
      path[n] := '/';
      assert path[..n] == old(path[..n]);
    }

    /** opendir and the readdir loop: the subdirectories, in the order in which
        the file system lists them. */
    method Scan(ghost dir: seq<string>, ghost node: Node, n: nat) returns (subs: seq<string>)
      requires Valid() && NamesOk(dir) && Exists(root, dir) && node == At(root, dir) && TreeOk(node) && node.Dir?
      requires Fits(node, n, doOh) && n == |PathString(dir)| && Holds(PathString(dir))
      modifies `mf, `parts, `report, path
      ensures Valid() && Starts(PathString(dir)) && path[n] == '/' && subs == Subs(node.entries)
      ensures report == old(report) + if HasEntry(node, MAKEFILE) && dir != [] then [dir] else []
    {
      var entries := Opendir(dir, node, n);
      subs := [];
      var i := 0;
      while i < |entries|
        invariant 0 <= i <= |entries|
        invariant Valid() && Starts(PathString(dir)) && path[n] == '/' && subs == Subs(entries[..i])
        invariant report == old(report) + Seen(entries, i, dir)
      {
        NextSub(entries, i);
        NextSeen(entries, i, dir, old(report));
        var sub := Visit(dir, n, node, i, entries[i]);
        if sub {
          subs := subs + [entries[i].name];
        }
        i := i + 1;
      }
      assert entries[..i] == entries;
    }

    /** The descent into one subdirectory. */
    method Into(ghost dir: seq<string>, ghost node: Node, n: nat, name: string)
      requires Valid() && NamesOk(dir) && Exists(root, dir) && node == At(root, dir) && TreeOk(node) && node.Dir?
      requires Fits(node, n, doOh) && n == |PathString(dir)| && Starts(PathString(dir)) && path[n] == '/'
      requires name in Subs(node.entries)
      modifies `mf, `parts, `report, path
      ensures Valid() && Starts(PathString(dir)) && path[n] == '/'
      ensures HasEntry(node, name) && report == old(report) + Walk(dir + [name], Child(node, name))
      decreases node, 0
    {
      SubFits(root, dir, node, n, name, doOh);
      PathStringShape(dir);
      PathStringAppend(dir, name);
      PutName(PathString(dir), n, name);
      Find(dir + [name], Child(node, name));
      StillStarts(dir, name, n);
    }

    /** The descent into the sorted subdirectories. */
    method Descend(ghost dir: seq<string>, ghost node: Node, n: nat, names: seq<string>)
      requires Valid() && NamesOk(dir) && Exists(root, dir) && node == At(root, dir) && TreeOk(node) && node.Dir?
      requires Fits(node, n, doOh) && n == |PathString(dir)| && Starts(PathString(dir)) && path[n] == '/'
      requires forall x :: x in names ==> x in Subs(node.entries)
      modifies `mf, `parts, `report, path
      ensures Valid() && Starts(PathString(dir)) && path[n] == '/'
      ensures report == old(report) + WalkSubs(dir, node, names)
      decreases node, 1
    {
      var i := 0;
      ghost var all := old(report) + WalkSubs(dir, node, names);
      assert names[0..] == names;
      while i < |names|
        invariant 0 <= i <= |names|
        invariant Valid() && Starts(PathString(dir)) && path[n] == '/'
        invariant report + WalkSubs(dir, node, names[i..]) == all
      {
        ghost var x, was := names[i], report;
        assert x in names;
        Into(dir, node, n, names[i]);
        SubIs(node, x);
        assert names[i..][1..] == names[i + 1..];
        Associative(was, Walk(dir + [x], Child(node, x)), WalkSubs(dir, node, names[i + 1..]));
        i := i + 1;
      }
      assert report + [] == report;
    }

    /** find: reports the directories below the current one, and leaves in the
        buffer the path it found there. */
    method Find(ghost dir: seq<string>, ghost node: Node)
      requires Valid() && NamesOk(dir) && Exists(root, dir) && node == At(root, dir) && TreeOk(node) && node.Dir?
      requires Fits(node, |PathString(dir)|, doOh) && Holds(PathString(dir))
      modifies `mf, `parts, `report, path
      ensures Valid() && Holds(PathString(dir))
      ensures report == old(report) + Walk(dir, node)
      decreases node, 2
    {
      ghost var s := PathString(dir);
      var n := Strlen(s);
      var subs := Scan(dir, node, n);
      SubsDiffer(node.entries);
      var names := Qsort(subs);
      AnySort(subs, names);
      Descend(dir, node, n, names);
      PathStringShape(dir);
      path[n] := '\0';
      assert path[..n] == s;
      Associative(old(report), if HasEntry(node, MAKEFILE) && dir != [] then [dir] else [], WalkSubs(dir, node, names));
    }

    /** The whole run: the report is that of the tree. */
    method Run()
      requires Valid() && report == [] && root.Dir? && TreeOk(root) && Fits(root, 1, doOh)
      modifies `mf, `parts, `report, path
      ensures Valid() && report == Walk([], root)
    {
      Strcpy(0, ".");
      assert path[..1] == path[0..1];
      Find([], root);
    }

    lemma StillStarts(dir: seq<string>, name: string, n: nat)
      requires Holds(PathString(dir + [name])) && n == |PathString(dir)|
      ensures Starts(PathString(dir)) && path[n] == '/'
    {
      PathStringAppend(dir, name);
      var t := PathString(dir + [name]);
      assert path[..n] == path[..|t|][..n];
      assert path[n] == path[..|t|][n];
    }
  }

  /** What one more entry adds to the subdirectories. */
  lemma NextSub(entries: seq<Entry>, i: nat)
    requires i < |entries|
    ensures Subs(entries[..i + 1]) == Subs(entries[..i]) + if IsSub(entries[i]) then [entries[i].name] else []
  {
    assert entries[..i + 1][..i] == entries[..i];
  }

  /** What the first `i` entries of `dir` report. */
  function Seen(entries: seq<Entry>, i: nat, dir: seq<string>): seq<seq<string>>
  {
    if Index(entries, MAKEFILE) < i && dir != [] then [dir] else []
  }

  lemma NextSeen(entries: seq<Entry>, i: nat, dir: seq<string>, base: seq<seq<string>>)
    requires i < |entries| && NamesDiffer(entries)
    ensures base + Seen(entries, i + 1, dir) ==
            base + Seen(entries, i, dir) + if entries[i].name == MAKEFILE && dir != [] then [dir] else []
  {
    if entries[i].name == MAKEFILE {
      IndexFinds(entries, i);
    }
  }

  lemma PartName(k: nat)
    requires k < 4
    ensures NameOk(PARTS[k]) && |PARTS[k]| <= 12
  {
  }

  lemma EntryResolves(root: Node, dir: seq<string>, i: nat)
    requires NamesOk(dir) && Exists(root, dir) && At(root, dir).Dir? && TreeOk(At(root, dir))
    requires i < |At(root, dir).entries|
    ensures var e := At(root, dir).entries[i]; Resolve(root, PathString(dir + [e.name])) == Some(e.node)
  {
    var node := At(root, dir);
    var e := node.entries[i];
    IndexFinds(node.entries, i);
    ExistsAppend(root, dir, e.name);
    ResolvePath(root, dir + [e.name]);
  }

  lemma SubFits(root: Node, dir: seq<string>, node: Node, n: nat, x: string, oh: bool)
    requires NamesOk(dir) && Exists(root, dir) && node == At(root, dir) && TreeOk(node) && node.Dir?
    requires Fits(node, n, oh) && n == |PathString(dir)| && x in Subs(node.entries)
    ensures HasEntry(node, x) && Child(node, x).Dir? && NameOk(x) && n + 1 + |x| < BUFFER
    ensures Exists(root, dir + [x]) && At(root, dir + [x]) == Child(node, x)
    ensures Fits(Child(node, x), |PathString(dir + [x])|, oh)
  {
    SubIs(node, x);
    ExistsAppend(root, dir, x);
    PathStringAppend(dir, x);
    var k := Index(node.entries, x);
    assert node.entries[k].name == x;
  }

  /** qsort with sort_alpha. */
  method Qsort(names: seq<string>) returns (sorted: seq<string>)
    requires NoDup(names)
    ensures Ordered(sorted) && forall x :: x in sorted <==> x in names
  {
    sorted := Sorted(names);
    SortedOrdered(names);
    forall x ensures x in sorted <==> x in names {
      SortedMembers(names, x);
    }
  }

  /** Any sort gives the same order. */
  lemma AnySort(names: seq<string>, sorted: seq<string>)
    requires NoDup(names) && Ordered(sorted) && forall x :: x in sorted <==> x in names
    ensures sorted == Sorted(names)
  {
    SortedOrdered(names);
    forall x ensures x in sorted <==> x in Sorted(names) {
      SortedMembers(names, x);
    }
    OrderedUnique(sorted, Sorted(names));
  }
}