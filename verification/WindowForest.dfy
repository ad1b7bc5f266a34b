/**
  NCursesWindow: windows with parent, first-child and sibling pointers, and the
  global count of windows.  `par` is a constant because only constructors
  assign it.
 */
module WindowForest {
  import opened Collections

  class Window {
    const par: Window?
    const birth: nat
    var alloced: bool
    var subwins: Window?
    var sib: Window?

    constructor (par: Window?, birth: nat, alloced: bool)
      ensures this.par == par && this.birth == birth && this.alloced == alloced && subwins == null && sib == null
    {
      this.par, this.birth, this.alloced := par, birth, alloced;
      subwins, sib := null, null;
    }
  }

  /** The subwindows of each live window, in list order. */
  type Forest = map<Window, seq<Window>>

  // ---- Ancestors -----------------------------------------------------------

  /** `w` is reached from `x` by parent steps, zero or more. */
  predicate Under(x: Window, w: Window)
    decreases x.birth
  {
    x == w || (x.par != null && x.par.birth < x.birth && Under(x.par, w))
  }

  /** The window reached from `x` by `n` parent steps, if there is one. */
  function Above(x: Window, n: nat): Window?
  {
    if n == 0 then x else if x.par == null then null else Above(x.par, n - 1)
  }

  lemma {:induction false} UnderIsOlder(x: Window, w: Window)
    requires Under(x, w)
    ensures w.birth <= x.birth && (w != x ==> w.birth < x.birth)
    decreases x.birth
  {
    if x != w {
      UnderIsOlder(x.par, w);
    }
  }

  lemma {:induction false} UnderTransitive(x: Window, y: Window, z: Window)
    requires Under(x, y) && Under(y, z)
    ensures Under(x, z)
    decreases x.birth
  {
    if x != y {
      UnderTransitive(x.par, y, z);
    }
  }

  /** Two ancestors of one window lie on one line. */
  lemma {:induction false} UnderLinear(x: Window, a: Window, b: Window)
    requires Under(x, a) && Under(x, b)
    ensures Under(a, b) || Under(b, a)
    decreases x.birth
  {
    if x != a && x != b {
      UnderLinear(x.par, a, b);
    }
  }

  /** The subtrees of two children of one window are disjoint. */
  lemma SiblingsDisjoint(x: Window, a: Window, b: Window)
    requires a != b && a.par == b.par != null && a.par.birth < a.birth && b.par.birth < b.birth
    requires Under(x, a)
    ensures !Under(x, b)
  {
    if Under(x, b) {
      UnderLinear(x, a, b);
      if Under(a, b) {
        UnderIsOlder(a.par, b);
      } else {
        UnderIsOlder(b.par, a);
      }
    }
  }

  // ---- Forests -------------------------------------------------------------

  predicate NodeOk(k: Forest, w: Window)
    requires w in k
  {
    NoDup(k[w]) && forall c :: c in k[w] ==> c in k && c.par == w
  }

  /** The parent of `w` is live and older, and lists `w` unless `w` is an orphan. */
  predicate Rooted(k: Forest, orphans: set<Window>, w: Window)
  {
    w.par != null ==> w.par in k && w.par.birth < w.birth && (w in k[w.par] <==> w !in orphans)
  }

  /** Each child occurs exactly once in its parent's list, except the `orphans`,
      which occur in no list. */
  predicate ForestOk(k: Forest, orphans: set<Window>)
  {
    && (forall w {:trigger NodeOk(k, w)} :: w in k ==> NodeOk(k, w))
    && (forall w {:trigger Rooted(k, orphans, w)} :: w in k ==> Rooted(k, orphans, w))
    && (forall w :: w in orphans ==> w in k && w.par != null)
  }

  function Subtree(k: Forest, w: Window): set<Window>
  {
    set x | x in k && Under(x, w)
  }

  function Drop(s: seq<Window>, w: Window): seq<Window>
  {
    if s == [] then [] else if s[0] == w then s[1..] else [s[0]] + Drop(s[1..], w)
  }

  /** The forest after `w` has been destroyed. */
  function Cut(k: Forest, w: Window): Forest
  {
    map x | x in k && !Under(x, w) :: Drop(k[x], w)
  }

  /** The forest after the subwindows of `w` have been destroyed. */
  function Clear(k: Forest, w: Window): Forest
  {
    map x | x in k && (x == w || !Under(x, w)) :: if x == w then [] else k[x]
  }

  /** No orphan hangs below `w`. */
  predicate OrphansAbove(orphans: set<Window>, w: Window)
  {
    forall o :: o in orphans && o.par != null ==> !Under(o.par, w)
  }

  /** A proper descendant of `w` is under exactly one of its children. */
  lemma {:induction false} UnderSomeKid(k: Forest, orphans: set<Window>, w: Window, x: Window) returns (c: Window)
    requires ForestOk(k, orphans) && w in k && OrphansAbove(orphans, w) && x in k && Under(x, w) && x != w
    ensures c in k[w] && Under(x, c)
    decreases x.birth
  {
    assert Rooted(k, orphans, x);
    if x.par == w {
      assert Under(x.par, w);
      c := x;
    } else {
      c := UnderSomeKid(k, orphans, w, x.par);
    }
  }

  lemma {:induction false} DropFacts(s: seq<Window>, w: Window)
    requires NoDup(s)
    ensures NoDup(Drop(s, w)) && (forall x :: x in Drop(s, w) <==> x in s && x != w)
    ensures w !in s ==> Drop(s, w) == s
  {
    if s != [] {
      assert s[0] !in s[1..] && s == [s[0]] + s[1..];
      if s[0] != w {
        DropFacts(s[1..], w);
      }
    }
  }

  lemma {:induction false} DropAt(s: seq<Window>, j: nat)
    requires NoDup(s) && j < |s|
    ensures Drop(s, s[j]) == s[..j] + s[j + 1..]
  {
    if j > 0 {
      DropAt(s[1..], j - 1);
      assert s[1..][..j - 1] == s[1..j] && s[1..][j..] == s[j + 1..];
    }
  }

  lemma CutNode(k: Forest, orphans: set<Window>, w: Window, x: Window)
    requires ForestOk(k, orphans) && x in k && !Under(x, w)
    ensures NodeOk(Cut(k, w), x)
  {
    assert NodeOk(k, x);
    DropFacts(k[x], w);
    forall c | c in Drop(k[x], w) ensures c in Cut(k, w) && c.par == x {
      assert Rooted(k, orphans, c);
    }
  }

  /** Destroying `w` keeps the forest invariant and takes away exactly `w` and
      its transitive subwindows. */
  lemma CutKeeps(k: Forest, orphans: set<Window>, w: Window)
    requires ForestOk(k, orphans) && w in k && OrphansAbove(orphans, w)
    ensures ForestOk(Cut(k, w), orphans - {w}) && Cut(k, w).Keys == k.Keys - Subtree(k, w)
  {
    var k' := Cut(k, w);
    forall x | x in k' ensures NodeOk(k', x) {
      CutNode(k, orphans, w, x);
    }
    forall x | x in k' ensures Rooted(k', orphans - {w}, x) {
      assert Rooted(k, orphans, x);
      if x.par != null {
        assert NodeOk(k, x.par);
        DropFacts(k[x.par], w);
      }
    }
    forall o | o in orphans - {w} ensures o in k' {
      assert Rooted(k, orphans, o);
    }
  }

  /** The list of the parent closes over `w`; all other lists that stay are as
      they were. */
  lemma CutIs(k: Forest, orphans: set<Window>, w: Window, x: Window)
    requires ForestOk(k, orphans) && w in k && x in k && !Under(x, w)
    ensures x in Cut(k, w)
    ensures w !in k[x] ==> Cut(k, w)[x] == k[x]
    ensures forall j :: 0 <= j < |k[x]| && k[x][j] == w ==> Cut(k, w)[x] == k[x][..j] + k[x][j + 1..]
  {
    assert NodeOk(k, x);
    DropFacts(k[x], w);
    forall j | 0 <= j < |k[x]| && k[x][j] == w ensures Cut(k, w)[x] == k[x][..j] + k[x][j + 1..] {
      DropAt(k[x], j);
    }
  }

  /** The forest after `w` has been constructed. */
  function Grow(k: Forest, w: Window): Forest
    requires w.par != null ==> w.par in k
  {
    (if w.par == null then k else k[w.par := [w] + k[w.par]])[w := []]
  }

  /** The new window comes first in the list of its parent, and has no list yet. */
  lemma GrowIs(k: Forest, w: Window)
    requires w !in k && (w.par != null ==> w.par in k)
    ensures var k' := Grow(k, w);
            && k'.Keys == k.Keys + {w} && k'[w] == []
            && (w.par != null ==> k'[w.par] == [w] + k[w.par])
            && forall x :: x in k && x != w.par ==> k'[x] == k[x]
  {
  }

  lemma GrowKeeps(k: Forest, w: Window)
    requires ForestOk(k, {}) && w !in k && (w.par != null ==> w.par in k && w.par.birth < w.birth)
    ensures ForestOk(Grow(k, w), {})
  {
    var k' := Grow(k, w);
    forall x | x in k' ensures NodeOk(k', x) && Rooted(k', {}, x) {
      if x != w {
        assert NodeOk(k, x) && Rooted(k, {}, x);
      }
      if x.par != null && x.par in k {
        assert NodeOk(k, x.par);
      }
    }
  }

  /** Constructing a window and destroying it again leaves the forest as it was. */
  lemma CutUndoesGrow(k: Forest, w: Window)
    requires ForestOk(k, {}) && w !in k && (w.par != null ==> w.par in k && w.par.birth < w.birth)
    ensures Cut(Grow(k, w), w) == k
  {
    forall x | x in k ensures !Under(x, w) && Drop(k[x], w) == k[x] {
      NotUnderNew(k, w, x);
      assert NodeOk(k, x);
      DropFacts(k[x], w);
    }
  }

  lemma {:induction false} NotUnderNew(k: Forest, w: Window, x: Window)
    requires ForestOk(k, {}) && w !in k && x in k
    ensures !Under(x, w)
    decreases x.birth
  {
    assert Rooted(k, {}, x);
    if x.par != null {
      NotUnderNew(k, w, x.par);
    }
  }

  /** In a forest the relation is that of parent steps. */
  lemma {:induction false} UnderIffSteps(k: Forest, x: Window, w: Window)
    requires ForestOk(k, {}) && x in k
    ensures Under(x, w) <==> exists n: nat :: Above(x, n) == w
    decreases x.birth
  {
    assert Rooted(k, {}, x) && Above(x, 0) == x;
    if x.par != null {
      UnderIffSteps(k, x.par, w);
      if n: nat :| Above(x.par, n) == w {
        assert Above(x, n + 1) == w;
      }
    }
    if n: nat :| Above(x, n) == w {
      StepUp(x, w, n);
    }
  }

  lemma StepUp(x: Window, w: Window, n: nat)
    requires Above(x, n) == w
    ensures x == w || (x.par != null && n > 0 && Above(x.par, n - 1) == w)
  {
  }

  // ---- kill_subwindows, one child after the other --------------------------

  predicate UnderAny(x: Window, s: seq<Window>)
  {
    exists c :: c in s && Under(x, c)
  }

  /** `w` has given up its list, and the trees of the children in `done` are gone. */
  function Pruned(k: Forest, w: Window, done: seq<Window>): Forest
  {
    map x | x in k && !UnderAny(x, done) :: if x == w then [] else k[x]
  }

  function ToSet(s: seq<Window>): set<Window>
  {
    set x | x in s
  }

  lemma UnderAnyAppend(x: Window, s: seq<Window>, c: Window)
    ensures UnderAny(x, s + [c]) <==> UnderAny(x, s) || Under(x, c)
  {
    if UnderAny(x, s) {
      var d :| d in s && Under(x, d);
      assert d in s + [c];
    }
    if Under(x, c) {
      assert c in s + [c];
    }
  }

  /** Removing all children one by one clears the window. */
  lemma PrunedAll(k: Forest, orphans: set<Window>, w: Window)
    requires ForestOk(k, orphans) && w in k && OrphansAbove(orphans, w)
    ensures Pruned(k, w, k[w]) == Clear(k, w)
  {
    assert NodeOk(k, w);
    forall x | x in k ensures UnderAny(x, k[w]) <==> x != w && Under(x, w) {
      if UnderAny(x, k[w]) {
        var c :| c in k[w] && Under(x, c);
        assert Rooted(k, orphans, c);
        UnderTransitive(x, c, w);
        UnderIsOlder(x, c);
      } else if x != w && Under(x, w) {
        var c := UnderSomeKid(k, orphans, w, x);
        assert UnderAny(x, k[w]);
      }
    }
  }

  /** When `w` gives up its list, its children become orphans. */
  lemma DisownOk(k: Forest, orphans: set<Window>, w: Window)
    requires ForestOk(k, orphans) && w in k
    ensures ForestOk(k[w := []], orphans + ToSet(k[w])) && Pruned(k, w, []) == k[w := []]
  {
    var k', orphans' := k[w := []], orphans + ToSet(k[w]);
    assert NodeOk(k, w);
    forall x | x in k' ensures NodeOk(k', x) && Rooted(k', orphans', x) {
      assert NodeOk(k, x) && Rooted(k, orphans, x);
    }
  }

  lemma NothingPruned(k: Forest, w: Window)
    ensures k.Keys - Pruned(k, w, []).Keys == {}
  {
    forall x | x in k ensures !UnderAny(x, []) {
    }
  }

  predicate IsKid(k: Forest, orphans: set<Window>, w: Window, p: Window)
  {
    ForestOk(k, orphans) && w in k && OrphansAbove(orphans, w) && p in k[w]
  }

  lemma KidFacts(k: Forest, orphans: set<Window>, w: Window, p: Window)
    requires IsKid(k, orphans, w, p)
    ensures p in k && p.par == w && w.birth < p.birth && Under(p, w) && !Under(w, p)
  {
    assert NodeOk(k, w);
    assert Rooted(k, orphans, p);
    if Under(w, p) {
      UnderIsOlder(w, p);
    }
  }

  /** The trees of the children before `p` do not meet the tree of `p`. */
  lemma KidsApart(k: Forest, orphans: set<Window>, w: Window, j: nat, x: Window)
    requires ForestOk(k, orphans) && w in k && OrphansAbove(orphans, w) && j < |k[w]| && Under(x, k[w][j])
    ensures !UnderAny(x, k[w][..j])
  {
    var p := k[w][j];
    KidFacts(k, orphans, w, p);
    assert NodeOk(k, w);
    forall c | c in k[w][..j] ensures !Under(x, c) {
      assert c in k[w] && c != p;
      KidFacts(k, orphans, w, c);
      SiblingsDisjoint(x, p, c);
    }
  }

  lemma OrphansStayAbove(k: Forest, orphans: set<Window>, w: Window, j: nat)
    requires ForestOk(k, orphans) && w in k && OrphansAbove(orphans, w) && j < |k[w]|
    ensures OrphansAbove(orphans + ToSet(k[w][j..]), k[w][j])
  {
    var p := k[w][j];
    KidFacts(k, orphans, w, p);
    forall o | o in orphans + ToSet(k[w][j..]) && o.par != null ensures !Under(o.par, p) {
      if o in orphans {
        if Under(o.par, p) {
          UnderTransitive(o.par, p, w);
        }
      } else {
        KidFacts(k, orphans, w, o);
      }
    }
  }

  lemma PruneStepAt(k: Forest, orphans: set<Window>, w: Window, j: nat, x: Window)
    requires ForestOk(k, orphans) && w in k && OrphansAbove(orphans, w) && j < |k[w]| && x in k
    ensures var p, k1, k2 := k[w][j], Pruned(k, w, k[w][..j]), Pruned(k, w, k[w][..j + 1]);
            && (x in Cut(Clear(k1, p), p) <==> x in k2)
            && (x in k2 ==> Cut(Clear(k1, p), p)[x] == k2[x])
            && (Under(x, p) ==> x in k1)
  {
    var p := k[w][j];
    KidFacts(k, orphans, w, p);
    assert k[w][..j + 1] == k[w][..j] + [p];
    UnderAnyAppend(x, k[w][..j], p);
    if Under(x, p) {
      KidsApart(k, orphans, w, j, x);
    } else {
      assert NodeOk(k, x);
      DropFacts(k[x], p);
      assert Drop([], p) == [];
    }
  }

  /** Clearing and cutting the next child is one more step of the pruning. */
  lemma PruneStep(k: Forest, orphans: set<Window>, w: Window, j: nat)
    requires ForestOk(k, orphans) && w in k && OrphansAbove(orphans, w) && j < |k[w]|
    ensures var p, k1 := k[w][j], Pruned(k, w, k[w][..j]);
            && p in k1 && w in k1
            && Cut(Clear(k1, p), p) == Pruned(k, w, k[w][..j + 1])
            && Subtree(k1, p) == Subtree(k, p)
  {
    KidFacts(k, orphans, w, k[w][j]);
    NotUnderOwnKids(k, orphans, w, j);
    forall x | x in k
      ensures var p, k1, k2 := k[w][j], Pruned(k, w, k[w][..j]), Pruned(k, w, k[w][..j + 1]);
              && (x in Cut(Clear(k1, p), p) <==> x in k2)
              && (x in k2 ==> Cut(Clear(k1, p), p)[x] == k2[x])
              && (Under(x, p) ==> x in k1)
    {
      PruneStepAt(k, orphans, w, j, x);
    }
  }

  lemma NotUnderOwnKids(k: Forest, orphans: set<Window>, w: Window, j: nat)
    requires ForestOk(k, orphans) && w in k && OrphansAbove(orphans, w) && j <= |k[w]|
    ensures !UnderAny(w, k[w][..j])
  {
    forall c | c in k[w][..j] ensures !Under(w, c) {
      assert c in k[w];
      KidFacts(k, orphans, w, c);
    }
  }

  // ---- The order of deletion -----------------------------------------------

  /** `d` holds each window of `gone` exactly once, and no window before one of
      its subwindows. */
  predicate Deletes(d: seq<Window>, gone: set<Window>)
  {
    && NoDup(d) && ToSet(d) == gone
    && forall i, j :: 0 <= i < j < |d| ==> !Under(d[j], d[i])
  }

  lemma DeletesJoin(d1: seq<Window>, s1: set<Window>, d2: seq<Window>, s2: set<Window>)
    requires Deletes(d1, s1) && Deletes(d2, s2)
    requires forall x, y :: x in s1 && y in s2 ==> x != y && !Under(y, x)
    ensures Deletes(d1 + d2, s1 + s2)
  {
    var d := d1 + d2;
    forall i, j | 0 <= i < j < |d| ensures d[i] != d[j] && !Under(d[j], d[i]) {
      if i < |d1| <= j {
        assert d[i] in d1 && d[j] in d2;
        assert d[i] in ToSet(d1) && d[j] in ToSet(d2);
      }
    }
    assert ToSet(d) == ToSet(d1) + ToSet(d2);
  }

  /** What is left to delete after the children before the j-th are gone is not
      above them. */
  lemma KidTreesApart(k: Forest, orphans: set<Window>, w: Window, j: nat)
    requires ForestOk(k, orphans) && w in k && OrphansAbove(orphans, w) && j < |k[w]|
    ensures forall x, y :: x in k && UnderAny(x, k[w][..j]) && y in k && Under(y, k[w][j]) ==> x != y && !Under(y, x)
  {
    forall x, y | x in k && UnderAny(x, k[w][..j]) && y in k && Under(y, k[w][j]) ensures x != y && !Under(y, x) {
      KidsApart(k, orphans, w, j, y);
      if Under(y, x) {
        var c :| c in k[w][..j] && Under(x, c);
        UnderTransitive(y, x, c);
      }
    }
  }

  lemma DeletesNext(k: Forest, orphans: set<Window>, w: Window, j: nat, d: seq<Window>, d1: seq<Window>)
    requires ForestOk(k, orphans) && w in k && OrphansAbove(orphans, w) && j < |k[w]|
    requires Deletes(d, k.Keys - Pruned(k, w, k[w][..j]).Keys) && Deletes(d1, Subtree(k, k[w][j]))
    ensures Deletes(d + d1, k.Keys - Pruned(k, w, k[w][..j + 1]).Keys)
  {
    var p := k[w][j];
    var s1 := k.Keys - Pruned(k, w, k[w][..j]).Keys;
    var s2 := Subtree(k, p);
    KidTreesApart(k, orphans, w, j);
    DeletesJoin(d, s1, d1, s2);
    assert k[w][..j + 1] == k[w][..j] + [p];
    forall x | x in k ensures UnderAny(x, k[w][..j + 1]) <==> UnderAny(x, k[w][..j]) || Under(x, p) {
      UnderAnyAppend(x, k[w][..j], p);
    }
    assert s1 + s2 == k.Keys - Pruned(k, w, k[w][..j + 1]).Keys;
  }

  lemma DeletesLast(k: Forest, w: Window, d: seq<Window>)
    requires w in k && Deletes(d, Subtree(k, w) - {w})
    ensures Deletes(d + [w], Subtree(k, w))
  {
    forall x, y | x in Subtree(k, w) - {w} && y in {w} ensures x != y && !Under(y, x) {
      UnderIsOlder(x, w);
      if Under(w, x) {
        UnderIsOlder(w, x);
      }
    }
    DeletesJoin(d, Subtree(k, w) - {w}, [w], {w});
    assert Subtree(k, w) - {w} + {w} == Subtree(k, w);
  }

  lemma ClearedTree(k: Forest, w: Window)
    requires w in k
    ensures Subtree(Clear(k, w), w) == {w} && Cut(Clear(k, w), w) == Cut(k, w)
  {
  }

  lemma ClearedKeys(k: Forest, w: Window)
    requires w in k
    ensures k.Keys - Clear(k, w).Keys == Subtree(k, w) - {w}
  {
  }

  lemma DeletesOne(d: seq<Window>, w: Window)
    requires Deletes(d, {w})
    ensures d == [w]
  {
    assert w in ToSet(d);
    assert d[0] in ToSet(d) && d[|d| - 1] in ToSet(d);
  }

  lemma OrphansShrink(k: Forest, orphans: set<Window>, w: Window, j: nat)
    requires ForestOk(k, orphans) && w in k && j < |k[w]|
    ensures orphans + ToSet(k[w][j..]) - {k[w][j]} == orphans + ToSet(k[w][j + 1..]) && k[w][j] in ToSet(k[w][j..])
  {
    var p := k[w][j];
    assert NodeOk(k, w);
    assert p in k[w];
    assert Rooted(k, orphans, p);
    assert k[w][j..] == [p] + k[w][j + 1..];
  }

  /** Only the list of the parent changes when `w` goes. */
  lemma CutLists(k: Forest, orphans: set<Window>, w: Window)
    requires ForestOk(k, orphans) && w in k
    ensures forall x :: x in Cut(k, w) && x != w.par ==> Cut(k, w)[x] == k[x]
  {
    forall x | x in Cut(k, w) && x != w.par ensures Cut(k, w)[x] == k[x] {
      assert NodeOk(k, x);
      DropFacts(k[x], w);
    }
  }

  // ---- The pointers --------------------------------------------------------

  function Nth(s: seq<Window>, i: nat): Window?
  {
    if i < |s| then s[i] else null
  }

  /** From index `j` on, each window of `s` has the next one as its sibling. */
  ghost predicate Linked(s: seq<Window>, j: nat)
    reads s
  {
    forall i {:trigger s[i].sib} :: j <= i < |s| ==> s[i].sib == Nth(s, i + 1)
  }

  /** The pointers from `w` spell out the list `s`. */
  ghost predicate ListIs(w: Window, s: seq<Window>)
    reads w, s
  {
    w.subwins == Nth(s, 0) && Linked(s, 0)
  }

  ghost predicate PointersMatch(k: Forest)
    reads k.Keys
  {
    forall w {:trigger ListIs(w, k[w])} :: w in k ==> (forall c :: c in k[w] ==> c in k) && ListIs(w, k[w])
  }

  /** The C++ class's static members, and the live windows. */
  class Screen {
    var count: int
    var clock: nat
    var endwins: nat

    ghost var kids: Forest
    /** Windows counted but never uncounted: those that own no curses window and
        those whose construction failed. */
    ghost var extra: nat
    ghost var deleted: seq<Window>
    ghost var endwinSafe: bool

    ghost predicate PointersOk()
      reads this`kids, kids.Keys
    {
      PointersMatch(kids)
    }

    ghost function Owning(): set<Window>
      reads this`kids, kids.Keys
    {
      set w | w in kids && w.alloced
    }

    /** The count is never below the number of live owning windows, and the
        curses session has ended only when none was live. */
    ghost predicate CountOk()
      reads this, kids.Keys
    {
      count == |Owning()| + extra && endwinSafe
    }

    /** Since the count was `c` and endwin had been called `e` times, it has been
        called once if the count has come down to 0, and otherwise not. */
    ghost predicate Ended(e: nat, c: int)
      reads this`count, this`endwins
    {
      count <= c && endwins == if count == 0 && c > 0 then e + 1 else e
    }

    ghost predicate Consistent(orphans: set<Window>)
      reads this, kids.Keys
    {
      && ForestOk(kids, orphans) && PointersOk() && CountOk()
      && forall w :: w in kids ==> w.birth < clock
    }

    ghost predicate Valid()
      reads this, kids.Keys
    {
      Consistent({})
    }

    constructor ()
      ensures Valid() && kids == map[] && count == 0 && deleted == []
    {
      count, clock, endwins := 0, 0, 0;
      kids, extra, deleted, endwinSafe := map[], 0, [], true;
    }

    // ---- isDescendant ------------------------------------------------------

    /** Whether `w` is reached from `win` by one or more parent steps. */
    method IsDescendant(w: Window, win: Window) returns (result: bool)
      requires Valid() && w in kids && win in kids
      ensures result <==> win != w && Under(win, w)
      decreases clock - w.birth
    {
      ghost var list := kids[w];
      assert NodeOk(kids, w) && ListIs(w, list);
      result := false;
      var p := w.subwins;
      ghost var j := 0;
      while p != null
        invariant 0 <= j <= |list| && p == Nth(list, j)
        invariant !UnderAny(win, list[..j])
        decreases |list| - j
      {
        KidFacts(kids, {}, w, p);
        var below := false;
        if p != win {
          below := IsDescendant(p, win);
        }
        if p == win || below {
          UnderTransitive(win, p, w);
          UnderIsOlder(win, p);
          return true;
        }
        UnderAnyAppend(win, list[..j], p);
        assert list[..j + 1] == list[..j] + [p];
        p, j := p.sib, j + 1;
      }
      assert list[..j] == list;
      if win != w && Under(win, w) {
        var c := UnderSomeKid(kids, {}, w, win);
        assert UnderAny(win, list);
      }
    }

    // ---- Destruction -------------------------------------------------------

    /** The search loop of the destructor: where `w` stands in its parent's list. */
    method FindInList(par: Window, w: Window) returns (prev: Window?, next: Window?, ghost j: nat)
      requires PointersOk() && par in kids
      ensures j <= |kids[par]| && next == Nth(kids[par], j) && (next == null || next == w) && w !in kids[par][..j]
      ensures prev == if j == 0 then null else kids[par][j - 1]
    {
      assert ListIs(par, kids[par]);
      next, prev, j := par.subwins, null, 0;
      while next != null && next != w
        invariant 0 <= j <= |kids[par]| && next == Nth(kids[par], j) && w !in kids[par][..j]
        invariant prev == if j == 0 then null else kids[par][j - 1]
        decreases |kids[par]| - j
      {
        prev, next, j := next, next.sib, j + 1;
      }
    }

    /** The j-th window of the list `s` of `par` is taken out. */
    method Relink(par: Window, prev: Window?, w: Window, ghost s: seq<Window>, ghost j: nat)
      requires ListIs(par, s) && NoDup(s) && j < |s| && s[j] == w && prev == if j == 0 then null else s[j - 1]
      modifies par`subwins, ToSet(s)`sib
      ensures ListIs(par, Drop(s, w))
    {
      DropAt(s, j);
      ghost var s' := s[..j] + s[j + 1..];
      if prev != null {
        prev.sib := w.sib;
      } else {
        par.subwins := w.sib;
      }
      forall i | 0 <= i < |s'| ensures s'[i].sib == Nth(s', i + 1) {
        assert s'[i] == if i < j then s[i] else s[i + 1];
      }
    }

    /** The unlinking step of the destructor. */
    method Unlink(w: Window, ghost orphans: set<Window>)
      requires ForestOk(kids, orphans) && PointersOk() && w in kids && w.par != null
      modifies kids.Keys`subwins, kids.Keys`sib
      ensures w.par in kids && ListIs(w.par, Drop(kids[w.par], w))
      ensures forall x :: x in kids && x != w.par ==> ListIs(x, kids[x])
      ensures forall x :: x in kids && x.sib != old(x.sib) ==> x.par == w.par && w !in orphans
    {
      var par := w.par;
      assert Rooted(kids, orphans, w) && NodeOk(kids, par) && ListIs(par, kids[par]);
      var prev, next, j := FindInList(par, w);
      DropFacts(kids[par], w);
      if next == w {
        Relink(par, prev, w, kids[par], j);
      } else {
        assert kids[par][..j] == kids[par];
      }
      forall x | x in kids && x != par ensures ListIs(x, kids[x]) {
        assert NodeOk(kids, x) && old(ListIs(x, kids[x]));
      }
    }

    /** The end of the destructor: `w`, whose subwindows are gone, leaves the
        forest and gives up its count. */
    method Retire(w: Window)
      requires w in kids && CountOk() && Cut(kids, w).Keys == kids.Keys - {w}
      modifies this`count, this`endwins, this`kids, this`deleted, this`endwinSafe
      ensures kids == Cut(old(kids), w) && deleted == old(deleted) + [w] && CountOk()
      ensures Ended(old(endwins), old(count))
      ensures Owning() == old(Owning()) - {w}
    {
      ghost var own := Owning();
      kids := Cut(kids, w);
      deleted := deleted + [w];
      ghost var own' := Owning();
      assert own' == own - {w};
      if w.alloced {
        count := count - 1;
        if count == 0 {
          endwins := endwins + 1;
          endwinSafe := endwinSafe && Owning() == {};
        } else if count < 0 {
          // "Too many windows destroyed"
          assert false;
        }
      }
      assert Owning() == own';
    }

    method ClearList(w: Window, ghost orphans: set<Window>)
      requires ForestOk(kids, orphans) && PointersOk() && w in kids
      modifies w`subwins
      ensures PointersMatch(kids[w := []]) && Owning() == old(Owning())
    {
      ghost var k' := kids[w := []];
      w.subwins := null;
      forall x | x in k' ensures (forall c :: c in k'[x] ==> c in k') && ListIs(x, k'[x]) {
        assert NodeOk(kids, x) && NodeOk(kids, w) && old(ListIs(x, kids[x]));
      }
    }

    /** `w` gives up its list. */
    method Disown(w: Window, ghost orphans: set<Window>)
      requires Consistent(orphans) && w in kids
      modifies this`kids, w`subwins
      ensures Consistent(orphans + ToSet(old(kids)[w])) && kids == Pruned(old(kids), w, [])
    {
      DisownOk(kids, orphans, w);
      ClearList(w, orphans);
      ghost var own := Owning();
      kids := kids[w := []];
      assert Owning() == own;
    }

    /** The pointer part of the end of the destructor. */
    method UnlinkFromParent(w: Window, ghost orphans: set<Window>)
      requires ForestOk(kids, orphans) && PointersOk() && w in kids && OrphansAbove(orphans, w)
      modifies kids.Keys`subwins, kids.Keys`sib
      ensures PointersMatch(Cut(kids, w))
      ensures forall x :: x in kids && x.sib != old(x.sib) ==> x.par == w.par && w !in orphans
    {
      ghost var k' := Cut(kids, w);
      CutKeeps(kids, orphans, w);
      CutLists(kids, orphans, w);
      if w.par != null {
        Unlink(w, orphans);
      } else {
        assert forall x :: x in kids ==> ListIs(x, kids[x]);
      }
      forall x | x in k' ensures (forall c :: c in k'[x] ==> c in k') && ListIs(x, k'[x]) {
        assert NodeOk(k', x);
      }
    }

    /** The end of the destructor, once the subwindows of `w` are gone. */
    method Leave(w: Window, ghost orphans: set<Window>)
      requires Consistent(orphans) && w in kids && OrphansAbove(orphans, w) && Subtree(kids, w) == {w}
      modifies this`count, this`endwins, this`kids, this`deleted, this`endwinSafe, kids.Keys`subwins, kids.Keys`sib
      ensures Consistent(orphans - {w}) && kids == Cut(old(kids), w) && deleted == old(deleted) + [w]
      ensures Ended(old(endwins), old(count))
      ensures forall x :: x in kids && x.sib != old(x.sib) ==> x.par == w.par && w !in orphans
    {
      CutKeeps(kids, orphans, w);
      UnlinkFromParent(w, orphans);
      assert Owning() == old(Owning());
      Retire(w);
    }

    /** kill_subwindows: every proper descendant of `w` is deleted exactly once,
        below before above, and nothing else changes. */
    method KillSubwindows(w: Window, ghost orphans: set<Window>) returns (ghost d: seq<Window>)
      requires Consistent(orphans) && w in kids && OrphansAbove(orphans, w)
      modifies this`count, this`endwins, this`kids, this`deleted, this`endwinSafe, kids.Keys`subwins, kids.Keys`sib
      ensures Consistent(orphans) && kids == Clear(old(kids), w) && Ended(old(endwins), old(count))
      ensures deleted == old(deleted) + d && Deletes(d, Subtree(old(kids), w) - {w})
      ensures forall x :: x in kids ==> x.sib == old(x.sib)
      decreases clock - w.birth, 0, 1
    {
      ghost var k := kids;
      assert NodeOk(k, w) && ListIs(w, k[w]);
      var p := w.subwins;
      Disown(w, orphans);
      d := KillList(k, orphans, w, p);
      PrunedAll(k, orphans, w);
      ClearedKeys(k, w);
    }

    /** The loop of kill_subwindows over the former list of `w`, which starts at `head`. */
    method KillList(ghost k: Forest, ghost orphans: set<Window>, ghost w: Window, head: Window?)
      returns (ghost d: seq<Window>)
      requires ForestOk(k, orphans) && w in k && OrphansAbove(orphans, w)
      requires kids == Pruned(k, w, []) && Consistent(orphans + ToSet(k[w]))
      requires head == Nth(k[w], 0) && Linked(k[w], 0)
      modifies this`count, this`endwins, this`kids, this`deleted, this`endwinSafe, kids.Keys`subwins, kids.Keys`sib
      ensures Consistent(orphans) && kids == Pruned(k, w, k[w]) && Ended(old(endwins), old(count))
      ensures deleted == old(deleted) + d && Deletes(d, k.Keys - kids.Keys)
      ensures forall x :: x in kids ==> x.sib == old(x.sib)
      decreases clock - w.birth, 0, 0
    {
      var p := head;
      ghost var j := 0;
      d := [];
      PruningEnds(k, orphans, w, deleted, d);
      while p != null
        invariant 0 <= j <= |k[w]| && p == Nth(k[w], j)
        invariant Pruning(k, orphans, w, j, old(deleted), d) && Ended(old(endwins), old(count))
        invariant forall x :: x in kids ==> x in old(kids) && x.sib == old(x.sib)
        decreases |k[w]| - j
      {
        PruneStep(k, orphans, w, j);
        KidFacts(k, orphans, w, p);
        assert p.sib == old(k[w][j].sib);
        p, d := KillNext(k, orphans, w, j, p, old(deleted), d);
        j := j + 1;
      }
      PruningEnds(k, orphans, w, old(deleted), d);
    }

    lemma PruningEnds(k: Forest, orphans: set<Window>, w: Window, base: seq<Window>, d: seq<Window>)
      requires w in k
      ensures Pruning(k, orphans, w, |k[w]|, base, d) ==>
                && kids == Pruned(k, w, k[w]) && Consistent(orphans)
                && deleted == base + d && Deletes(d, k.Keys - kids.Keys)
      ensures kids == Pruned(k, w, []) && Consistent(orphans + ToSet(k[w])) ==> Pruning(k, orphans, w, 0, deleted, [])
    {
      var n := |k[w]|;
      assert k[w][..n] == k[w] && k[w][n..] == [] && k[w][..0] == [] && k[w][0..] == k[w];
      assert orphans + ToSet([]) == orphans;
      if kids == Pruned(k, w, []) {
        NothingPruned(k, w);
      }
    }

    /** The first `j` children of `w` are gone, and `d` is what has been deleted since `base`. */
    ghost predicate Pruning(k: Forest, orphans: set<Window>, w: Window, j: nat, base: seq<Window>, d: seq<Window>)
      reads this, kids.Keys
    {
      && w in k && j <= |k[w]|
      && kids == Pruned(k, w, k[w][..j]) && Consistent(orphans + ToSet(k[w][j..]))
      && deleted == base + d && Deletes(d, k.Keys - kids.Keys)
    }

    /** One turn of the loop of kill_subwindows, which destroys the j-th child. */
    method KillNext(ghost k: Forest, ghost orphans: set<Window>, ghost w: Window, ghost j: nat, p: Window,
                    ghost base: seq<Window>, ghost d: seq<Window>)
      returns (q: Window?, ghost d': seq<Window>)
      requires ForestOk(k, orphans) && w in k && OrphansAbove(orphans, w) && j < |k[w]| && p == k[w][j]
      requires Pruning(k, orphans, w, j, base, d)
      modifies this`count, this`endwins, this`kids, this`deleted, this`endwinSafe, kids.Keys`subwins, kids.Keys`sib
      ensures q == old(p.sib) && Pruning(k, orphans, w, j + 1, base, d') && Ended(old(endwins), old(count))
      ensures forall x :: x in kids ==> x in old(kids) && x.sib == old(x.sib)
      decreases clock - p.birth, 3
    {
      PruneStep(k, orphans, w, j);
      OrphansStayAbove(k, orphans, w, j);
      OrphansShrink(k, orphans, w, j);
      q := p.sib;
      ghost var d1 := KillOne(p, orphans + ToSet(k[w][j..]));
      DeletesNext(k, orphans, w, j, d, d1);
      d' := d + d1;
      Associative(base, d, d1);
    }

    /** The two calls in the loop of kill_subwindows. */
    method KillOne(p: Window, ghost orphans: set<Window>) returns (ghost d: seq<Window>)
      requires Consistent(orphans) && p in kids && OrphansAbove(orphans, p) && p in orphans
      modifies this`count, this`endwins, this`kids, this`deleted, this`endwinSafe, kids.Keys`subwins, kids.Keys`sib
      ensures Consistent(orphans - {p}) && kids == Cut(Clear(old(kids), p), p) && Ended(old(endwins), old(count))
      ensures deleted == old(deleted) + d && Deletes(d, Subtree(old(kids), p))
      ensures forall x :: x in kids ==> x.sib == old(x.sib)
      decreases clock - p.birth, 2
    {
      ghost var k := kids;
      ghost var d1 := KillSubwindows(p, orphans);
      ClearedTree(k, p);
      ghost var d2 := Destroy(p, orphans);
      DeletesOne(d2, p);
      DeletesLast(k, p, d1);
      d := d1 + d2;
    }

    /** The destructor: `w` and its transitive subwindows are deleted, each exactly
        once; its parent's list loses `w` and keeps its order. */
    method Destroy(w: Window, ghost orphans: set<Window>) returns (ghost d: seq<Window>)
      requires Consistent(orphans) && w in kids && OrphansAbove(orphans, w)
      modifies this`count, this`endwins, this`kids, this`deleted, this`endwinSafe, kids.Keys`subwins, kids.Keys`sib
      ensures Consistent(orphans - {w}) && kids == Cut(old(kids), w) && Ended(old(endwins), old(count))
      ensures deleted == old(deleted) + d && Deletes(d, Subtree(old(kids), w))
      ensures forall x :: x in kids && x.sib != old(x.sib) ==> x.par == w.par && w !in orphans
      decreases clock - w.birth, 1
    {
      ghost var k := kids;
      d := KillSubwindows(w, orphans);
      ClearedTree(k, w);
      DeletesLast(k, w, d);
      Leave(w, orphans);
      d := d + [w];
    }

    /** `delete w`: endwin is called exactly when the last owning window goes and
        no window is counted that is never uncounted. */
    method Delete(w: Window) returns (ghost d: seq<Window>)
      requires Valid() && w in kids
      modifies this`count, this`endwins, this`kids, this`deleted, this`endwinSafe, kids.Keys`subwins, kids.Keys`sib
      ensures Valid() && kids == Cut(old(kids), w)
      ensures deleted == old(deleted) + d && Deletes(d, Subtree(old(kids), w))
      ensures endwins == old(endwins) + if extra == 0 && old(Owning()) != {} && Owning() == {} then 1 else 0
    {
      d := Destroy(w, {});
      assert {} - {w} == {};
    }

    // ---- Construction ------------------------------------------------------

    /** The pointers of the new window `w` at the head of its parent's list. */
    method LinkFirst(w: Window)
      requires ForestOk(kids, {}) && PointersOk() && w !in kids && w.subwins == null && w.sib == null
      requires w.par != null ==> w.par in kids
      modifies w`sib, (if w.par == null then {} else {w.par})`subwins
      ensures PointersMatch(Grow(kids, w))
    {
      ghost var k' := Grow(kids, w);
      if w.par != null {
        assert ListIs(w.par, kids[w.par]);
        w.sib := w.par.subwins;
        w.par.subwins := w;
      }
      forall x | x in k' ensures (forall c :: c in k'[x] ==> c in k') && ListIs(x, k'[x]) {
        assert x != w ==> NodeOk(kids, x) && old(ListIs(x, kids[x]));
      }
    }

    /** A new window object with the given parent joins the forest. */
    method Construct(par: Window?, alloced: bool) returns (w: Window)
      requires ForestOk(kids, {}) && PointersOk() && (par == null || par in kids)
      requires forall x :: x in kids ==> x.birth < clock
      modifies this`kids, this`clock, (if par == null then {} else {par})`subwins
      ensures fresh(w) && w !in old(kids) && w.par == par && w.alloced == alloced && kids == Grow(old(kids), w)
      ensures ForestOk(kids, {}) && PointersOk() && forall x :: x in kids ==> x.birth < clock
      ensures Owning() == old(Owning()) + (if alloced then {w} else {})
    {
      w := new Window(par, clock, alloced);
      GrowKeeps(kids, w);
      LinkFirst(w);
      Enrol(w);
    }

    method Enrol(w: Window)
      requires w !in kids && (w.par != null ==> w.par in kids) && PointersMatch(Grow(kids, w)) && w.birth == clock
      requires forall x :: x in kids ==> x.birth < clock
      modifies this`kids, this`clock
      ensures kids == Grow(old(kids), w) && PointersOk() && forall x :: x in kids ==> x.birth < clock
      ensures Owning() == old(Owning()) + (if w.alloced then {w} else {})
    {
      kids, clock := Grow(kids, w), clock + 1;
    }

    /** The count changes, and nothing else. */
    method Recount(c: int, ghost e: nat)
      requires PointersOk()
      modifies this`count, this`extra
      ensures count == c && extra == e && PointersOk() && Owning() == old(Owning())
    {
      count, extra := c, e;
    }

    /** The constructors that make a curses window, of their own (`par` null) or
        inside `par`; `made` says whether curses made it.  If not, the
        constructor throws and the count stays raised. */
    method NewWindow(par: Window?, made: bool) returns (w: Window?)
      requires Valid() && (par == null || par in kids)
      modifies this`count, this`extra, this`kids, this`clock, (if par == null then {} else {par})`subwins
      ensures Valid() && (w != null <==> made) && extra == old(extra) + (if made then 0 else 1)
      ensures w == null ==> kids == old(kids)
      ensures w != null ==> fresh(w) && w !in old(kids) && w.par == par && w.alloced && kids == Grow(old(kids), w)
    {
      Recount(count + 1, extra + (if made then 0 else 1));
      w := null;
      if made {
        w := Construct(par, true);
      }
    }

    /** The constructors that adopt an existing curses window; only the one for
        ripped-off lines is not `counted`. */
    method NewView(counted: bool) returns (w: Window)
      requires Valid()
      modifies this`count, this`extra, this`kids, this`clock
      ensures extra == old(extra) + (if counted then 1 else 0)
      ensures Valid() && fresh(w) && w !in old(kids) && w.par == null && !w.alloced && kids == Grow(old(kids), w)
    {
      if counted {
        Recount(count + 1, extra + 1);
      }
      w := Construct(null, false);
    }

    /** NCursesPad: the base constructor counts a window that owns nothing; a pad
        that curses makes becomes its own, and one that it does not make is
        uncounted again before the constructor throws. */
    method NewPad(made: bool) returns (w: Window?)
      requires Valid()
      modifies this`count, this`extra, this`kids, this`clock
      ensures Valid() && (w != null <==> made) && extra == old(extra)
      ensures w == null ==> kids == old(kids)
      ensures w != null ==> fresh(w) && w !in old(kids) && w.par == null && w.alloced && kids == Grow(old(kids), w)
    {
      Recount(count + 1, extra);
      w := null;
      if made {
        w := Construct(null, true);
      } else {
        Recount(count - 1, extra);
      }
    }
  }
}
