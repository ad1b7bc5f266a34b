/**
  The table of DOS objects of one handle in thunks.c: `objs[level][slot]` holds
  the objects that the call at that nesting level has made.  A call that never
  returns has its objects collected, and at the end of every call the count of
  objects is asserted to be what it was before.
 */
module DosObjects {
  import opened Collections

  const MAX_OBJS: nat := 50
  const MAX_RECUR: nat := 10

  /** A call in progress: how many objects its level held when it began, and how
      many of its requests were refused less those whose null address it has
      released. */
  datatype Frame = Frame(start: nat, owed: int)

  /** The innermost call is owed `d` more. */
  ghost function Owing(calls: seq<Frame>, d: int): seq<Frame>
    requires calls != []
  {
    var n := |calls| - 1;
    calls[n := calls[n].(owed := calls[n].owed + d)]
  }

  /** What the calls in progress have added to the count. */
  ghost function Net(held: seq<set<nat>>, calls: seq<Frame>): int
    requires |calls| <= |held|
  {
    if calls == [] then 0
    else
      var n := |calls| - 1;
      Net(held, calls[..n]) + |held[n]| - calls[n].start + calls[n].owed
  }

  lemma {:induction false} NetFrame(held: seq<set<nat>>, held': seq<set<nat>>, calls: seq<Frame>)
    requires |calls| <= |held| && |calls| <= |held'|
    requires forall l :: 0 <= l < |calls| ==> held'[l] == held[l]
    ensures Net(held', calls) == Net(held, calls)
  {
    if calls != [] {
      NetFrame(held, held', calls[..|calls| - 1]);
    }
  }

  /** The innermost call changes what its level holds and what it is owed. */
  lemma NetUpdate(held: seq<set<nat>>, calls: seq<Frame>, s: set<nat>, owed: int)
    requires 0 < |calls| <= |held|
    ensures var n := |calls| - 1;
            && Net(held[n := s], calls[n := calls[n].(owed := owed)]) ==
               Net(held, calls) - |held[n]| + |s| - calls[n].owed + owed
            && Net(held[n := s], calls[..n]) == Net(held, calls[..n])
  {
    var n := |calls| - 1;
    assert calls[n := calls[n].(owed := owed)][..n] == calls[..n];
    NetFrame(held, held[n := s], calls[..n]);
  }

  /** The number of levels that hold `x`. */
  ghost function Holders(held: seq<set<nat>>, x: nat): nat
  {
    if held == [] then 0
    else Holders(held[..|held| - 1], x) + (if x in held[|held| - 1] then 1 else 0)
  }

  /** Every object made is freed or held. */
  ghost predicate Accounted(made: seq<nat>, freed: seq<nat>, held: seq<set<nat>>)
  {
    forall x: nat {:trigger Count(made, x)} :: Count(made, x) == Count(freed, x) + Holders(held, x)
  }

  lemma {:induction false} NoHolders(held: seq<set<nat>>, x: nat)
    ensures Holders(held, x) == 0 <==> forall l :: 0 <= l < |held| ==> x !in held[l]
  {
    if held != [] {
      var n := |held| - 1;
      NoHolders(held[..n], x);
      assert forall l :: 0 <= l < n ==> held[..n][l] == held[l];
    }
  }

  /** The objects freed are the objects made, each as often, exactly when no
      level holds one. */
  lemma AllFreedIff(made: seq<nat>, freed: seq<nat>, held: seq<set<nat>>)
    requires Accounted(made, freed, held)
    ensures multiset(made) == multiset(freed) <==> forall l :: 0 <= l < |held| ==> held[l] == {}
  {
    forall x: nat
      ensures multiset(made)[x] == Count(freed, x) + Holders(held, x) && multiset(freed)[x] == Count(freed, x)
    {
      CountIsMultiplicity(made, x);
      CountIsMultiplicity(freed, x);
    }
    if forall l :: 0 <= l < |held| ==> held[l] == {} {
      forall x: nat ensures multiset(made)[x] == multiset(freed)[x] {
        NoHolders(held, x);
      }
    } else {
      var l :| 0 <= l < |held| && held[l] != {};
      var x :| x in held[l];
      NoHolders(held, x);
      assert multiset(made)[x] != multiset(freed)[x];
    }
  }

  /** `row` holds exactly the objects of `s`, each in one slot; 0 is a free slot. */
  predicate RowIs(row: seq<nat>, s: set<nat>)
  {
    && 0 !in s
    && (forall i :: 0 <= i < |row| ==> row[i] == 0 || row[i] in s)
    && (forall x :: x in s ==> x in row)
    && (forall i, j :: 0 <= i < j < |row| && row[i] == row[j] ==> row[i] == 0)
  }

  lemma RowInsert(row: seq<nat>, s: set<nat>, k: nat, x: nat)
    requires RowIs(row, s) && k < |row| && row[k] == 0 && x != 0 && x !in s
    ensures RowIs(row[k := x], s + {x})
  {
    var row' := row[k := x];
    forall y | y in s + {x} ensures y in row' {
      if y == x {
        assert row'[k] == x;
      } else {
        var i :| 0 <= i < |row| && row[i] == y;
        assert row'[i] == y;
      }
    }
  }

  lemma RowRemove(row: seq<nat>, s: set<nat>, k: nat)
    requires RowIs(row, s) && k < |row| && row[k] != 0
    ensures RowIs(row[k := 0], s - {row[k]})
  {
    var row' := row[k := 0];
    forall y | y in s - {row[k]} ensures y in row' {
      var i :| 0 <= i < |row| && row[i] == y;
      assert row'[i] == y;
    }
  }

  function Put(row: seq<nat>, k: nat, x: nat): seq<nat>
    requires k < |row|
  {
    row[k := x]
  }

  function Cleared(row: seq<nat>, x: nat): seq<nat>
  {
    seq(|row|, i requires 0 <= i < |row| => if row[i] == x then 0 else row[i])
  }

  /** No object belongs to two levels. */
  predicate Apart(held: seq<set<nat>>)
  {
    forall i, j {:trigger Disjoint(held, i, j)} :: 0 <= i < j < |held| ==> Disjoint(held, i, j)
  }

  predicate Disjoint(held: seq<set<nat>>, i: nat, j: nat)
    requires i < |held| && j < |held|
  {
    held[i] !! held[j]
  }

  lemma {:induction false} UpdateHolders(held: seq<set<nat>>, l: nat, s: set<nat>, x: nat)
    requires l < |held|
    ensures Holders(held[l := s], x) ==
            Holders(held, x) - (if x in held[l] then 1 else 0) + (if x in s then 1 else 0)
  {
    var n := |held| - 1;
    if l < n {
      assert held[l := s][..n] == held[..n][l := s];
      UpdateHolders(held[..n], l, s, x);
    } else {
      assert held[l := s][..n] == held[..n];
    }
  }

  lemma AccountMade(made: seq<nat>, freed: seq<nat>, held: seq<set<nat>>, l: nat, x: nat)
    requires Accounted(made, freed, held) && l < |held| && x !in held[l]
    ensures Accounted(made + [x], freed, held[l := held[l] + {x}])
  {
    forall y: nat ensures Count(made + [x], y) == Count(freed, y) + Holders(held[l := held[l] + {x}], y) {
      CountAppend(made, x, y);
      UpdateHolders(held, l, held[l] + {x}, y);
    }
  }

  lemma AccountFreed(made: seq<nat>, freed: seq<nat>, held: seq<set<nat>>, l: nat, x: nat)
    requires Accounted(made, freed, held) && l < |held| && x in held[l]
    ensures Accounted(made, freed + [x], held[l := held[l] - {x}])
  {
    forall y: nat ensures Count(made, y) == Count(freed + [x], y) + Holders(held[l := held[l] - {x}], y) {
      CountAppend(freed, x, y);
      UpdateHolders(held, l, held[l] - {x}, y);
    }
  }

  /** The occupied slots of a row, in order. */
  function Occupied(row: seq<nat>): seq<nat>
  {
    if row == [] then []
    else Occupied(row[..|row| - 1]) + (if row[|row| - 1] == 0 then [] else [row[|row| - 1]])
  }

  /** They are the objects of the level, each once. */
  lemma {:induction false} OccupiedOnce(row: seq<nat>, s: set<nat>, x: nat)
    requires RowIs(row, s)
    ensures Count(Occupied(row), x) == if x in s then 1 else 0
  {
    if row != [] {
      var n := |row| - 1;
      RowInit(row, s);
      OccupiedOnce(row[..n], s - {row[n]}, x);
      CountAppend(Occupied(row[..n]), row[n], x);
      assert Occupied(row[..n]) + [] == Occupied(row[..n]);
      assert row[n] != 0 ==> row[n] in s;
    }
  }

  /** They come in the order of their slots. */
  lemma {:induction false} OccupiedInOrder(a: seq<nat>, b: seq<nat>)
    ensures Occupied(a + b) == Occupied(a) + Occupied(b)
    ensures forall x: nat :: Occupied([x]) == if x == 0 then [] else [x]
  {
    forall x: nat ensures Occupied([x]) == if x == 0 then [] else [x] {
      assert [x][..0] == [];
    }
    if b == [] {
      assert a + b == a;
    } else {
      var n := |b| - 1;
      OccupiedInOrder(a, b[..n]);
      assert (a + b)[..|a| + n] == a + b[..n];
      Associative(Occupied(a), Occupied(b[..n]), if b[n] == 0 then [] else [b[n]]);
    }
  }

  lemma RowInit(row: seq<nat>, s: set<nat>)
    requires RowIs(row, s) && row != []
    ensures RowIs(row[..|row| - 1], s - {row[|row| - 1]})
  {
    var n := |row| - 1;
    forall y | y in s - {row[n]} ensures y in row[..n] {
      var i :| 0 <= i < |row| && row[i] == y;
      assert row[..n][i] == y;
    }
  }

  /** Level `l` of the table holds the objects `held[l]`. */
  ghost predicate LevelOk(rows: seq<seq<nat>>, held: seq<set<nat>>, l: nat)
    requires l < |rows| && l < |held|
  {
    |rows[l]| == MAX_OBJS && RowIs(rows[l], held[l])
  }

  ghost predicate TableOk(rows: seq<seq<nat>>, held: seq<set<nat>>)
  {
    && |rows| == |held| == MAX_RECUR
    && (forall l {:trigger LevelOk(rows, held, l)} :: 0 <= l < MAX_RECUR ==> LevelOk(rows, held, l))
    && Apart(held)
  }

  /** One level changes. */
  lemma TableUpdate(rows: seq<seq<nat>>, held: seq<set<nat>>, l: nat, row: seq<nat>, s: set<nat>)
    requires TableOk(rows, held) && l < |held| && |row| == MAX_OBJS && RowIs(row, s)
    requires forall i :: 0 <= i < |held| && i != l ==> s !! held[i]
    ensures TableOk(rows[l := row], held[l := s])
  {
    var rows', held' := rows[l := row], held[l := s];
    forall i | 0 <= i < MAX_RECUR ensures LevelOk(rows', held', i) {
      assert LevelOk(rows, held, i);
    }
    forall i, j | 0 <= i < j < |held'| ensures Disjoint(held', i, j) {
      assert Disjoint(held, i, j);
    }
  }

  /** The slots of a level tell what it holds. */
  lemma InTable(rows: seq<seq<nat>>, held: seq<set<nat>>, l: nat, x: nat)
    requires TableOk(rows, held) && l < MAX_RECUR && x != 0
    ensures x in rows[l] <==> x in held[l]
  {
    assert LevelOk(rows, held, l);
  }

  /** An empty level has a free slot. */
  lemma RoomInEmpty(rows: seq<seq<nat>>, held: seq<set<nat>>, l: nat)
    requires TableOk(rows, held) && l < MAX_RECUR && held[l] == {}
    ensures 0 in rows[l]
  {
    assert LevelOk(rows, held, l);
    assert rows[l][0] == 0;
  }

  lemma RoomBesideOne(rows: seq<seq<nat>>, held: seq<set<nat>>, l: nat, x: nat)
    requires TableOk(rows, held) && l < MAX_RECUR && held[l] == {x}
    ensures 0 in rows[l] && x in rows[l]
  {
    assert LevelOk(rows, held, l);
    assert rows[l][0] == 0 || rows[l][1] == 0;
  }

  /** The row with its first `n` slots cleared. */
  function Wiped(row: seq<nat>, n: nat): seq<nat>
  {
    seq(|row|, i requires 0 <= i < |row| => if i < n then 0 else row[i])
  }

  lemma WipeNext(row: seq<nat>, n: nat)
    requires n < |row|
    ensures Wiped(row, n)[n] == row[n]
    ensures Wiped(row, n + 1) == Put(Wiped(row, n), n, 0)
    ensures row[n] == 0 ==> Wiped(row, n + 1) == Wiped(row, n)
  {
  }

  lemma WipedLevel(rows: seq<seq<nat>>, held: seq<set<nat>>, l: nat, row: seq<nat>)
    requires TableOk(rows, held) && l < MAX_RECUR
    requires |row| == MAX_OBJS && rows[l] == Wiped(row, MAX_OBJS)
    ensures held[l] == {}
  {
    assert LevelOk(rows, held, l);
  }

  lemma TableInsert(rows: seq<seq<nat>>, held: seq<set<nat>>, l: nat, k: nat, x: nat)
    requires TableOk(rows, held) && l < MAX_RECUR && k < MAX_OBJS && x != 0
    requires forall i :: 0 <= i < |held| ==> x !in held[i]
    requires |rows[l]| == MAX_OBJS && rows[l][k] == 0
    ensures TableOk(rows[l := Put(rows[l], k, x)], held[l := held[l] + {x}])
  {
    assert LevelOk(rows, held, l);
    RowInsert(rows[l], held[l], k, x);
    forall i | 0 <= i < |held| && i != l ensures held[l] + {x} !! held[i] {
      assert if i < l then Disjoint(held, i, l) else Disjoint(held, l, i);
    }
    TableUpdate(rows, held, l, Put(rows[l], k, x), held[l] + {x});
  }

  lemma TableRemove(rows: seq<seq<nat>>, held: seq<set<nat>>, l: nat, k: nat)
    requires TableOk(rows, held) && l < MAX_RECUR && k < MAX_OBJS
    requires |rows[l]| == MAX_OBJS && rows[l][k] != 0
    ensures TableOk(rows[l := Put(rows[l], k, 0)], held[l := held[l] - {rows[l][k]}])
    ensures Put(rows[l], k, 0) == Cleared(rows[l], rows[l][k])
  {
    assert LevelOk(rows, held, l);
    RowRemove(rows[l], held[l], k);
    forall i | 0 <= i < |held| && i != l ensures held[l] - {rows[l][k]} !! held[i] {
      assert if i < l then Disjoint(held, i, l) else Disjoint(held, l, i);
    }
    TableUpdate(rows, held, l, Put(rows[l], k, 0), held[l] - {rows[l][k]});
  }

  class ObjectTable {
    var recurCnt: nat
    var objcnt: int
    const objs: array2<nat>

    /** The contents of `objs`, level by level. */
    ghost var rows: seq<seq<nat>>
    /** The objects of each level. */
    ghost var held: seq<set<nat>>
    /** The calls in progress. */
    ghost var calls: seq<Frame>
    /** The objects made and freed so far, in order. */
    ghost var made: seq<nat>
    ghost var freed: seq<nat>

    ghost predicate Matches()
      reads this, objs
    {
      && objs.Length0 == MAX_RECUR == |rows| && objs.Length1 == MAX_OBJS
      && (forall l :: 0 <= l < MAX_RECUR ==> |rows[l]| == MAX_OBJS)
      && (forall l, i :: 0 <= l < MAX_RECUR && 0 <= i < MAX_OBJS ==> objs[l, i] == rows[l][i])
    }

    /** Every object made is freed or in one level, and `objcnt` is what the
        calls in progress have added. */
    ghost predicate Valid()
      reads this, objs
    {
      && Matches() && TableOk(rows, held)
      && recurCnt == |calls| <= MAX_RECUR
      && objcnt == Net(held, calls)
      && Accounted(made, freed, held)
    }

    /** No level holds an object that an earlier call left there. */
    ghost predicate Clean()
      reads this
    {
      && (forall l :: recurCnt <= l < |held| ==> held[l] == {})
      && (forall l :: 0 <= l < |calls| ==> calls[l].start == 0)
    }

    /** What `objcnt` was when the innermost call began. */
    ghost function Base(): int
      requires 0 < |calls| <= |held|
      reads this
    {
      Net(held, calls[..|calls| - 1])
    }

    constructor ()
      ensures Valid() && Clean() && fresh(objs) && recurCnt == 0 && made == [] && freed == []
    {
      objs := new nat[MAX_RECUR, MAX_OBJS]((_, _) => 0);
      recurCnt, objcnt, calls, made, freed := 0, 0, [], [], [];
      rows := seq(MAX_RECUR, l => seq(MAX_OBJS, i => 0));
      held := seq(MAX_RECUR, l => {});
      new;
      forall x: nat ensures Count(made, x) == Count(freed, x) + Holders(held, x) {
        NoHolders(held, x);
      }
    }

    /** find_oh: the first slot of the current level that holds `addr`, or
        MAX_OBJS for the null pointer that the C code returns. */
    method FindOh(addr: nat) returns (k: nat)
      requires Matches() && 0 < recurCnt <= MAX_RECUR
      ensures k <= MAX_OBJS
      ensures k < MAX_OBJS ==> rows[recurCnt - 1][k] == addr
      ensures k == MAX_OBJS <==> addr !in rows[recurCnt - 1]
      ensures addr !in rows[recurCnt - 1][..k]
    {
      k := 0;
      while k < MAX_OBJS && objs[recurCnt - 1, k] != addr
        invariant 0 <= k <= MAX_OBJS
        invariant addr !in rows[recurCnt - 1][..k]
      {
        k := k + 1;
      }
      assert rows[recurCnt - 1][..MAX_OBJS] == rows[recurCnt - 1];
    }

    /** Writes slot `k` of the current level. */
    method SetSlot(k: nat, x: nat)
      requires Matches() && 0 < recurCnt <= MAX_RECUR && k < MAX_OBJS
      modifies `rows, objs
      ensures Matches() && rows == old(rows)[recurCnt - 1 := Put(old(rows)[recurCnt - 1], k, x)]
    {
      objs[recurCnt - 1, k] := x;
      rows := rows[recurCnt - 1 := Put(rows[recurCnt - 1], k, x)];
    }

    /** The current level now holds `s`, and its call is owed `owed`. */
    ghost method Rebalance(s: set<nat>, owed: int)
      requires 0 < |calls| <= |held|
      modifies `held, `calls
      ensures var n := |old(calls)| - 1;
              && held == old(held)[n := s] && calls == old(calls)[n := old(calls)[n].(owed := owed)]
              && Net(held, calls) == old(Net(held, calls)) - |old(held)[n]| + |s| - old(calls)[n].owed + owed
              && Base() == old(Base())
    {
      NetUpdate(held, calls, s, owed);
      var n := |calls| - 1;
      assert calls[n := calls[n].(owed := owed)][..n] == calls[..n];
      held, calls := held[n := s], calls[n := calls[n].(owed := owed)];
    }

    /** The current level now holds `s`, and the count changes with it. */
    method Recount(d: int, ghost s: set<nat>, ghost made': seq<nat>, ghost freed': seq<nat>)
      requires Matches() && 0 < |calls| <= |held|
      modifies `objcnt, `held, `made, `freed
      ensures Matches() && objcnt == old(objcnt) + d && made == made' && freed == freed'
      ensures var n := |calls| - 1;
              && held == old(held)[n := s] && Base() == old(Base())
              && Net(held, calls) == old(Net(held, calls)) - |old(held)[n]| + |s|
    {
      ghost var n := |calls| - 1;
      assert calls[n := calls[n].(owed := calls[n].owed)] == calls;
      NetUpdate(held, calls, s, calls[n].owed);
      objcnt, held, made, freed := objcnt + d, held[n := s], made', freed';
    }

    /** Writes a null to the free slot `k`, which changes nothing. */
    method KeepSlot(k: nat)
      requires Matches() && 0 < recurCnt <= MAX_RECUR && k < MAX_OBJS && rows[recurCnt - 1][k] == 0
      modifies `rows, objs
      ensures Matches() && rows == old(rows)
    {
      assert Put(rows[recurCnt - 1], k, 0) == rows[recurCnt - 1];
      SetSlot(k, 0);
    }

    /** A refused request, or the release of its null address, at the free slot
        `k`: the table stays and the call is owed `d` more. */
    method Refuse(k: nat, d: int)
      requires Valid() && recurCnt > 0 && k < MAX_OBJS && rows[recurCnt - 1][k] == 0
      modifies `objcnt, `rows, `held, `calls, objs
      ensures Valid() && rows == old(rows) && held == old(held) && objcnt == old(objcnt) + d
      ensures calls == Owing(old(calls), d) && Base() == old(Base())
    {
      KeepSlot(k);
      objcnt := objcnt + d;
      Rebalance(held[recurCnt - 1], calls[recurCnt - 1].owed + d);
      assert held == old(held);
    }

    /** A new object goes to the free slot `k`. */
    method Take(k: nat, addr: nat)
      requires Valid() && recurCnt > 0 && k < MAX_OBJS && rows[recurCnt - 1][k] == 0
      requires addr != 0 && forall l :: 0 <= l < |held| ==> addr !in held[l]
      modifies `objcnt, `rows, `held, `made, `freed, objs
      ensures Valid() && freed == old(freed) && Base() == old(Base()) && objcnt == old(objcnt) + 1
      ensures held == old(held)[recurCnt - 1 := old(held)[recurCnt - 1] + {addr}] && made == old(made) + [addr]
    {
      ghost var top := recurCnt - 1;
      TableInsert(rows, held, top, k, addr);
      AccountMade(made, freed, held, top, addr);
      SetSlot(k, addr);
      Recount(1, held[top] + {addr}, made + [addr], freed);
    }

    /** The object `fa` leaves its slot `k`. */
    method Give(k: nat, ghost fa: nat)
      requires Valid() && recurCnt > 0 && k < MAX_OBJS && rows[recurCnt - 1][k] == fa != 0
      modifies `objcnt, `rows, `held, `made, `freed, objs
      ensures Valid() && made == old(made) && Base() == old(Base()) && objcnt == old(objcnt) - 1
      ensures held == old(held)[recurCnt - 1 := old(held)[recurCnt - 1] - {fa}] && freed == old(freed) + [fa]
      ensures rows[recurCnt - 1] == Cleared(old(rows)[recurCnt - 1], fa)
    {
      ghost var top := recurCnt - 1;
      TableRemove(rows, held, top, k);
      InTable(rows, held, top, fa);
      AccountFreed(made, freed, held, top, fa);
      SetSlot(k, 0);
      Recount(-1, held[top] - {fa}, made, freed + [fa]);
    }

    /** do_obj_init for an ordinary pointer: `addr` is what malloc32 gave, 0 when
        it had nothing.  The C code dereferences null when no slot is free. */
    method ObjInit(addr: nat) returns (fault: bool)
      requires Valid() && recurCnt > 0
      requires addr == 0 || forall l :: 0 <= l < |held| ==> addr !in held[l]
      modifies `objcnt, `rows, `held, `calls, `made, `freed, objs
      ensures fault <==> 0 !in old(rows[recurCnt - 1])
      ensures !fault ==> Valid() && freed == old(freed) && Base() == old(Base()) && objcnt == old(objcnt) + 1
      ensures !fault && old(Clean()) ==> Clean()
      ensures !fault && addr != 0 ==>
                && held == old(held)[recurCnt - 1 := old(held)[recurCnt - 1] + {addr}]
                && calls == old(calls) && made == old(made) + [addr]
      ensures !fault && addr == 0 ==> held == old(held) && made == old(made) && calls == Owing(old(calls), 1)
    {
      var k := FindOh(0);
      if k == MAX_OBJS {
        return true;
      }
      if addr == 0 {
        Refuse(k, 1);
      } else {
        Take(k, addr);
      }
      fault := false;
    }

    /** do_rm_dosobj: frees the object and clears its slot.  The null address of
        a refused request finds a free slot and lowers the count alone, unless the
        allocator rejects the pointer that stands for it: `takesNull` says that it
        does not.  The C code dereferences null when no slot of the level holds the
        address. */
    method RmDosobj(fa: nat, takesNull: bool) returns (fault: bool)
      requires Valid() && recurCnt > 0
      modifies `objcnt, `rows, `held, `calls, `made, `freed, objs
      ensures fault <==> fa !in old(rows)[recurCnt - 1] || (fa == 0 && !takesNull)
      ensures fa != 0 ==> (fault <==> fa !in old(held)[recurCnt - 1])
      ensures !fault ==> Valid() && made == old(made) && Base() == old(Base()) && objcnt == old(objcnt) - 1
      ensures !fault && old(Clean()) ==> Clean()
      ensures !fault && fa != 0 ==>
                && held == old(held)[recurCnt - 1 := old(held)[recurCnt - 1] - {fa}]
                && calls == old(calls) && freed == old(freed) + [fa]
                && rows[recurCnt - 1] == Cleared(old(rows)[recurCnt - 1], fa)
      ensures !fault && fa == 0 ==>
                held == old(held) && rows == old(rows) && freed == old(freed) && calls == Owing(old(calls), -1)
    {
      if fa != 0 {
        InTable(rows, held, recurCnt - 1, fa);
      }
      if fa == 0 && !takesNull {
        return true;
      }
      var k := FindOh(fa);
      if k == MAX_OBJS {
        return true;
      }
      if fa == 0 {
        Refuse(k, -1);
      } else {
        Give(k, fa);
      }
      fault := false;
    }

    /** dj64_call up to the dispatch; it asserts that a level is left. */
    method EnterCall() returns (ok: bool, last: int)
      requires Valid()
      modifies `recurCnt, `calls
      ensures Valid() && (ok <==> old(recurCnt) < MAX_RECUR) && last == objcnt && (old(Clean()) ==> Clean())
      ensures !ok ==> calls == old(calls)
      ensures ok ==> calls == old(calls) + [Frame(|held[old(recurCnt)]|, 0)] && last == Base()
    {
      ok, last := recurCnt < MAX_RECUR, objcnt;
      if ok {
        calls := calls + [Frame(|held[recurCnt]|, 0)];
        recurCnt := recurCnt + 1;
        assert calls[..recurCnt - 1] == old(calls);
      }
    }

    /** The end of dj64_call: asserts that the count is what it was, and drops
        the level.  The assertion holds exactly when the objects that the call
        has left and the refused requests it has not released balance.  If it
        has released no null address but those of refused requests, that is
        when it has left no object and owes no release. */
    method LeaveCall(last: int) returns (ok: bool)
      requires Valid() && recurCnt > 0 && last == Base()
      modifies `recurCnt, `calls
      ensures Valid()
      ensures var top, c := old(recurCnt) - 1, old(calls)[old(recurCnt) - 1];
              && (ok <==> |held[top]| - c.start + c.owed == 0)
              && (old(Clean()) && c.owed >= 0 ==> Clean() && (ok <==> held[top] == {} && c.owed == 0))
      ensures ok ==> recurCnt == old(recurCnt) - 1 && calls == old(calls)[..recurCnt]
      ensures !ok ==> recurCnt == old(recurCnt) && calls == old(calls)
    {
      ok := objcnt == last;
      if ok {
        recurCnt := recurCnt - 1;
        calls := calls[..recurCnt];
      }
    }

    /** One step of the collection: slot `i` is cleared and its object freed. */
    method CollectSlot(i: nat)
      requires Valid() && recurCnt > 0 && i < MAX_OBJS
      modifies `objcnt, `rows, `held, `calls, `made, `freed, objs
      ensures Valid() && calls == old(calls) && made == old(made) && Base() == old(Base()) && (old(Clean()) ==> Clean())
      ensures held == old(held)[recurCnt - 1 := held[recurCnt - 1]]
      ensures var x := old(rows)[recurCnt - 1][i];
              && rows[recurCnt - 1] == Put(old(rows)[recurCnt - 1], i, 0)
              && freed == old(freed) + if x == 0 then [] else [x]
    {
      var top := recurCnt - 1;
      if objs[top, i] != 0 {
        TableRemove(rows, held, top, i);
        var fault := RmDosobj(objs[top, i], false);
      }
    }

    /** The collection after a non-local jump: frees the objects of the current
        level, each once and in slot order, and nothing else. */
    method Collect()
      requires Valid() && recurCnt > 0
      modifies this, objs
      ensures Valid() && recurCnt == old(recurCnt) && calls == old(calls) && made == old(made)
      ensures Base() == old(Base()) && (old(Clean()) ==> Clean())
      ensures held == old(held)[recurCnt - 1 := {}]
      ensures freed == old(freed) + Occupied(old(rows)[recurCnt - 1])
    {
      var top := recurCnt - 1;
      ghost var row := rows[top];
      assert row == Wiped(row, 0);
      var i := 0;
      while i < MAX_OBJS
        invariant 0 <= i <= MAX_OBJS && Valid() && recurCnt == top + 1
        invariant calls == old(calls) && made == old(made) && Base() == old(Base()) && (old(Clean()) ==> Clean())
        invariant held == old(held)[top := held[top]]
        invariant rows[top] == Wiped(row, i)
        invariant freed == old(freed) + Occupied(row[..i])
      {
        assert row[..i + 1][..i] == row[..i];
        WipeNext(row, i);
        Associative(old(freed), Occupied(row[..i]), if row[i] == 0 then [] else [row[i]]);
        CollectSlot(i);
        i := i + 1;
      }
      WipedLevel(rows, held, top, row);
      assert row[..MAX_OBJS] == row;
    }

    /** A call that is abandoned: its objects are freed and the calls around it
        keep theirs.  The count is what it was before the call exactly when the
        refused requests of the call and the null addresses it has released
        balance, unless an earlier call had left objects in its level. */
    method AbandonCall(last: int) returns (ok: bool)
      requires Valid() && recurCnt > 0 && last == Base()
      modifies this, objs
      ensures Valid() && made == old(made)
      ensures var c := old(calls)[old(recurCnt) - 1];
              && (ok <==> c.owed == c.start)
              && (old(Clean()) ==> Clean() && (ok <==> c.owed == 0))
      ensures held == old(held)[old(recurCnt) - 1 := {}]
      ensures freed == old(freed) + Occupied(old(rows)[old(recurCnt) - 1])
      ensures ok ==> recurCnt == old(recurCnt) - 1 && calls == old(calls)[..recurCnt] && objcnt == last
    {
      Collect();
      ok := LeaveCall(last);
    }

    /** When no call is in progress the count is 0, and the objects freed are the
        objects made, each as often, exactly when no call has left one. */
    lemma NothingLeaks()
      requires Valid() && recurCnt == 0
      ensures objcnt == 0
      ensures multiset(made) == multiset(freed) <==> Clean()
    {
      AllFreedIff(made, freed, held);
    }
  }

  // ---- Runs that decide the assertion ------------------------------------------

  /** The first call begins. */
  method FirstCall() returns (t: ObjectTable, last: int)
    ensures fresh(t) && fresh(t.objs) && t.Valid() && t.Clean() && t.recurCnt == 1 && last == t.Base()
    ensures t.held[0] == {} && t.calls == [Frame(0, 0)] && 0 in t.rows[0]
    ensures forall l :: 0 <= l < |t.held| ==> t.held[l] == {}
  {
    t := new ObjectTable();
    var entered;
    entered, last := t.EnterCall();
    RoomInEmpty(t.rows, t.held, 0);
  }

  /** The first call, after one request: `x` is what malloc32 gave. */
  method OneRequest(x: nat) returns (t: ObjectTable, last: int)
    ensures fresh(t) && fresh(t.objs) && t.Valid() && t.Clean() && t.recurCnt == 1 && last == t.Base()
    ensures t.held[0] == (if x == 0 then {} else {x}) && t.calls == [Frame(0, if x == 0 then 1 else 0)]
    ensures 0 in t.rows[0] && x in t.rows[0]
  {
    t, last := FirstCall();
    var fault := t.ObjInit(x);
    if x == 0 {
      RoomInEmpty(t.rows, t.held, 0);
    } else {
      RoomBesideOne(t.rows, t.held, 0, x);
    }
  }

  /** A call makes one request, which is refused, and is abandoned: the count is
      what it was exactly when the null address had been released. */
  method AbandonedAfterRefusal(release: bool) returns (ok: bool)
    ensures ok <==> release
  {
    var t, last := OneRequest(0);
    if release {
      var fault := t.RmDosobj(0, true);
    }
    ok := t.AbandonCall(last);
  }

  /** A call makes an object, releases a null address instead of it and returns:
      the count is what it was although the object is still in the table. */
  method LeftBehind(x: nat) returns (ok: bool, left: bool)
    requires x != 0
    ensures ok && left
  {
    var t, last := OneRequest(x);
    var fault := t.RmDosobj(0, true);
    ok := t.LeaveCall(last);
    ghost var k :| 0 <= k < MAX_OBJS && t.rows[0][k] == x;
    assert t.objs[0, k] == x;
    left := exists i :: 0 <= i < MAX_OBJS && t.objs[0, i] == x;
  }
}
