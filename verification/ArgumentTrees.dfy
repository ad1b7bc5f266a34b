/**
  _nc_Make_Argument, _nc_Copy_Argument and _nc_Free_Argument over every type
  tree and every pattern of allocation failures.
 */
module ArgumentTrees {
  import opened Collections
  import opened FieldTypes

  datatype Built = Built(arg: Arg, mem: Mem, err: nat)

  /** `Fault` is a failed assert, or a user's argument read as a pair node. */
  datatype Copied = Fault | Copied(arg: Arg, mem: Mem, err: nat)

  /** The memory after the pair node of a linked type has been allocated. */
  function PairAllocated(m: Mem): Mem
  {
    m.(tick := m.tick + 1, pairs := m.pairs + {m.tick})
  }

  function Make(t: TypeTree, o: Oracle, m: Mem, err: nat): Built
  {
    if t.Absent? || !t.hasArgs then Built(Null, m, err)
    else if t.Linked? then
      if o(m.tick) == 0 then Built(Null, m.(tick := m.tick + 1), err + 1)
      else
        var l := Make(t.left, o, PairAllocated(m), err);
        var r := Make(t.right, o, l.mem, l.err);
        Built(Pair(m.tick, l.arg, r.arg), r.mem, r.err)
    else Call1(t, o, m, err)
  }

  /** One call of makearg (or copyarg) for the basic type `t`. */
  function Call1(t: TypeTree, o: Oracle, m: Mem, err: nat): Built
  {
    var v := o(m.tick);
    var a := if v == 0 then Null else User(v);
    Built(a, m.(tick := m.tick + 1, made := m.made + [Call(t, a)]), if v == 0 then err + 1 else err)
  }

  function Copy(t: TypeTree, a: Arg, o: Oracle, m: Mem, err: nat): Copied
    decreases a
  {
    if t.Absent? || !t.hasArgs then Copied(Null, m, err)
    else if a.Null? then Fault
    else if t.Linked? then
      if o(m.tick) == 0 then Copied(Null, m.(tick := m.tick + 1), err + 1)
      else if !a.Pair? then Fault
      else
        // The recursion keeps `t` itself, not its operands.
        var l := Copy(t, a.left, o, PairAllocated(m), err);
        if l.Fault? then Fault else
        var r := Copy(t, a.right, o, l.mem, l.err);
        if r.Fault? then Fault else
        Copied(Pair(m.tick, l.arg, r.arg), r.mem, r.err)
    else if t.hasCopy then
      var b := Call1(t, o, m, err);
      Copied(b.arg, b.mem, b.err)
    else Copied(a, m.(shared := m.shared + [Call(t, a)]), err)
  }

  /** `a` can be released as an argument of `t`: no pair node where a user's
      argument belongs and no user's argument where a pair node belongs. */
  predicate Fits(t: TypeTree, a: Arg)
  {
    match t
    case Absent => a.Null?
    case Basic(_, hasArgs, _, _) => a.Null? || (hasArgs && a.User?)
    case Linked(_, hasArgs, l, r) => a.Null? || (hasArgs && a.Pair? && Fits(l, a.left) && Fits(r, a.right))
  }

  function Free(t: TypeTree, a: Arg, m: Mem): Mem
    requires Fits(t, a)
  {
    if t.Absent? || !t.hasArgs then m
    else if t.Linked? then
      if a.Null? then m
      else
        var m1 := Free(t.left, a.left, m);
        var m2 := Free(t.right, a.right, m1);
        m2.(pairs := m2.pairs - {a.node}, released := m2.released + [a.node])
    else if t.hasFree then m.(freed := m.freed + [Call(t, a)])
    else m.(dropped := m.dropped + [Call(t, a)])
  }

  // ---- The vocabulary of the theorems -------------------------------------

  function Nodes(a: Arg): set<nat>
  {
    if a.Pair? then Nodes(a.left) + Nodes(a.right) + {a.node} else {}
  }

  /** The pair nodes of `a` in the order in which they are released. */
  function PostOrder(a: Arg): seq<nat>
  {
    if a.Pair? then PostOrder(a.left) + PostOrder(a.right) + [a.node] else []
  }

  /** No pair node occurs twice in `a`. */
  predicate Distinct(a: Arg)
  {
    a.Pair? ==>
      && Distinct(a.left) && Distinct(a.right)
      && Nodes(a.left) !! Nodes(a.right)
      && a.node !in Nodes(a.left) + Nodes(a.right)
  }

  /** The freearg calls that must answer a run of makearg calls. */
  function ToFree(calls: seq<Call>): seq<Call>
  {
    if calls == [] then []
    else ToFree(calls[..|calls|-1]) + ToFree1(calls[|calls|-1])
  }

  function ToFree1(c: Call): seq<Call>
  {
    if c.leaf.Basic? && c.leaf.hasFree then [c] else []
  }

  /** The number of requests in [lo, hi) that failed. */
  function Failures(o: Oracle, lo: nat, hi: nat): nat
    requires lo <= hi
    decreases hi - lo
  {
    if lo == hi then 0 else Failures(o, lo, hi - 1) + (if o(hi - 1) == 0 then 1 else 0)
  }

  /** The argument is complete: a user's argument at each argument-taking basic
      type, a pair node at each linked type with arguments. */
  predicate Mirrors(t: TypeTree, a: Arg)
  {
    if t.Absent? || !t.hasArgs then a.Null?
    else if t.Linked? then a.Pair? && Mirrors(t.left, a.left) && Mirrors(t.right, a.right)
    else a.User?
  }

  /** Every linked type carries the flag exactly when one of its operands does. */
  predicate FlagsOk(t: TypeTree)
  {
    t.Linked? ==>
      && FlagsOk(t.left) && FlagsOk(t.right)
      && (t.hasArgs <==> TakesArgs(t.left) || TakesArgs(t.right))
  }

  predicate TakesArgs(t: TypeTree)
  {
    !t.Absent? && t.hasArgs
  }

  /** The argument-taking basic types beneath `t`, from left to right. */
  function ArgLeaves(t: TypeTree): seq<TypeTree>
  {
    match t
    case Absent => []
    case Basic(_, hasArgs, _, _) => if hasArgs then [t] else []
    case Linked(_, _, l, r) => ArgLeaves(l) + ArgLeaves(r)
  }

  function LeavesOf(calls: seq<Call>): seq<TypeTree>
  {
    seq(|calls|, i requires 0 <= i < |calls| => calls[i].leaf)
  }

  function NullCalls(calls: seq<Call>): nat
  {
    if calls == [] then 0
    else NullCalls(calls[..|calls|-1]) + (if calls[|calls|-1].arg.Null? then 1 else 0)
  }

  // ---- Sequence facts ------------------------------------------------------

  lemma ToFreeAppend(a: seq<Call>, c: Call)
    ensures ToFree(a + [c]) == ToFree(a) + ToFree1(c)
  {
    assert (a + [c])[..|a|] == a;
  }

  lemma {:induction false} ToFreeConcat(a: seq<Call>, b: seq<Call>)
    ensures ToFree(a + b) == ToFree(a) + ToFree(b)
  {
    if b == [] {
      assert a + b == a;
    } else {
      var b', c := b[..|b|-1], b[|b|-1];
      assert b == b' + [c];
      ToFreeConcat(a, b');
      Associative(a, b', [c]);
      ToFreeAppend(a + b', c);
      ToFreeAppend(b', c);
      Associative(ToFree(a), ToFree(b'), ToFree1(c));
    }
  }

  lemma {:induction false} NullCallsConcat(a: seq<Call>, b: seq<Call>)
    ensures NullCalls(a + b) == NullCalls(a) + NullCalls(b)
  {
    if b == [] {
      assert a + b == a;
    } else {
      NullCallsConcat(a, b[..|b|-1]);
      assert (a + b)[..|a + b|-1] == a + b[..|b|-1];
    }
  }

  lemma {:induction false} FailuresSplit(o: Oracle, lo: nat, mid: nat, hi: nat)
    requires lo <= mid <= hi
    ensures Failures(o, lo, hi) == Failures(o, lo, mid) + Failures(o, mid, hi)
    decreases hi - mid
  {
    if mid < hi {
      FailuresSplit(o, lo, mid, hi - 1);
    }
  }

  lemma FailuresOne(o: Oracle, k: nat)
    ensures Failures(o, k, k) == 0
    ensures Failures(o, k, k + 1) == if o(k) == 0 then 1 else 0
  {
    assert Failures(o, k, k + 1 - 1) == 0;
  }

  lemma {:induction false} PostOrderIsNodes(a: Arg)
    requires Distinct(a)
    ensures NoDup(PostOrder(a))
    ensures forall k :: k in PostOrder(a) <==> k in Nodes(a)
  {
    if a.Pair? {
      PostOrderIsNodes(a.left);
      PostOrderIsNodes(a.right);
      NoDupConcat(PostOrder(a.left), PostOrder(a.right));
      NoDupConcat(PostOrder(a.left) + PostOrder(a.right), [a.node]);
    }
  }

  // ---- Make ----------------------------------------------------------------

  /** The calls `Make` adds to the log. */
  function NewCalls(before: Mem, after: Mem): seq<Call>
    requires before.made <= after.made
  {
    after.made[|before.made|..]
  }

  lemma {:induction false} MakeFacts(t: TypeTree, o: Oracle, m: Mem, err: nat)
    requires MemOk(m)
    ensures var b := Make(t, o, m, err);
            && MemOk(b.mem) && m.tick <= b.mem.tick
            && b.mem == m.(tick := b.mem.tick, pairs := b.mem.pairs, made := b.mem.made) && m.made <= b.mem.made
            && b.mem.pairs == m.pairs + Nodes(b.arg)
            && (forall k :: k in Nodes(b.arg) ==> m.tick <= k < b.mem.tick)
            && Distinct(b.arg) && Fits(t, b.arg)
  {
    if t.Linked? && t.hasArgs && o(m.tick) != 0 {
      var l := Make(t.left, o, PairAllocated(m), err);
      MakeFacts(t.left, o, PairAllocated(m), err);
      MakeFacts(t.right, o, l.mem, l.err);
    }
  }

  /** `*err` rises by exactly the number of failed requests. */
  lemma {:induction false} MakeCountsFailures(t: TypeTree, o: Oracle, m: Mem, err: nat, b: Built)
    requires b == Make(t, o, m, err)
    ensures m.tick <= b.mem.tick
    ensures b.err == err + Failures(o, m.tick, b.mem.tick)
  {
    if t.Linked? && t.hasArgs && o(m.tick) != 0 {
      var l := Make(t.left, o, PairAllocated(m), err);
      MakeCountsFailures(t.left, o, PairAllocated(m), err, l);
      MakeCountsFailures(t.right, o, l.mem, l.err, Make(t.right, o, l.mem, l.err));
      FailuresThree(o, m.tick, l.mem.tick, b.mem.tick);
    } else {
      FailuresOne(o, m.tick);
    }
  }

  lemma FailuresThree(o: Oracle, lo: nat, mid: nat, hi: nat)
    requires lo < mid <= hi && o(lo) != 0
    ensures Failures(o, lo, hi) == Failures(o, lo + 1, mid) + Failures(o, mid, hi)
  {
    FailuresSplit(o, lo, lo + 1, hi);
    FailuresSplit(o, lo + 1, mid, hi);
    FailuresOne(o, lo);
  }

  /** `*err` stays put exactly when the argument mirrors the type. */
  lemma {:induction false} MakeMirrors(t: TypeTree, o: Oracle, m: Mem, err: nat)
    ensures var b := Make(t, o, m, err);
            && b.err >= err
            && (b.err == err <==> Mirrors(t, b.arg))
  {
    if t.Linked? && t.hasArgs && o(m.tick) != 0 {
      var l := Make(t.left, o, PairAllocated(m), err);
      MakeMirrors(t.left, o, PairAllocated(m), err);
      MakeMirrors(t.right, o, l.mem, l.err);
    }
  }

  /** The number of requests for a complete argument of `t`. */
  function Asks(t: TypeTree): nat
  {
    if !TakesArgs(t) then 0 else if t.Linked? then 1 + Asks(t.left) + Asks(t.right) else 1
  }

  /** `a` is made of the answers to the requests from the `n`-th on: first the
      pair node, then the left operand, then the right one. */
  predicate Answers(t: TypeTree, a: Arg, o: Oracle, n: nat)
  {
    if !TakesArgs(t) then a == Null
    else if t.Linked? then
      && a.Pair? && a.node == n
      && Answers(t.left, a.left, o, n + 1) && Answers(t.right, a.right, o, n + 1 + Asks(t.left))
    else a == User(o(n))
  }

  /** If nothing fails, the argument is made of the answers to the requests. */
  lemma {:induction false} MakeAnswers(t: TypeTree, o: Oracle, m: Mem, err: nat)
    ensures var b := Make(t, o, m, err);
            b.err == err ==> b.mem.tick == m.tick + Asks(t) && Answers(t, b.arg, o, m.tick)
  {
    MakeMirrors(t, o, m, err);
    if t.Linked? && t.hasArgs && o(m.tick) != 0 {
      var l := Make(t.left, o, PairAllocated(m), err);
      MakeMirrors(t.left, o, PairAllocated(m), err);
      MakeMirrors(t.right, o, l.mem, l.err);
      MakeAnswers(t.left, o, PairAllocated(m), err);
      MakeAnswers(t.right, o, l.mem, l.err);
    }
  }

  /** Where a linked type carries the argument flag exactly when an operand
      does, the flag says whether any basic type beneath takes arguments. */
  lemma {:induction false} FlagMeansLeaf(t: TypeTree)
    requires FlagsOk(t)
    ensures TakesArgs(t) <==> ArgLeaves(t) != []
  {
    if t.Linked? {
      FlagMeansLeaf(t.left);
      FlagMeansLeaf(t.right);
    }
  }

  /** The calls for a linked type are those for its left operand, then those for
      its right operand. */
  lemma MakeSplitsCalls(t: TypeTree, o: Oracle, m: Mem, err: nat)
    returns (l: Built, r: Built, lc: seq<Call>, rc: seq<Call>)
    requires MemOk(m) && t.Linked? && t.hasArgs && o(m.tick) != 0
    ensures MemOk(PairAllocated(m))
    ensures l == Make(t.left, o, PairAllocated(m), err) && MemOk(l.mem)
    ensures r == Make(t.right, o, l.mem, l.err)
    ensures Make(t, o, m, err) == Built(Pair(m.tick, l.arg, r.arg), r.mem, r.err)
    ensures m.made <= l.mem.made <= r.mem.made
    ensures lc == NewCalls(PairAllocated(m), l.mem) && rc == NewCalls(l.mem, r.mem)
    ensures NewCalls(m, r.mem) == lc + rc
    ensures Fits(t.left, l.arg) && Fits(t.right, r.arg)
  {
    l := Make(t.left, o, PairAllocated(m), err);
    MakeFacts(t.left, o, PairAllocated(m), err);
    r := Make(t.right, o, l.mem, l.err);
    MakeFacts(t.right, o, l.mem, l.err);
    lc, rc := NewCalls(PairAllocated(m), l.mem), NewCalls(l.mem, r.mem);
    Suffixes(m.made, l.mem.made, r.mem.made);
  }

  /** The number of pair allocations that fail while Make runs. */
  function PairFailures(t: TypeTree, o: Oracle, m: Mem): nat
  {
    if !t.Linked? || !t.hasArgs then 0
    else if o(m.tick) == 0 then 1
    else
      PairFailures(t.left, o, PairAllocated(m)) +
      PairFailures(t.right, o, Make(t.left, o, PairAllocated(m), 0).mem)
  }

  /** The errors counted so far do not steer Make. */
  lemma {:induction false} MakeAnyErr(t: TypeTree, o: Oracle, m: Mem, err: nat)
    ensures Make(t, o, m, err) == Make(t, o, m, 0).(err := Make(t, o, m, 0).err + err)
  {
    if t.Linked? && t.hasArgs && o(m.tick) != 0 {
      var l := Make(t.left, o, PairAllocated(m), 0);
      MakeAnyErr(t.left, o, PairAllocated(m), err);
      MakeAnyErr(t.right, o, l.mem, l.err);
      MakeAnyErr(t.right, o, l.mem, l.err + err);
    }
  }

  /** `*err` counts the makearg calls that returned NULL and the pair allocations
      that failed. */
  lemma {:induction false} ErrorsAreTwoKinds(t: TypeTree, o: Oracle, m: Mem, err: nat, b: Built)
    requires MemOk(m) && b == Make(t, o, m, err)
    ensures m.made <= b.mem.made
    ensures b.err == err + NullCalls(NewCalls(m, b.mem)) + PairFailures(t, o, m)
  {
    if t.Linked? && t.hasArgs && o(m.tick) != 0 {
      var l, r, lc, rc := MakeSplitsCalls(t, o, m, err);
      ErrorsAreTwoKinds(t.left, o, PairAllocated(m), err, l);
      ErrorsAreTwoKinds(t.right, o, l.mem, l.err, r);
      MakeAnyErr(t.left, o, PairAllocated(m), err);
      NullCallsConcat(lc, rc);
    } else {
      var calls := NewCalls(m, b.mem);
      if t.Basic? && t.hasArgs {
        assert calls == [Call(t, b.arg)] && calls[..0] == [];
      } else {
        assert calls == [];
      }
    }
  }

  /** What the calls in `calls` and `fails` pair failures say about the leaves. */
  predicate LeavesAccounted(t: TypeTree, calls: seq<Call>, fails: nat)
  {
    && |calls| <= |ArgLeaves(t)|
    && (fails > 0 ==> |calls| < |ArgLeaves(t)|)
    && (fails == 0 ==> LeavesOf(calls) == ArgLeaves(t))
  }

  lemma AccountsAdd(t: TypeTree, lc: seq<Call>, rc: seq<Call>, lf: nat, rf: nat)
    requires t.Linked?
    requires LeavesAccounted(t.left, lc, lf) && LeavesAccounted(t.right, rc, rf)
    ensures LeavesAccounted(t, lc + rc, lf + rf)
  {
    assert LeavesOf(lc + rc) == LeavesOf(lc) + LeavesOf(rc);
  }

  lemma {:induction false} LeavesCounted(t: TypeTree, o: Oracle, m: Mem, err: nat, b: Built)
    requires MemOk(m) && FlagsOk(t) && b == Make(t, o, m, err)
    ensures m.made <= b.mem.made
    ensures LeavesAccounted(t, NewCalls(m, b.mem), PairFailures(t, o, m))
  {
    if t.Linked? && t.hasArgs && o(m.tick) != 0 {
      var l, r, lc, rc := MakeSplitsCalls(t, o, m, err);
      LeavesCounted(t.left, o, PairAllocated(m), err, l);
      LeavesCounted(t.right, o, l.mem, l.err, r);
      MakeAnyErr(t.left, o, PairAllocated(m), err);
      AccountsAdd(t, lc, rc, PairFailures(t.left, o, PairAllocated(m)), PairFailures(t.right, o, l.mem));
    } else {
      FlagMeansLeaf(t);
      var calls := NewCalls(m, b.mem);
      if t.Basic? && t.hasArgs {
        assert calls == [Call(t, b.arg)];
        assert LeavesOf(calls) == [t];
      } else {
        assert calls == [];
      }
    }
  }

  /** makearg runs once for each argument-taking basic type, from left to right,
      exactly when no pair allocation fails. */
  lemma MakeVisitsLeaves(t: TypeTree, o: Oracle, m: Mem, err: nat)
    requires MemOk(m) && FlagsOk(t)
    ensures var b := Make(t, o, m, err);
            && m.made <= b.mem.made
            && (LeavesOf(NewCalls(m, b.mem)) == ArgLeaves(t) <==> PairFailures(t, o, m) == 0)
  {
    var b := Make(t, o, m, err);
    LeavesCounted(t, o, m, err, b);
    assert |LeavesOf(NewCalls(m, b.mem))| == |NewCalls(m, b.mem)|;
  }

  // ---- Free ----------------------------------------------------------------

  /** The freearg calls that releasing `a` makes. */
  function FreeCalls(t: TypeTree, a: Arg): seq<Call>
    requires Fits(t, a)
  {
    if t.Absent? || !t.hasArgs then []
    else if t.Linked? then
      if a.Null? then [] else FreeCalls(t.left, a.left) + FreeCalls(t.right, a.right)
    else if t.hasFree then [Call(t, a)] else []
  }

  /** The arguments that it releases under types without a freearg. */
  function DropCalls(t: TypeTree, a: Arg): seq<Call>
    requires Fits(t, a)
  {
    if t.Absent? || !t.hasArgs then []
    else if t.Linked? then
      if a.Null? then [] else DropCalls(t.left, a.left) + DropCalls(t.right, a.right)
    else if t.hasFree then [] else [Call(t, a)]
  }

  lemma FreeEffect(t: TypeTree, a: Arg, m: Mem)
    requires Fits(t, a)
    ensures Free(t, a, m) == m.(pairs := m.pairs - Nodes(a),
                                freed := m.freed + FreeCalls(t, a),
                                dropped := m.dropped + DropCalls(t, a),
                                released := m.released + PostOrder(a))
  {
    FreeParts(t, a, m, Free(t, a, m));
  }

  lemma {:induction false} FreeParts(t: TypeTree, a: Arg, m: Mem, f: Mem)
    requires Fits(t, a) && f == Free(t, a, m)
    ensures f.tick == m.tick && f.made == m.made && f.shared == m.shared
    ensures f.pairs == m.pairs - Nodes(a)
    ensures f.freed == m.freed + FreeCalls(t, a) && f.dropped == m.dropped + DropCalls(t, a)
    ensures f.released == m.released + PostOrder(a)
  {
    if t.Linked? && t.hasArgs && a.Pair? {
      var m1 := Free(t.left, a.left, m);
      FreeParts(t.left, a.left, m, m1);
      FreeParts(t.right, a.right, m1, Free(t.right, a.right, m1));
      Associative(m.freed, FreeCalls(t.left, a.left), FreeCalls(t.right, a.right));
      Associative(m.dropped, DropCalls(t.left, a.left), DropCalls(t.right, a.right));
      Associative(m.released, PostOrder(a.left), PostOrder(a.right));
      Associative(m.released, PostOrder(a.left) + PostOrder(a.right), [a.node]);
    }
  }

  /** Every makearg result reached by Make is what Free passes to freearg. */
  lemma {:induction false} FreeAnswersMake(t: TypeTree, o: Oracle, m: Mem, err: nat)
    requires MemOk(m)
    ensures var b := Make(t, o, m, err);
            && m.made <= b.mem.made && Fits(t, b.arg)
            && FreeCalls(t, b.arg) == ToFree(NewCalls(m, b.mem))
  {
    if t.Linked? && t.hasArgs && o(m.tick) != 0 {
      var l, r, lc, rc := MakeSplitsCalls(t, o, m, err);
      FreeAnswersMake(t.left, o, PairAllocated(m), err);
      FreeAnswersMake(t.right, o, l.mem, l.err);
      ToFreeConcat(lc, rc);
    } else {
      var b := Make(t, o, m, err);
      var calls := NewCalls(m, b.mem);
      if t.Basic? && t.hasArgs {
        assert calls == [Call(t, b.arg)] && calls[..0] == [];
      } else {
        assert calls == [];
      }
    }
  }

  /** Free after Make: exactly the pair nodes that Make allocated are released,
      each once; each makearg result goes to its own type's freearg, if it has
      one, once and in order; and the live nodes are those from before. */
  lemma FreeUndoesMake(t: TypeTree, o: Oracle, m: Mem, err: nat)
    requires MemOk(m)
    ensures var b := Make(t, o, m, err);
            && Fits(t, b.arg) && m.made <= b.mem.made
            && var f := Free(t, b.arg, b.mem);
            && f.pairs == m.pairs
            && f.freed == m.freed + ToFree(NewCalls(m, b.mem))
            && f.released == m.released + PostOrder(b.arg)
            && NoDup(PostOrder(b.arg))
            && (forall k :: k in PostOrder(b.arg) <==> k in b.mem.pairs - m.pairs)
  {
    var b := Make(t, o, m, err);
    MakeFacts(t, o, m, err);
    FreeAnswersMake(t, o, m, err);
    FreeEffect(t, b.arg, b.mem);
    PostOrderIsNodes(b.arg);
  }

  // ---- Copy ----------------------------------------------------------------

  /** Copying the argument of a linked type with arguments never succeeds:
      it faults, or `*err` rises. */
  lemma {:induction false} CopyLinkedNeverSucceeds(t: TypeTree, a: Arg, o: Oracle, m: Mem, err: nat)
    requires t.Linked? && t.hasArgs
    ensures var c := Copy(t, a, o, m, err); c.Fault? || c.err > err
  {
    if a.Pair? && o(m.tick) != 0 {
      CopyLinkedNeverSucceeds(t, a.left, o, PairAllocated(m), err);
      var l := Copy(t, a.left, o, PairAllocated(m), err);
      if !l.Fault? {
        CopyLinkedNeverSucceeds(t, a.right, o, l.mem, l.err);
      }
    }
  }

  /** With memory to spare, it always faults. */
  lemma {:induction false} CopyLinkedFaults(t: TypeTree, a: Arg, o: Oracle, m: Mem, err: nat)
    requires t.Linked? && t.hasArgs
    requires forall k :: k >= m.tick ==> o(k) != 0
    ensures Copy(t, a, o, m, err).Fault?
  {
    if a.Pair? {
      CopyLinkedFaults(t, a.left, o, PairAllocated(m), err);
    }
  }

  /** Exactly when a copy succeeds. */
  lemma CopySucceedsIff(t: TypeTree, a: Arg, o: Oracle, m: Mem, err: nat)
    ensures var c := Copy(t, a, o, m, err);
            (!c.Fault? && c.err == err) <==>
            (!TakesArgs(t) || (t.Basic? && !a.Null? && (t.hasCopy ==> o(m.tick) != 0)))
  {
    if t.Linked? && t.hasArgs {
      CopyLinkedNeverSucceeds(t, a, o, m, err);
    }
  }

  /** A successful copy of a fitting argument holds no pair node and mirrors the type. */
  lemma CopySuccess(t: TypeTree, a: Arg, o: Oracle, m: Mem, err: nat)
    requires MemOk(m) && Fits(t, a)
    ensures var c := Copy(t, a, o, m, err);
            !c.Fault? && c.err == err ==>
              && MemOk(c.mem) && c.mem.pairs == m.pairs && c.mem.released == m.released
              && !c.arg.Pair? && Fits(t, c.arg) && Mirrors(t, c.arg)
  {
    CopySucceedsIff(t, a, o, m, err);
  }

  /** A failed copy of an argument that fits `s`, made under the type `t`. */
  lemma {:induction false} CopyFails(t: TypeTree, s: TypeTree, a: Arg, o: Oracle, m: Mem, err: nat)
    requires t.Linked? && t.hasArgs && Fits(s, a) && MemOk(m)
    ensures var c := Copy(t, a, o, m, err);
            !c.Fault? ==>
              && MemOk(c.mem) && m.tick <= c.mem.tick
              && Fits(s, c.arg) && Distinct(c.arg)
              && c.mem.pairs == m.pairs + Nodes(c.arg)
              && (forall k :: k in Nodes(c.arg) ==> m.tick <= k < c.mem.tick)
              && c.mem == m.(tick := c.mem.tick, pairs := c.mem.pairs)
  {
    if a.Pair? && o(m.tick) != 0 {
      CopyFails(t, s.left, a.left, o, PairAllocated(m), err);
      var l := Copy(t, a.left, o, PairAllocated(m), err);
      if !l.Fault? {
        CopyFails(t, s.right, a.right, o, l.mem, l.err);
      }
    }
  }

  /** A copy that fails without a fault can be released as it stands, and
      releasing it returns every pair node it allocated exactly once. */
  lemma FreeUndoesFailedCopy(t: TypeTree, a: Arg, o: Oracle, m: Mem, err: nat)
    requires MemOk(m) && Fits(t, a)
    ensures var c := Copy(t, a, o, m, err);
            !c.Fault? && c.err > err ==>
              && Fits(t, c.arg) && MemOk(c.mem)
              && var f := Free(t, c.arg, c.mem);
              && f.pairs == m.pairs && f.tick == c.mem.tick && MemOk(f)
              && f.released == m.released + PostOrder(c.arg)
              && NoDup(PostOrder(c.arg))
              && (forall k :: k in PostOrder(c.arg) <==> k in c.mem.pairs - m.pairs)
  {
    var c := Copy(t, a, o, m, err);
    if !c.Fault? && c.err > err {
      if t.Linked? {
        CopyFails(t, t, a, o, m, err);
      }
      FreeEffect(t, c.arg, c.mem);
      PostOrderIsNodes(c.arg);
    }
  }
}
