/**
  What becomes of the arguments that users make.  Over every run, each argument
  that makearg or copyarg returned or that a copy handed on has been passed to
  freearg, has been released under a type that had no freearg, or is held by a
  live field.  Nothing is assumed of when types get their functions.
 */
module FormArguments {
  import opened Collections
  import opened FieldTypes
  import opened ArgumentTrees
  import opened FormStore
  import opened FormInvariant
  import opened FormRoutines
  import opened FormRuns

  /** The argument at address `p`, made for the basic type `typ`. */
  datatype UserArg = UserArg(typ: FieldType, p: nat)

  // ---- How often an argument is in a log ---------------------------------------

  /** The functions that the type had at the time of the call do not matter. */
  predicate Is(c: Call, x: UserArg)
  {
    c.leaf.Basic? && c.leaf.typ == x.typ && c.arg == User(x.p)
  }

  function Times(calls: seq<Call>, x: UserArg): nat
  {
    if calls == [] then 0 else Times(calls[..|calls| - 1], x) + (if Is(calls[|calls| - 1], x) then 1 else 0)
  }

  lemma TimesAppend(calls: seq<Call>, c: Call, x: UserArg)
    ensures Times(calls + [c], x) == Times(calls, x) + (if Is(c, x) then 1 else 0)
  {
    assert (calls + [c])[..|calls|] == calls;
  }

  function Made(s: Store, x: UserArg): nat
  {
    Times(s.mem.made, x)
  }

  /** How often it was handed on uncopied. */
  function Shared(s: Store, x: UserArg): nat
  {
    Times(s.mem.shared, x)
  }

  function Freed(s: Store, x: UserArg): nat
  {
    Times(s.mem.freed, x)
  }

  /** How often it was released under a type without a freearg. */
  function Dropped(s: Store, x: UserArg): nat
  {
    Times(s.mem.dropped, x)
  }

  // ---- How often the live fields hold an argument --------------------------------

  /** How often `x` is in the argument `a` of the type `t`. */
  function Holds(t: TypeTree, a: Arg, x: UserArg): nat
  {
    match t
    case Absent => 0
    case Basic(typ, _, _, _) => if typ == x.typ && a == User(x.p) then 1 else 0
    case Linked(_, _, l, r) => if a.Pair? then Holds(l, a.left, x) + Holds(r, a.right, x) else 0
  }

  ghost function HeldBy(types: Types, t: FieldType?, a: Arg, x: UserArg): nat
    requires TypesOk(types)
  {
    if LiveType(types, t) then Holds(Tree(types, t), a, x) else 0
  }

  ghost function HeldIn(s: Store, f: Field, x: UserArg): nat
    requires TypesOk(s.types)
  {
    if f in s.fields then HeldBy(s.types, s.fields[f].typ, s.fields[f].arg, x) else 0
  }

  ghost function Pick(dom: set<Field>): (f: Field)
    requires dom != {}
    ensures f in dom
  {
    var f :| f in dom; f
  }

  ghost function Sum(s: Store, dom: set<Field>, x: UserArg): nat
    requires TypesOk(s.types)
    decreases |dom|
  {
    if dom == {} then 0 else HeldIn(s, Pick(dom), x) + Sum(s, dom - {Pick(dom)}, x)
  }

  ghost function Held(s: Store, x: UserArg): nat
    requires TypesOk(s.types)
  {
    Sum(s, s.fields.Keys, x)
  }

  lemma {:induction false} SumSplit(s: Store, dom: set<Field>, f: Field, x: UserArg)
    requires TypesOk(s.types) && f in dom
    ensures Sum(s, dom, x) == HeldIn(s, f, x) + Sum(s, dom - {f}, x)
    decreases |dom|
  {
    var g := Pick(dom);
    if g != f {
      SumSplit(s, dom - {g}, f, x);
      SumSplit(s, dom - {f}, g, x);
      assert dom - {g} - {f} == dom - {f} - {g};
    }
  }

  lemma {:induction false} SumFrame(s: Store, s': Store, dom: set<Field>, x: UserArg)
    requires TypesOk(s.types) && TypesOk(s'.types)
    requires forall f :: f in dom ==> HeldIn(s', f, x) == HeldIn(s, f, x)
    ensures Sum(s', dom, x) == Sum(s, dom, x)
    decreases |dom|
  {
    if dom != {} {
      SumFrame(s, s', dom - {Pick(dom)}, x);
    }
  }

  lemma SumWithout(s: Store, f: Field, x: UserArg)
    requires TypesOk(s.types)
    ensures Held(s, x) == HeldIn(s, f, x) + Sum(s, s.fields.Keys - {f}, x)
  {
    if f in s.fields {
      SumSplit(s, s.fields.Keys, f, x);
    } else {
      assert s.fields.Keys - {f} == s.fields.Keys;
    }
  }

  /** Only `f` comes, goes or changes. */
  lemma HeldUpdate(s: Store, s': Store, f: Field, x: UserArg)
    requires TypesOk(s.types) && TypesOk(s'.types)
    requires s'.fields.Keys - {f} == s.fields.Keys - {f}
    requires forall g :: g in s.fields && g != f ==> HeldIn(s', g, x) == HeldIn(s, g, x)
    ensures Held(s', x) == Held(s, x) - HeldIn(s, f, x) + HeldIn(s', f, x)
  {
    SumWithout(s, f, x);
    SumWithout(s', f, x);
    SumFrame(s, s', s.fields.Keys - {f}, x);
  }

  // ---- The account -------------------------------------------------------------

  /** Made and handed on, less freed, dropped and held. */
  ghost function Balance(s: Store, x: UserArg): int
    requires TypesOk(s.types)
  {
    Made(s, x) + Shared(s, x) - Freed(s, x) - Dropped(s, x) - Held(s, x)
  }

  /** A release of `x` drops it: its type takes arguments and has no freearg. */
  predicate Drops(types: Types, x: UserArg)
  {
    x.typ in types && types[x.typ].hasArgs && !types[x.typ].freearg
  }

  /** The logs grow by what leaves or joins the fields, and what is released is
      freed or dropped as the functions of its type say. */
  ghost predicate Accounts(s: Store, s': Store, x: UserArg)
    requires TypesOk(s.types) && TypesOk(s'.types)
  {
    && Balance(s', x) == Balance(s, x)
    && Made(s, x) <= Made(s', x) && Shared(s, x) <= Shared(s', x)
    && Freed(s, x) <= Freed(s', x) && Dropped(s, x) <= Dropped(s', x)
    && (if Drops(s.types, x) then Freed(s', x) == Freed(s, x) else Dropped(s', x) == Dropped(s, x))
  }

  /** The same for a change that leaves the functions of all types alone. */
  ghost predicate Settles(s: Store, s': Store, x: UserArg)
    requires TypesOk(s.types)
  {
    TypesOk(s'.types) && Accounts(s, s', x) && (Drops(s'.types, x) <==> Drops(s.types, x))
  }

  predicate SameLogs(m: Mem, m': Mem)
  {
    m'.made == m.made && m'.shared == m.shared && m'.freed == m.freed && m'.dropped == m.dropped
  }

  /** Nothing that matters here changes. */
  lemma SameAccount(s: Store, s': Store, x: UserArg)
    requires TypesOk(s.types) && TypesOk(s'.types) && s'.fields.Keys == s.fields.Keys && SameLogs(s.mem, s'.mem)
    requires forall f :: f in s.fields ==> HeldIn(s', f, x) == HeldIn(s, f, x)
    ensures Accounts(s, s', x)
  {
    SumFrame(s, s', s.fields.Keys, x);
  }

  lemma HeldSame(s: Store, m: Mem, x: UserArg)
    requires TypesOk(s.types)
    ensures Held(s.(mem := m), x) == Held(s, x)
  {
    SumFrame(s, s.(mem := m), s.fields.Keys, x);
  }

  /** A field without a type comes or goes. */
  lemma IdleField(s: Store, s': Store, f: Field, x: UserArg)
    requires TypesOk(s.types) && s'.types == s.types && s'.mem == s.mem
    requires s'.fields.Keys - {f} == s.fields.Keys - {f}
    requires forall g :: g in s.fields && g != f ==>
               g in s'.fields && s'.fields[g].typ == s.fields[g].typ && s'.fields[g].arg == s.fields[g].arg
    requires f in s.fields ==> s.fields[f].typ == null
    requires f in s'.fields ==> s'.fields[f].typ == null
    ensures Settles(s, s', x)
  {
    HeldUpdate(s, s', f, x);
  }

  // ---- Arguments ---------------------------------------------------------------

  /** Every leaf of the type of `x` that takes arguments has a freearg, or none has. */
  predicate LeavesAgree(t: TypeTree, x: UserArg, free: bool)
  {
    match t
    case Absent => true
    case Basic(typ, hasArgs, _, hasFree) => typ == x.typ && hasArgs ==> hasFree == free
    case Linked(_, _, l, r) => LeavesAgree(l, x, free) && LeavesAgree(r, x, free)
  }

  lemma {:induction false} TreeAgrees(types: Types, t: FieldType?, x: UserArg)
    requires TypesOk(types) && LiveType(types, t)
    ensures LeavesAgree(Tree(types, t), x, !Drops(types, x))
    decreases if t == null then 0 else t.birth + 1
  {
    if t != null {
      assert TypeOk(types, t);
      if types[t].linked {
        TreeAgrees(types, types[t].left, x);
        TreeAgrees(types, types[t].right, x);
      }
    }
  }

  /** Free passes on what the argument holds. */
  lemma {:induction false} FreeTimes(t: TypeTree, a: Arg, m: Mem, x: UserArg, free: bool, f: Mem)
    requires Fits(t, a) && LeavesAgree(t, x, free) && f == Free(t, a, m)
    ensures f.made == m.made && f.shared == m.shared
    ensures Times(f.freed, x) == Times(m.freed, x) + (if free then Holds(t, a, x) else 0)
    ensures Times(f.dropped, x) == Times(m.dropped, x) + (if free then 0 else Holds(t, a, x))
  {
    if t.Linked? && t.hasArgs && a.Pair? {
      var m1 := Free(t.left, a.left, m);
      FreeTimes(t.left, a.left, m, x, free, m1);
      FreeTimes(t.right, a.right, m1, x, free, Free(t.right, a.right, m1));
    } else if t.Basic? && t.hasArgs {
      TimesAppend(m.freed, Call(t, a), x);
      TimesAppend(m.dropped, Call(t, a), x);
    }
  }

  /** What Make makes is what the argument holds. */
  lemma {:induction false} MakeTimes(t: TypeTree, o: Oracle, m: Mem, err: nat, x: UserArg, b: Built)
    requires b == Make(t, o, m, err)
    ensures Times(b.mem.made, x) == Times(m.made, x) + Holds(t, b.arg, x)
    ensures b.mem.shared == m.shared && b.mem.freed == m.freed && b.mem.dropped == m.dropped
  {
    if t.Linked? && t.hasArgs && o(m.tick) != 0 {
      var l := Make(t.left, o, PairAllocated(m), err);
      MakeTimes(t.left, o, PairAllocated(m), err, x, l);
      MakeTimes(t.right, o, l.mem, l.err, x, Make(t.right, o, l.mem, l.err));
    } else if t.Basic? && t.hasArgs {
      TimesAppend(m.made, Call(t, b.arg), x);
    }
  }

  predicate NoUsers(a: Arg)
  {
    !a.User? && (a.Pair? ==> NoUsers(a.left) && NoUsers(a.right))
  }

  lemma {:induction false} NoUsersHeld(t: TypeTree, a: Arg, x: UserArg)
    requires NoUsers(a)
    ensures Holds(t, a, x) == 0
  {
    if t.Linked? && a.Pair? {
      NoUsersHeld(t.left, a.left, x);
      NoUsersHeld(t.right, a.right, x);
    }
  }

  lemma {:induction false} LinkedCopyNoUsers(t: TypeTree, a: Arg, o: Oracle, m: Mem, err: nat)
    requires t.Linked? && t.hasArgs
    ensures var k := Copy(t, a, o, m, err);
            !k.Fault? ==> NoUsers(k.arg)
  {
    if a.Pair? && o(m.tick) != 0 {
      LinkedCopyNoUsers(t, a.left, o, PairAllocated(m), err);
      var l := Copy(t, a.left, o, PairAllocated(m), err);
      if !l.Fault? {
        LinkedCopyNoUsers(t, a.right, o, l.mem, l.err);
      }
    }
  }

  /** A copy under `t` hands the argument itself on. */
  predicate HandsOn(t: TypeTree)
  {
    t.Basic? && t.hasArgs && !t.hasCopy
  }

  /** The three ways in which a copy succeeds. */
  lemma CopyForms(t: TypeTree, a: Arg, o: Oracle, m: Mem, k: Copied)
    requires k == Copy(t, a, o, m, 0) && !k.Fault? && k.err == 0
    ensures TakesArgs(t) ==> t.Basic?
    ensures k.mem == if !TakesArgs(t) then m
                     else if HandsOn(t) then m.(shared := m.shared + [Call(t, a)])
                     else m.(tick := m.tick + 1, made := m.made + [Call(t, k.arg)])
    ensures !TakesArgs(t) ==> k.arg == Null
    ensures HandsOn(t) ==> k.arg == a
  {
    CopySucceedsIff(t, a, o, m, 0);
  }

  /** A successful copy holds what it made or what it handed on. */
  lemma CopyTimes(t: TypeTree, m: Mem, x: UserArg, k: Copied)
    requires k.Copied? && (TakesArgs(t) ==> t.Basic?) && (!TakesArgs(t) ==> k.arg == Null)
    requires k.mem == if !TakesArgs(t) then m
                      else if HandsOn(t) then m.(shared := m.shared + [Call(t, k.arg)])
                      else m.(tick := m.tick + 1, made := m.made + [Call(t, k.arg)])
    ensures k.mem.freed == m.freed && k.mem.dropped == m.dropped
    ensures Times(k.mem.made, x) == Times(m.made, x) + (if HandsOn(t) then 0 else Holds(t, k.arg, x))
    ensures Times(k.mem.shared, x) == Times(m.shared, x) + (if HandsOn(t) then Holds(t, k.arg, x) else 0)
  {
    if !TakesArgs(t) {
      NoUsersHeld(t, k.arg, x);
    } else {
      TimesAppend(m.made, Call(t, k.arg), x);
      TimesAppend(m.shared, Call(t, k.arg), x);
    }
  }

  /** A copy that fails makes, hands on and releases no argument of a user. */
  lemma FailedCopyTimes(t: TypeTree, a: Arg, o: Oracle, m: Mem, x: UserArg, free: bool, k: Copied)
    requires MemOk(m) && Fits(t, a) && k == Copy(t, a, o, m, 0) && !k.Fault? && k.err > 0 && LeavesAgree(t, x, free)
    ensures Fits(t, k.arg) && !HandsOn(t)
    ensures var f := Free(t, k.arg, k.mem);
            && Times(f.made, x) == Times(m.made, x) && f.shared == m.shared
            && Times(f.freed, x) == Times(m.freed, x) && Times(f.dropped, x) == Times(m.dropped, x)
  {
    FreeUndoesFailedCopy(t, a, o, m, 0);
    FreeTimes(t, k.arg, k.mem, x, free, Free(t, k.arg, k.mem));
    if t.Linked? {
      LinkedCopyNoUsers(t, a, o, m, 0);
      CopyFails(t, t, a, o, m, 0);
    } else {
      TimesAppend(m.made, Call(t, Null), x);
    }
    NoUsersHeld(t, k.arg, x);
  }

  // ---- Elementary changes ------------------------------------------------------

  /** What a field holds depends on the operands of its type alone. */
  lemma {:induction false} HeldFrame(a: Types, b: Types, t: FieldType?, arg: Arg, x: UserArg)
    requires TypesOk(a) && TypesOk(b) && Extends(a, b) && LiveType(a, t) && LiveType(b, t)
    ensures HeldBy(b, t, arg, x) == HeldBy(a, t, arg, x)
    decreases if t == null then 0 else t.birth + 1
  {
    if t != null {
      assert SameOperands(a, b, t) && TypeOk(a, t) && TypeOk(b, t);
      if a[t].linked && arg.Pair? {
        HeldFrame(a, b, a[t].left, arg.left, x);
        HeldFrame(a, b, a[t].right, arg.right, x);
      }
    }
  }

  lemma HeldBump(types: Types, u: FieldType?, d: int, t: FieldType?, a: Arg, x: UserArg)
    requires TypesOk(types) && LiveType(types, u) && LiveType(types, t)
    ensures TypesOk(Bump(types, u, d)) && HeldBy(Bump(types, u, d), t, a, x) == HeldBy(types, t, a, x)
    ensures Drops(Bump(types, u, d), x) <==> Drops(types, x)
  {
    TreeBump(types, u, d, t);
  }

  lemma BindHeld(s: Store, f: Field, t: FieldType?, a: Arg, m: Mem, x: UserArg)
    requires TypePart(s) && f in s.fields && s.fields[f].typ == null && LiveType(s.types, t)
    ensures TypesOk(Bind(s, f, t, a, m).types) && (Drops(Bind(s, f, t, a, m).types, x) <==> Drops(s.types, x))
    ensures Held(Bind(s, f, t, a, m), x) == Held(s, x) + Holds(Tree(s.types, t), a, x)
  {
    var s' := Bind(s, f, t, a, m);
    FieldTypesLive(s);
    HeldBump(s.types, t, 1, t, a, x);
    forall g | g in s.fields && g != f ensures HeldIn(s', g, x) == HeldIn(s, g, x) {
      HeldBump(s.types, t, 1, s.fields[g].typ, s.fields[g].arg, x);
    }
    HeldUpdate(s, s', f, x);
  }

  lemma BindSettles(s: Store, f: Field, t: FieldType?, a: Arg, m: Mem, x: UserArg)
    requires TypePart(s) && f in s.fields && s.fields[f].typ == null && LiveType(s.types, t)
    requires m.freed == s.mem.freed && m.dropped == s.mem.dropped
    requires Times(m.made, x) >= Made(s, x) && Times(m.shared, x) >= Shared(s, x)
    requires Times(m.made, x) + Times(m.shared, x) == Made(s, x) + Shared(s, x) + Holds(Tree(s.types, t), a, x)
    ensures Settles(s, Bind(s, f, t, a, m), x)
  {
    BindHeld(s, f, t, a, m, x);
  }

  /** Releasing the type of a field frees or drops what the field held. */
  lemma DetachSettles(s: Store, f: Field, x: UserArg)
    requires TypePart(s) && CanDetach(s, f)
    ensures var s' := Detach(s, f);
            && Settles(s, s', x)
            && Freed(s', x) == Freed(s, x) + (if Drops(s.types, x) then 0 else HeldIn(s, f, x))
            && Dropped(s', x) == Dropped(s, x) + (if Drops(s.types, x) then HeldIn(s, f, x) else 0)
            && Made(s', x) == Made(s, x) && Shared(s', x) == Shared(s, x)
  {
    var s' := Detach(s, f);
    var r := s.fields[f];
    FieldTypesLive(s);
    HeldBump(s.types, r.typ, -1, r.typ, r.arg, x);
    forall g | g in s.fields && g != f ensures HeldIn(s', g, x) == HeldIn(s, g, x) {
      HeldBump(s.types, r.typ, -1, s.fields[g].typ, s.fields[g].arg, x);
    }
    HeldUpdate(s, s', f, x);
    TreeAgrees(s.types, r.typ, x);
    FreeTimes(Tree(s.types, r.typ), r.arg, s.mem, x, !Drops(s.types, x), s'.mem);
  }

  // ---- Routines ----------------------------------------------------------------

  /** free_field drops an argument exactly when its type takes arguments and has
      no freearg by then, and otherwise passes it to freearg. */
  lemma ReleaseSettles(s: Store, f: Field, x: UserArg)
    requires Inv(s) && f in s.fields && f != s.dflt
    ensures var s' := Release(s, f);
            && Settles(s, s', x)
            && Freed(s', x) == Freed(s, x) + (if Drops(s.types, x) then 0 else HeldIn(s, f, x))
            && Dropped(s', x) == Dropped(s, x) + (if Drops(s.types, x) then HeldIn(s, f, x) else 0)
            && Made(s', x) == Made(s, x) && Shared(s', x) == Shared(s, x)
  {
    ReleaseReady(s, f);
    DetachSettles(s, f, x);
    RemoveSettles(Detach(s, f), f, x);
  }

  lemma RemoveSettles(s: Store, f: Field, x: UserArg)
    requires TypesOk(s.types) && f in s.fields && CanUnlink(s, f) && s.fields[f].typ == null
    requires s.fields[f].link != f ==> Pred(s, f) != f
    ensures Settles(s, Remove(s, f), x) && Remove(s, f).mem == s.mem
  {
    IdleField(s, Remove(s, f), f, x);
  }

  /** _nc_Copy_Type hands the argument on exactly under a basic type that takes
      arguments and has no copyarg, and then succeeds. */
  lemma CopyTypeShares(s: Store, o: Oracle, dst: Field, src: Field)
    requires Inv(s) && src in s.fields && dst in s.fields && s.fields[dst].typ == null && s.fields[dst].arg == Null
    ensures var r := CopyType(s, o, dst, src);
            r.Ran? ==>
              && LiveType(s.types, s.fields[src].typ)
              && var t := Tree(s.types, s.fields[src].typ);
              && r.store.mem.shared == s.mem.shared + (if HandsOn(t) then [Call(t, s.fields[src].arg)] else [])
              && (HandsOn(t) ==> r.status == Ok && r.store.mem.made == s.mem.made)
  {
    assert HolderOk(s.types, s.fields, src);
    CopyShares(Tree(s.types, s.fields[src].typ), s.fields[src].arg, o, s.mem);
  }

  lemma CopyShares(t: TypeTree, a: Arg, o: Oracle, m: Mem)
    requires MemOk(m) && Fits(t, a)
    ensures var k := Copy(t, a, o, m, 0);
            !k.Fault? ==>
              && (k.err > 0 ==> Fits(t, k.arg) && Free(t, k.arg, k.mem).shared == k.mem.shared)
              && k.mem.shared == m.shared + (if HandsOn(t) then [Call(t, a)] else [])
              && (HandsOn(t) ==> k.err == 0 && k.mem.made == m.made)
  {
    var k := Copy(t, a, o, m, 0);
    assert m.shared + [] == m.shared;
    if !k.Fault? && k.err > 0 {
      FreeUndoesFailedCopy(t, a, o, m, 0);
      FreeEffect(t, k.arg, k.mem);
      if t.Linked? {
        CopyFails(t, t, a, o, m, 0);
      }
    } else if t.Linked? && t.hasArgs {
      CopyLinkedNeverSucceeds(t, a, o, m, 0);
    }
  }

  lemma CopyTypeSettles(s: Store, o: Oracle, dst: Field, src: Field, x: UserArg)
    requires Inv(s) && src in s.fields && dst in s.fields && s.fields[dst].typ == null && s.fields[dst].arg == Null
    ensures var r := CopyType(s, o, dst, src);
            r.Ran? ==>
              Settles(s, r.store, x) && Freed(r.store, x) == Freed(s, x) && Dropped(r.store, x) == Dropped(s, x)
  {
    assert HolderOk(s.types, s.fields, src);
    var f := s.fields[src];
    var t := Tree(s.types, f.typ);
    var k := Copy(t, f.arg, o, s.mem, 0);
    TreeAgrees(s.types, f.typ, x);
    if !k.Fault? && k.err > 0 {
      FailedCopyTimes(t, f.arg, o, s.mem, x, !Drops(s.types, x), k);
      HeldSame(s, Free(t, k.arg, k.mem), x);
    } else if !k.Fault? {
      CopyForms(t, f.arg, o, s.mem, k);
      CopyTimes(t, s.mem, x, k);
      BindSettles(s, dst, f.typ, k.arg, k.mem, x);
    }
  }

  lemma TickSettles(s: Store, x: UserArg)
    requires TypesOk(s.types)
    ensures Settles(s, Tick(s), x) && SameLogs(s.mem, Tick(s).mem)
  {
    SameAccount(s, Tick(s), x);
  }

  lemma SpliceSettles(s: Store, f: Field, nf: Field, x: UserArg)
    requires TypesOk(s.types) && InRing(s, f) && nf !in s.fields
    ensures Settles(s, Splice(s, f, nf), x)
  {
    IdleField(s, Splice(s, f, nf), nf, x);
  }

  lemma BufferedSettles(s: Store, o: Oracle, nf: Field, nb: array<char>, x: UserArg)
    requires Inv(s) && nf in s.fields && nf != s.dflt && s.fields[nf].buf == null && AllBuffered(s, nf)
    requires NewBuffer(s, nb) && nb.Length >= TotalSize(s.fields[nf].dims)
    ensures var r := Buffered(s, o, nf, nb);
            Settles(s, r.store, x) && Made(r.store, x) == Made(s, x) && Shared(r.store, x) == Shared(s, x)
  {
    InvTick(s);
    TickSettles(s, x);
    if o(s.mem.tick) == 0 || TotalSize(s.fields[nf].dims) < 0 {
      ReleaseSettles(Tick(s), nf, x);
    } else {
      SameAccount(Tick(s), GiveBuffer(Tick(s), nf, nb), x);
    }
  }

  lemma OneShared(m: Mem, c: Call, m': Mem, x: UserArg)
    requires m'.shared == m.shared + if HandsOn(c.leaf) then [c] else []
    ensures Times(m'.shared, x) == Times(m.shared, x) + if HandsOn(c.leaf) && Is(c, x) then 1 else 0
  {
    TimesAppend(m.shared, c, x);
    assert m.shared + [] == m.shared;
  }

  /** The type has been copied into the new field. */
  lemma CopiedSettles(s: Store, o: Oracle, nf: Field, src: Field, x: UserArg)
    requires Inv(s) && src in s.fields && nf in s.fields && s.fields[nf].typ == null && s.fields[nf].arg == Null
    ensures var k := CopyType(s, o, nf, src);
            k.Ran? ==>
              && Settles(s, k.store, x) && LiveType(s.types, s.fields[src].typ)
              && var t := Tree(s.types, s.fields[src].typ);
              && Shared(k.store, x) == Shared(s, x) + (if HandsOn(t) && Is(Call(t, s.fields[src].arg), x) then 1 else 0)
              && (HandsOn(t) ==> Made(k.store, x) == Made(s, x))
  {
    CopyTypeSettles(s, o, nf, src, x);
    CopyTypeShares(s, o, nf, src);
    var k := CopyType(s, o, nf, src);
    if k.Ran? {
      OneShared(s.mem, Call(Tree(s.types, s.fields[src].typ), s.fields[src].arg), k.store.mem, x);
    }
  }

  lemma FinishSettles(s: Store, o: Oracle, nf: Field, src: Field, nb: array<char>, x: UserArg)
    requires Inv(s) && nf in s.fields && nf != s.dflt && src in s.fields
    requires s.fields[nf] == FieldRec(nf, null, Null, null, s.fields[nf].dims, false)
    requires AllBuffered(s, nf) && NewBuffer(s, nb) && nb.Length >= TotalSize(s.fields[nf].dims)
    ensures var r := Finish(s, o, nf, src, nb);
            r.Ran? ==>
              && Settles(s, r.store, x) && LiveType(s.types, s.fields[src].typ)
              && var t := Tree(s.types, s.fields[src].typ);
              && Shared(r.store, x) == Shared(s, x) + (if HandsOn(t) && Is(Call(t, s.fields[src].arg), x) then 1 else 0)
              && (HandsOn(t) ==> Made(r.store, x) == Made(s, x))
  {
    CopiedSettles(s, o, nf, src, x);
    var k := CopyType(s, o, nf, src);
    if k.Ran? && k.status != Ok {
      ReleaseSettles(k.store, nf, x);
    } else if k.Ran? {
      BufferedSettles(k.store, o, nf, nb, x);
    }
  }

  /** new_field and dup_field hand an argument on exactly when the field could be
      allocated and the type copied is basic, takes arguments and has no copyarg. */
  lemma CreateSettles(s: Store, o: Oracle, nf: Field, src: Field, d: Dims, nb: array<char>, x: UserArg)
    requires Good(s) && nf !in s.fields && src in s.fields && NewBuffer(s, nb) && nb.Length >= TotalSize(d)
    ensures var r := Create(s, o, nf, src, d, nb);
            r.Ran? ==>
              && Settles(s, r.store, x) && LiveType(s.types, s.fields[src].typ)
              && var t := Tree(s.types, s.fields[src].typ);
              && (HandsOn(t) ==> Made(r.store, x) == Made(s, x))
              && Shared(r.store, x) == Shared(s, x) +
                   if o(s.mem.tick) != 0 && HandsOn(t) && Is(Call(t, s.fields[src].arg), x) then 1 else 0
  {
    TickSettles(s, x);
    FieldTypesLive(s);
    if o(s.mem.tick) != 0 {
      InsertReady(s, nf, d, nb);
      var s1 := Insert(Tick(s), nf, d);
      IdleField(Tick(s), s1, nf, x);
      FinishSettles(s1, o, nf, src, nb, x);
    }
  }

  /** A failed new_field or dup_field releases what it made itself and, if it
      handed the argument of the original on, that argument too, although the
      original still holds it. */
  lemma FailedCreateReleases(s: Store, o: Oracle, nf: Field, src: Field, d: Dims, nb: array<char>, x: UserArg)
    requires Good(s) && nf !in s.fields && src in s.fields && NewBuffer(s, nb) && nb.Length >= TotalSize(d)
    ensures var r := Create(s, o, nf, src, d, nb);
            r.Ran? && r.status != Ok ==>
              && Held(r.store, x) == Held(s, x) && LiveType(s.types, s.fields[src].typ)
              && var t := Tree(s.types, s.fields[src].typ);
              && (HandsOn(t) ==> Made(r.store, x) == Made(s, x))
              && var n := Made(r.store, x) - Made(s, x) +
                          if o(s.mem.tick) != 0 && HandsOn(t) && Is(Call(t, s.fields[src].arg), x) then 1 else 0;
              && Freed(r.store, x) == Freed(s, x) + (if Drops(s.types, x) then 0 else n)
              && Dropped(r.store, x) == Dropped(s, x) + (if Drops(s.types, x) then n else 0)
  {
    CreateSettles(s, o, nf, src, d, nb, x);
    CreateRollsBack(s, o, nf, src, d, nb);
    var r := Create(s, o, nf, src, d, nb);
    if r.Ran? && r.status != Ok {
      SumFrame(s, r.store, s.fields.Keys, x);
    }
  }

  lemma LinkFieldSettles(s: Store, o: Oracle, f: Field?, nf: Field, frow: int, fcol: int, x: UserArg)
    requires Good(s) && UserField(s, f) && nf !in s.fields
    ensures var r := LinkField(s, o, f, nf, frow, fcol);
            r.Ran? ==> Settles(s, r.store, x)
  {
    if f == null || frow < 0 || fcol < 0 {
      SameAccount(s, s, x);
    } else {
      TickSettles(s, x);
      InvTick(s);
      Ringed(s, f);
      if o(s.mem.tick) != 0 {
        LinkNewSettles(Tick(s), o, f, nf, x);
      }
    }
  }

  /** link_field hands an argument on exactly when the field could be allocated
      and the type copied is basic, takes arguments and has no copyarg. */
  lemma LinkShares(s: Store, o: Oracle, f: Field, nf: Field, frow: int, fcol: int)
    requires Good(s) && f in s.fields && f != s.dflt && nf !in s.fields && frow >= 0 && fcol >= 0
    ensures var r := LinkField(s, o, f, nf, frow, fcol);
            r.Ran? ==>
              && LiveType(s.types, s.fields[f].typ)
              && var t := Tree(s.types, s.fields[f].typ);
              && (HandsOn(t) ==> r.store.mem.made == s.mem.made)
              && r.store.mem.shared ==
                   s.mem.shared + if o(s.mem.tick) != 0 && HandsOn(t) then [Call(t, s.fields[f].arg)] else []
  {
    InvTick(s);
    Ringed(s, f);
    FieldTypesLive(s);
    assert s.mem.shared + [] == s.mem.shared;
    if o(s.mem.tick) != 0 {
      LinkNewShares(Tick(s), o, f, nf);
    }
  }

  lemma LinkNewShares(s: Store, o: Oracle, f: Field, nf: Field)
    requires Inv(s) && InRing(s, f) && nf !in s.fields
    ensures var r := LinkNew(s, o, f, nf);
            r.Ran? ==>
              && LiveType(s.types, s.fields[f].typ)
              && var t := Tree(s.types, s.fields[f].typ);
              && (HandsOn(t) ==> r.store.mem.made == s.mem.made)
              && r.store.mem.shared == s.mem.shared + if HandsOn(t) then [Call(t, s.fields[f].arg)] else []
  {
    InvSplice(s, f, nf);
    var s1 := Splice(s, f, nf);
    CopyTypeShares(s1, o, nf, f);
    var k := CopyType(s1, o, nf, f);
    if k.Ran? && k.status != Ok {
      ReleaseReady(k.store, nf);
      var r := k.store.fields[nf];
      FreeEffect(Tree(k.store.types, r.typ), r.arg, k.store.mem);
    }
  }

  lemma LinkNewSettles(s: Store, o: Oracle, f: Field, nf: Field, x: UserArg)
    requires Inv(s) && InRing(s, f) && nf !in s.fields
    ensures var r := LinkNew(s, o, f, nf);
            r.Ran? ==> Settles(s, r.store, x)
  {
    SpliceSettles(s, f, nf, x);
    InvSplice(s, f, nf);
    var s1 := Splice(s, f, nf);
    CopyTypeSettles(s1, o, nf, f, x);
    var k := CopyType(s1, o, nf, f);
    if k.Ran? && k.status != Ok {
      ReleaseSettles(k.store, nf, x);
      SettlesThrice(s, s1, k.store, Release(k.store, nf), x);
    } else if k.Ran? {
      SettlesThrice(s, s1, k.store, k.store, x);
    }
  }

  lemma SettlesThrice(a: Store, b: Store, c: Store, d: Store, x: UserArg)
    requires TypesOk(a.types) && TypesOk(b.types) && TypesOk(c.types)
    requires Settles(a, b, x) && Settles(b, c, x) && Settles(c, d, x)
    ensures Settles(a, d, x)
  {
  }

  lemma AttachSettles(s: Store, o: Oracle, f: Field, t: FieldType?, x: UserArg)
    requires Inv(s) && f in s.fields && s.fields[f].typ == null && s.fields[f].arg == Null && LiveType(s.types, t)
    ensures Settles(s, Attach(s, o, f, t).store, x)
  {
    var tree := Tree(s.types, t);
    var b := Make(tree, o, s.mem, 0);
    AttachOutcome(s, o, f, t, b);
    MakeTimes(tree, o, s.mem, 0, x, b);
    if b.err == 0 {
      BindSettles(s, f, t, b.arg, b.mem, x);
    } else {
      DiscardSettles(s, t, b.arg, b.mem, x);
    }
  }

  /** An argument that was made and is not held is released again. */
  lemma DiscardSettles(s: Store, t: FieldType?, a: Arg, m: Mem, x: UserArg)
    requires TypesOk(s.types) && LiveType(s.types, t) && Fits(Tree(s.types, t), a)
    requires Times(m.made, x) == Times(s.mem.made, x) + Holds(Tree(s.types, t), a, x)
    requires m.shared == s.mem.shared && m.freed == s.mem.freed && m.dropped == s.mem.dropped
    ensures Settles(s, s.(mem := Free(Tree(s.types, t), a, m)), x)
  {
    var f := Free(Tree(s.types, t), a, m);
    TreeAgrees(s.types, t, x);
    FreeTimes(Tree(s.types, t), a, m, x, !Drops(s.types, x), f);
    HeldSame(s, f, x);
  }

  lemma SetFieldTypeSettles(s: Store, o: Oracle, f: Field?, t: FieldType?, x: UserArg)
    requires Good(s) && (f == null || f in s.fields) && LiveType(s.types, t)
    ensures Settles(s, SetFieldType(s, o, f, t).store, x)
  {
    var f' := if f == null then s.dflt else f;
    InvDetach(s, f');
    DetachSettles(s, f', x);
    AttachSettles(Detach(s, f'), o, f', t, x);
  }

  /** A change of types moves no argument, also when it changes the functions of
      a type in use. */
  lemma TypesAccount(s: Store, s': Store, x: UserArg)
    requires TypePart(s) && TypePart(s') && s'.fields == s.fields && Extends(s.types, s'.types)
    requires SameLogs(s.mem, s'.mem)
    ensures Accounts(s, s', x)
  {
    FieldTypesLive(s);
    FieldTypesLive(s');
    forall f | f in s.fields ensures HeldIn(s', f, x) == HeldIn(s, f, x) {
      HeldFrame(s.types, s'.types, s.fields[f].typ, s.fields[f].arg, x);
    }
    SameAccount(s, s', x);
  }

  lemma LinkFieldTypeAccount(s: Store, o: Oracle, nt: FieldType, t1: FieldType?, t2: FieldType?, x: UserArg)
    requires Good(s) && Enabled(s, OpLinkFieldType(nt, t1, t2))
    ensures Accounts(s, LinkFieldType(s, o, nt, t1, t2).store, x)
  {
    if t1 == null || t2 == null || o(s.mem.tick) == 0 {
      TickSettles(s, x);
    } else {
      AddLinkedOk(s.types, nt, t1, t2);
      TypesAccount(s, LinkFieldType(s, o, nt, t1, t2).store, x);
    }
  }

  lemma OthersExtend(a: Types, b: Types, x: FieldType)
    requires OthersKept(a, b, x) && (x in a ==> x !in b)
    ensures Extends(a, b)
  {
    forall t | t in a && t in b ensures SameOperands(a, b, t) {
      assert Kept(a, b, x, t);
    }
  }

  lemma FreeFieldTypeAccount(s: Store, t: FieldType?, x: UserArg)
    requires Good(s) && LiveType(s.types, t)
    ensures Accounts(s, FreeFieldType(s, t).store, x)
  {
    var r := FreeFieldType(s, t);
    if r.status == Ok {
      DropTypeOthers(s.types, t);
      OthersExtend(s.types, r.store.types, t);
      TypesAccount(s, r.store, x);
    } else {
      SameAccount(s, r.store, x);
    }
  }

  lemma NewFieldTypeAccount(s: Store, o: Oracle, nt: FieldType, hasCheck: bool, x: UserArg)
    requires Good(s) && nt !in s.types
    ensures Accounts(s, NewFieldType(s, o, nt, hasCheck).store, x)
  {
    var s' := NewFieldType(s, o, nt, hasCheck).store;
    OthersExtend(s.types, s'.types, nt);
    TypesAccount(s, s', x);
  }

  /** set_fieldtype_arg moves no argument, whenever it is called. */
  lemma SetFieldTypeArgAccount(s: Store, t: FieldType?, makearg: bool, copyarg: bool, freearg: bool, x: UserArg)
    requires Good(s) && LiveType(s.types, t)
    ensures var s' := SetFieldTypeArg(s, t, makearg, copyarg, freearg).store;
            && s'.mem == s.mem && Held(s', x) == Held(s, x) && Accounts(s, s', x)
  {
    var s' := SetFieldTypeArg(s, t, makearg, copyarg, freearg).store;
    if t != null && makearg {
      WithArgsOk(s.types, t, copyarg, freearg);
    }
    TypesAccount(s, s', x);
  }

  lemma TypeOpAccount(s: Store, o: Oracle, op: Op, x: UserArg)
    requires Good(s) && Enabled(s, op)
    requires op.OpNewFieldType? || op.OpLinkFieldType? || op.OpSetFieldTypeArg? || op.OpFreeFieldType?
    ensures Accounts(s, Step(s, o, op).store, x)
  {
    match op
    case OpNewFieldType(nt, hasCheck) => NewFieldTypeAccount(s, o, nt, hasCheck, x);
    case OpLinkFieldType(nt, t1, t2) => LinkFieldTypeAccount(s, o, nt, t1, t2, x);
    case OpSetFieldTypeArg(t, makearg, copyarg, freearg) =>
      SetFieldTypeArgAccount(s, t, makearg, copyarg, freearg, x);
    case OpFreeFieldType(t) => FreeFieldTypeAccount(s, t, x);
  }

  lemma CreatorAccounts(s: Store, o: Oracle, op: Op, x: UserArg)
    requires Good(s) && Enabled(s, op) && (op.OpNewField? || op.OpDupField? || op.OpLinkField?)
    ensures var r := Step(s, o, op);
            r.Ran? ==> Accounts(s, r.store, x)
  {
    match op
    case OpNewField(nf, nb, rows, cols, _, _, nrow, nbuf) =>
      CreateSettles(s, o, nf, s.dflt, Dims(rows + nrow, cols, ToShort(nbuf)), nb, x);
    case OpDupField(f, nf, nb, _, _) =>
      if f != null {
        CreateSettles(s, o, nf, f, s.fields[f].dims, nb, x);
      }
    case OpLinkField(f, nf, frow, fcol) => LinkFieldSettles(s, o, f, nf, frow, fcol, x);
  }

  /** Every call keeps the account. */
  lemma StepAccounts(s: Store, o: Oracle, op: Op, x: UserArg)
    requires Good(s) && Enabled(s, op)
    ensures var r := Step(s, o, op);
            r.Ran? ==> Accounts(s, r.store, x)
  {
    match op
    case OpFreeField(f) =>
      if f != null {
        ReleaseSettles(s, f, x);
      }
    case OpSetFieldType(f, t) => SetFieldTypeSettles(s, o, f, t, x);
    case OpSetConnected(_, _) => SameAccount(s, Step(s, o, op).store, x);
    case OpNewField(_, _, _, _, _, _, _, _) => CreatorAccounts(s, o, op, x);
    case OpDupField(_, _, _, _, _) => CreatorAccounts(s, o, op, x);
    case OpLinkField(_, _, _, _) => CreatorAccounts(s, o, op, x);
    case _ => TypeOpAccount(s, o, op, x);
  }

  // ---- Runs ----------------------------------------------------------------------

  lemma {:induction false} RunAccounts(s: Store, o: Oracle, ops: seq<Op>, s': Store, x: UserArg)
    requires Good(s) && Runs(s, o, ops, s')
    ensures Good(s') && Balance(s', x) == Balance(s, x)
    ensures Made(s, x) <= Made(s', x) && Shared(s, x) <= Shared(s', x)
    ensures Freed(s, x) <= Freed(s', x) && Dropped(s, x) <= Dropped(s', x)
    decreases |ops|
  {
    if ops != [] {
      StepAccounts(s, o, ops[0], x);
      RunAccounts(Step(s, o, ops[0]).store, o, ops[1..], s', x);
    }
  }

  lemma InitialBalance(s: Store, x: UserArg)
    requires Initial(s) && Good(s)
    ensures Balance(s, x) == 0 && Dropped(s, x) == 0
  {
    assert s.fields.Keys == {s.dflt};
    SumWithout(s, s.dflt, x);
    assert s.fields.Keys - {s.dflt} == {};
  }

  /** Over every run each argument has been freed, dropped or is held: once for
      each time it was made and once more for each time it was handed on. */
  lemma ArgumentsConserved(s: Store, o: Oracle, ops: seq<Op>, s': Store, x: UserArg)
    requires Initial(s) && Good(s) && Runs(s, o, ops, s')
    ensures Good(s')
    ensures Made(s', x) + Shared(s', x) == Freed(s', x) + Dropped(s', x) + Held(s', x)
  {
    InitialBalance(s, x);
    RunAccounts(s, o, ops, s', x);
  }

  /** An argument that was never handed on is freed and held together at most as
      often as it was made; so one that was made once is not freed while a field
      holds it, and no two fields hold it. */
  lemma NotFreedWhileHeld(s: Store, o: Oracle, ops: seq<Op>, s': Store, x: UserArg)
    requires Initial(s) && Good(s) && Runs(s, o, ops, s') && Shared(s', x) == 0
    ensures Good(s') && Freed(s', x) + Held(s', x) <= Made(s', x)
    ensures Made(s', x) == 1 && Held(s', x) > 0 ==> Freed(s', x) == 0 && Held(s', x) == 1
  {
    ArgumentsConserved(s, o, ops, s', x);
  }

  /** No state of the run in which a call is made would drop `x`. */
  ghost predicate NeverDrops(s: Store, o: Oracle, ops: seq<Op>, x: UserArg)
    requires Good(s)
    decreases |ops|
  {
    ops != [] && Enabled(s, ops[0]) && Step(s, o, ops[0]).Ran? ==>
      !Drops(s.types, x) && NeverDrops(Step(s, o, ops[0]).store, o, ops[1..], x)
  }

  lemma {:induction false} NothingDropped(s: Store, o: Oracle, ops: seq<Op>, s': Store, x: UserArg)
    requires Good(s) && Runs(s, o, ops, s') && NeverDrops(s, o, ops, x)
    ensures Dropped(s', x) == Dropped(s, x)
    decreases |ops|
  {
    if ops != [] {
      StepAccounts(s, o, ops[0], x);
      NothingDropped(Step(s, o, ops[0]).store, o, ops[1..], s', x);
    }
  }

  /** While its type never is without a freearg, no argument is lost. */
  lemma NothingLost(s: Store, o: Oracle, ops: seq<Op>, s': Store, x: UserArg)
    requires Initial(s) && Good(s) && Runs(s, o, ops, s') && NeverDrops(s, o, ops, x)
    ensures Good(s') && Made(s', x) + Shared(s', x) == Freed(s', x) + Held(s', x)
  {
    InitialBalance(s, x);
    ArgumentsConserved(s, o, ops, s', x);
    NothingDropped(s, o, ops, s', x);
  }

  // ---- Freeing everything --------------------------------------------------------

  lemma RunsCons(s: Store, o: Oracle, op: Op, s1: Store, ops: seq<Op>, s': Store)
    requires Good(s) && Enabled(s, op) && Step(s, o, op).Ran? && s1 == Step(s, o, op).store && Runs(s1, o, ops, s')
    ensures Runs(s, o, [op] + ops, s')
  {
    assert ([op] + ops)[1..] == ops;
  }

  /** `s'` makes and hands on what `s` did, and everything that `s` held is freed
      or dropped, as the functions of its type say. */
  ghost predicate Emptied(s: Store, s': Store, x: UserArg)
    requires TypesOk(s.types)
  {
    && Made(s', x) == Made(s, x) && Shared(s', x) == Shared(s, x)
    && Freed(s', x) == Freed(s, x) + (if Drops(s.types, x) then 0 else Held(s, x))
    && Dropped(s', x) == Dropped(s, x) + (if Drops(s.types, x) then Held(s, x) else 0)
  }

  /** From every good state some run frees every field and makes nothing. */
  lemma {:induction false} CleanUp(s: Store, o: Oracle, x: UserArg) returns (ops: seq<Op>, s': Store)
    requires Good(s)
    ensures Runs(s, o, ops, s') && Good(s') && Emptied(s, s', x) && Held(s', x) == 0
    ensures s'.fields.Keys == {s'.dflt} && s'.fields[s'.dflt].typ == null
    decreases |s.fields.Keys|
  {
    if f :| f in s.fields && f != s.dflt {
      var s1 := SetConnected(s, f, false).store;
      var s2 := Release(s1, f);
      DropSettles(s, f, s1, s2, x);
      ops, s' := CleanUp(s2, o, x);
      EmptiedAfter(s, s2, s', x);
      DropOne(s, o, f, s1, s2, ops, s');
      ops := [OpSetConnected(f, false)] + ([OpFreeField(f)] + ops);
    } else {
      ops, s' := ClearDefault(s, o, x);
    }
  }

  /** What `s2` no longer holds is freed or dropped. */
  ghost predicate Lowers(s: Store, s2: Store, x: UserArg)
    requires TypesOk(s.types) && TypesOk(s2.types)
  {
    var n := Held(s, x) - Held(s2, x);
    && Made(s2, x) == Made(s, x) && Shared(s2, x) == Shared(s, x)
    && Freed(s2, x) == Freed(s, x) + (if Drops(s.types, x) then 0 else n)
    && Dropped(s2, x) == Dropped(s, x) + (if Drops(s.types, x) then n else 0)
  }

  lemma EmptiedAfter(s: Store, s2: Store, s': Store, x: UserArg)
    requires TypesOk(s.types) && TypesOk(s2.types) && (Drops(s2.types, x) <==> Drops(s.types, x))
    requires Lowers(s, s2, x) && Emptied(s2, s', x)
    ensures Emptied(s, s', x)
  {
  }

  lemma DropSettles(s: Store, f: Field, s1: Store, s2: Store, x: UserArg)
    requires Good(s) && f in s.fields && f != s.dflt && s1 == SetConnected(s, f, false).store && s2 == Release(s1, f)
    ensures Good(s2) && s2.fields.Keys == s.fields.Keys - {f} && (Drops(s2.types, x) <==> Drops(s.types, x))
    ensures Lowers(s, s2, x)
  {
    SameAccount(s, s1, x);
    ReleaseSettles(s1, f, x);
  }

  lemma DropOne(s: Store, o: Oracle, f: Field, s1: Store, s2: Store, ops: seq<Op>, s': Store)
    requires Good(s) && f in s.fields && f != s.dflt && s1 == SetConnected(s, f, false).store
    requires s2 == Release(s1, f) && Good(s2) && Runs(s2, o, ops, s')
    ensures Runs(s, o, [OpSetConnected(f, false)] + ([OpFreeField(f)] + ops), s')
  {
    RunsCons(s1, o, OpFreeField(f), s2, ops, s');
    RunsCons(s, o, OpSetConnected(f, false), s1, [OpFreeField(f)] + ops, s');
  }

  lemma ClearDefault(s: Store, o: Oracle, x: UserArg) returns (ops: seq<Op>, s': Store)
    requires Good(s) && s.fields.Keys == {s.dflt}
    ensures Runs(s, o, ops, s') && Good(s') && Emptied(s, s', x) && Held(s', x) == 0
    ensures s'.fields.Keys == {s'.dflt} && s'.fields[s'.dflt].typ == null
  {
    s' := SetFieldType(s, o, null, null).store;
    ClearSettles(s, o, s', x);
    ops := [OpSetFieldType(null, null)] + [];
    RunsCons(s, o, OpSetFieldType(null, null), s', [], s');
  }

  lemma ClearSettles(s: Store, o: Oracle, s': Store, x: UserArg)
    requires Good(s) && s.fields.Keys == {s.dflt} && s' == SetFieldType(s, o, null, null).store
    ensures s'.fields.Keys == {s'.dflt} && s'.fields[s'.dflt].typ == null
    ensures Emptied(s, s', x) && Held(s', x) == 0
  {
    InvDetach(s, s.dflt);
    var d := Detach(s, s.dflt);
    AttachOutcome(d, o, s.dflt, null, Built(Null, d.mem, 0));
    assert s'.fields == d.fields[s.dflt := d.fields[s.dflt].(typ := null, arg := Null)] && s'.mem == d.mem;
    assert s'.dflt == s.dflt;
    DetachSettles(s, s.dflt, x);
    HeldAlone(s, x);
    NothingHeld(s', x);
  }

  lemma HeldAlone(s: Store, x: UserArg)
    requires TypesOk(s.types) && s.fields.Keys == {s.dflt}
    ensures Held(s, x) == HeldIn(s, s.dflt, x)
  {
    SumWithout(s, s.dflt, x);
    assert s.fields.Keys - {s.dflt} == {};
  }

  lemma NothingHeld(s: Store, x: UserArg)
    requires TypesOk(s.types) && s.fields.Keys == {s.dflt} && s.fields[s.dflt].typ == null
    ensures Held(s, x) == 0
  {
    SumWithout(s, s.dflt, x);
    assert s.fields.Keys - {s.dflt} == {};
  }

  // ---- More often than made ------------------------------------------------------

  /** A continuation that gives the type of `x` a freearg, if it is live and has
      none, and then frees everything. */
  lemma FreeAll(s: Store, o: Oracle, x: UserArg) returns (ops: seq<Op>, s': Store)
    requires Good(s)
    ensures Runs(s, o, ops, s') && Made(s', x) == Made(s, x) && Shared(s', x) == Shared(s, x)
    ensures Freed(s', x) == Freed(s, x) + Held(s, x)
  {
    if Drops(s.types, x) {
      var give := OpSetFieldTypeArg(x.typ, true, false, true);
      var s1 := Step(s, o, give).store;
      SetFieldTypeArgAccount(s, x.typ, true, false, true, x);
      ops, s' := CleanUp(s1, o, x);
      RunsCons(s, o, give, s1, ops, s');
      ops := [give] + ops;
    } else {
      ops, s' := CleanUp(s, o, x);
    }
  }

  /** `more` leads on from `s'`, neither makes `x` nor hands it on, and frees it
      more often than it was made. */
  ghost predicate Overfrees(s': Store, o: Oracle, x: UserArg, more: seq<Op>, s'': Store)
    requires Good(s')
  {
    && Runs(s', o, more, s'') && Made(s'', x) == Made(s', x) && Shared(s'', x) == Shared(s', x)
    && Freed(s'', x) > Made(s'', x)
  }

  /** After any run: an argument that was not handed on has been freed at most as
      often as it was made.  Some continuation that neither makes it nor hands it
      on frees it more often exactly when it was handed on more often than it was
      dropped. */
  lemma OverfreedIff(s: Store, o: Oracle, ops: seq<Op>, s': Store, x: UserArg)
    requires Initial(s) && Good(s) && Runs(s, o, ops, s')
    ensures Good(s')
    ensures Shared(s', x) == 0 ==> Freed(s', x) <= Made(s', x)
    ensures Freed(s', x) > Made(s', x) <==> Shared(s', x) > Dropped(s', x) + Held(s', x)
    ensures (exists more, s'' :: Overfrees(s', o, x, more, s'')) <==> Shared(s', x) > Dropped(s', x)
  {
    ArgumentsConserved(s, o, ops, s', x);
    if Shared(s', x) > Dropped(s', x) {
      var more, s'' := FreeAll(s', o, x);
      assert Overfrees(s', o, x, more, s'');
    }
    if more, s'' :| Overfrees(s', o, x, more, s'') {
      RunAccounts(s', o, more, s'', x);
    }
  }
}
