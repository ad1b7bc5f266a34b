/**
  Runs from the initial state in which laws that one might expect of the form
  library fail.
 */
module FormWitnesses {
  import opened Collections
  import opened FieldTypes
  import opened ArgumentTrees
  import opened FormStore
  import opened FormInvariant
  import opened FormRoutines
  import opened FormRuns
  import opened FormArguments

  /** No request ever fails. */
  ghost predicate Plenty(o: Oracle)
  {
    forall k :: o(k) != 0
  }

  /** The `n` requests from the `lo`-th on do not fail. */
  ghost predicate Enough(o: Oracle, lo: nat, n: nat)
  {
    forall k :: lo <= k < lo + n ==> o(k) != 0
  }

  lemma {:induction false} RunsThen(s: Store, o: Oracle, ops: seq<Op>, s1: Store, op: Op, s2: Store)
    requires Good(s) && Runs(s, o, ops, s1) && Good(s1)
    requires Enabled(s1, op) && Step(s1, o, op).Ran? && s2 == Step(s1, o, op).store
    ensures Runs(s, o, ops + [op], s2)
    decreases |ops|
  {
    var all := ops + [op];
    if ops == [] {
      assert all[1..] == [];
    } else {
      assert all[0] == ops[0] && all[1..] == ops[1..] + [op];
      RunsThen(Step(s, o, ops[0]).store, o, ops[1..], s1, op, s2);
    }
  }

  // ---- What the calls do when nothing fails --------------------------------------

  lemma NewTypeWorks(s: Store, o: Oracle, b: FieldType)
    requires Good(s) && o(s.mem.tick) != 0 && b !in s.types
    ensures Step(s, o, OpNewFieldType(b, true)) == Ran(Tick(s).(types := s.types[b := NEW_TYPE]), Ok)
  {
  }

  lemma LinkTypesWorks(s: Store, o: Oracle, l: FieldType, b: FieldType)
    requires Good(s) && o(s.mem.tick) != 0 && l !in s.types && b in s.types && b.birth < l.birth
    ensures Step(s, o, OpLinkFieldType(l, b, b)) == Ran(Tick(s).(types := AddLinked(s.types, l, b, b)), Ok)
  {
  }

  lemma UntypedCopyWorks(s: Store, o: Oracle, dst: Field, src: Field)
    requires Inv(s) && src in s.fields && dst in s.fields && s.fields[src].typ == null
    requires s.fields[dst].typ == null && s.fields[dst].arg == Null
    ensures CopyType(s, o, dst, src) == Ran(s, Ok)
  {
    assert Tree(s.types, s.fields[src].typ) == Absent;
    assert s.fields[dst := s.fields[dst].(typ := null, arg := Null)] == s.fields;
  }

  lemma FinishWorks(s: Store, o: Oracle, nf: Field, src: Field, nb: array<char>)
    requires Inv(s) && nf in s.fields && nf != s.dflt && src in s.fields
    requires o(s.mem.tick) != 0 && s.fields[src].typ == null
    requires s.fields[nf] == FieldRec(nf, null, Null, null, s.fields[nf].dims, false)
    requires AllBuffered(s, nf) && NewBuffer(s, nb) && nb.Length >= TotalSize(s.fields[nf].dims) >= 0
    ensures Finish(s, o, nf, src, nb) == Ran(GiveBuffer(Tick(s), nf, nb), Ok)
  {
    UntypedCopyWorks(s, o, nf, src);
  }

  const NEW_DIMS: Dims := Dims(1, 1, 0)

  lemma NewSizes()
    ensures Dims(1 + 0, 1, ToShort(0)) == NEW_DIMS && TotalSize(NEW_DIMS) == 2
  {
  }

  /** The store after a field without a type has been created. */
  function Added(s: Store, nf: Field, nb: array<char>): Store
  {
    s.(fields := s.fields[nf := FieldRec(nf, null, Null, nb, NEW_DIMS, false)],
       rings := s.rings[nb := [nf]],
       bufAllocs := s.bufAllocs + 1,
       mem := s.mem.(tick := s.mem.tick + 2))
  }

  lemma CreateWorks(s: Store, o: Oracle, nf: Field, nb: array<char>)
    requires Good(s) && o(s.mem.tick) != 0 && o(s.mem.tick + 1) != 0 && nf !in s.fields && s.fields[s.dflt].typ == null
    requires NewBuffer(s, nb) && nb.Length >= TotalSize(NEW_DIMS) >= 0
    ensures Create(s, o, nf, s.dflt, NEW_DIMS, nb) == Ran(Added(s, nf, nb), Ok)
  {
    InsertReady(s, nf, NEW_DIMS, nb);
    var s1 := Insert(Tick(s), nf, NEW_DIMS);
    FinishWorks(s1, o, nf, s.dflt, nb);
    SetTwice(s.fields, nf, s1.fields[nf], s1.fields[nf].(buf := nb));
  }

  lemma NewFieldWorks(s: Store, o: Oracle, nf: Field, nb: array<char>)
    requires Good(s) && o(s.mem.tick) != 0 && o(s.mem.tick + 1) != 0 && nf !in s.fields && s.fields[s.dflt].typ == null
    requires NewBuffer(s, nb) && nb.Length >= 2
    ensures Enabled(s, OpNewField(nf, nb, 1, 1, 0, 0, 0, 0))
    ensures Step(s, o, OpNewField(nf, nb, 1, 1, 0, 0, 0, 0)) == Ran(Added(s, nf, nb), Ok)
  {
    NewSizes();
    CreateWorks(s, o, nf, nb);
    assert NewField(s, o, nf, nb, 1, 1, 0, 0, 0, 0) == Create(s, o, nf, s.dflt, NEW_DIMS, nb);
  }

  lemma {:induction false} NoFailures(o: Oracle, lo: nat, hi: nat)
    requires Plenty(o) && lo <= hi
    ensures Failures(o, lo, hi) == 0
    decreases hi - lo
  {
    if lo < hi {
      NoFailures(o, lo, hi - 1);
    }
  }

  lemma PlentyMakes(t: TypeTree, o: Oracle, m: Mem)
    requires Plenty(o)
    ensures Make(t, o, m, 0).err == 0
  {
    var b := Make(t, o, m, 0);
    MakeCountsFailures(t, o, m, 0, b);
    NoFailures(o, m.tick, b.mem.tick);
  }

  lemma SetTypeWorks(s: Store, o: Oracle, f: Field, t: FieldType, b: Built)
    requires Good(s) && f in s.fields && f != s.dflt && t in s.types
    requires s.fields[f].typ == null && s.fields[f].arg == Null
    requires b == Make(Tree(s.types, t), o, s.mem, 0) && b.err == 0
    ensures Step(s, o, OpSetFieldType(f, t)) == Ran(Bind(s, f, t, b.arg, b.mem), Ok)
  {
    InvDetach(s, f);
    assert Detach(s, f) == s by {
      assert s.fields[f := s.fields[f].(typ := null, arg := Null)] == s.fields;
    }
    AttachOutcome(s, o, f, t, b);
  }

  // ---- Pieces of runs ------------------------------------------------------------

  ghost predicate Reached(s: Store, o: Oracle, ops: seq<Op>, s': Store)
  {
    Initial(s) && Good(s) && Good(s') && Runs(s, o, ops, s')
  }

  lemma ThenReached(s: Store, o: Oracle, ops: seq<Op>, s1: Store, op: Op, s2: Store)
    requires Reached(s, o, ops, s1) && Enabled(s1, op) && Step(s1, o, op).Ran? && s2 == Step(s1, o, op).store
    ensures Reached(s, o, ops + [op], s2)
  {
    RunsThen(s, o, ops, s1, op, s2);
  }

  /** A new basic type. */
  lemma BasicType(s: Store, o: Oracle, b: FieldType) returns (ops: seq<Op>, s': Store)
    requires Initial(s) && o(s.mem.tick) != 0 && b !in s.types
    ensures Reached(s, o, ops, s') && s' == Tick(s).(types := s.types[b := NEW_TYPE])
  {
    InitialGood(s);
    NewTypeWorks(s, o, b);
    s' := Step(s, o, OpNewFieldType(b, true)).store;
    ThenReached(s, o, [], s, OpNewFieldType(b, true), s');
    ops := [] + [OpNewFieldType(b, true)];
  }

  /** A new basic type with arguments. */
  lemma ArgumentType(s: Store, o: Oracle, b: FieldType, freearg: bool) returns (ops: seq<Op>, s': Store)
    requires Initial(s) && o(s.mem.tick) != 0 && b !in s.types
    ensures Reached(s, o, ops, s')
    ensures s' == Tick(s).(types := WithArgs(s.types[b := NEW_TYPE], b, false, freearg))
  {
    var s1;
    ops, s1 := BasicType(s, o, b);
    s' := Step(s1, o, OpSetFieldTypeArg(b, true, false, freearg)).store;
    ThenReached(s, o, ops, s1, OpSetFieldTypeArg(b, true, false, freearg), s');
    ops := ops + [OpSetFieldTypeArg(b, true, false, freearg)];
  }

  lemma WithField(s: Store, o: Oracle, ops: seq<Op>, s1: Store, nf: Field, nb: array<char>)
    returns (ops': seq<Op>)
    requires Reached(s, o, ops, s1) && o(s1.mem.tick) != 0 && o(s1.mem.tick + 1) != 0 && s1.fields[s1.dflt].typ == null
    requires nf !in s1.fields && NewBuffer(s1, nb) && nb.Length >= 2
    ensures Reached(s, o, ops', Added(s1, nf, nb))
  {
    var make := OpNewField(nf, nb, 1, 1, 0, 0, 0, 0);
    NewFieldWorks(s1, o, nf, nb);
    ThenReached(s, o, ops, s1, make, Added(s1, nf, nb));
    ops' := ops + [make];
  }

  /** A new field of type `t`. */
  lemma TypedField(s: Store, o: Oracle, ops: seq<Op>, s1: Store, nf: Field, nb: array<char>, t: FieldType, b: Built)
    returns (ops': seq<Op>)
    requires Reached(s, o, ops, s1) && o(s1.mem.tick) != 0 && o(s1.mem.tick + 1) != 0
    requires t in s1.types && s1.fields[s1.dflt].typ == null
    requires nf !in s1.fields && NewBuffer(s1, nb) && nb.Length >= 2
    requires b == Make(Tree(s1.types, t), o, Added(s1, nf, nb).mem, 0) && b.err == 0
    ensures Reached(s, o, ops', Bind(Added(s1, nf, nb), nf, t, b.arg, b.mem))
  {
    ops' := WithField(s, o, ops, s1, nf, nb);
    var s2 := Added(s1, nf, nb);
    assert s1.dflt in s1.fields && nf != s1.dflt;
    SetTypeWorks(s2, o, nf, t, b);
    ThenReached(s, o, ops', s2, OpSetFieldType(nf, t), Bind(s2, nf, t, b.arg, b.mem));
    ops' := ops' + [OpSetFieldType(nf, t)];
  }

  // ---- Flags ---------------------------------------------------------------------

  /** A type that is linked with itself. */
  lemma SelfLinked(s: Store, o: Oracle, b: FieldType, l: FieldType) returns (ops: seq<Op>, s': Store)
    requires Initial(s) && Plenty(o) && b !in s.types && l !in s.types && b.birth < l.birth
    ensures Reached(s, o, ops, s') && b in s'.types && l in s'.types && b != l
    ensures s'.types[l].linked && !s'.types[l].hasArgs && s'.types[l].left == b
  {
    var s1;
    ops, s1 := BasicType(s, o, b);
    LinkTypesWorks(s1, o, l, b);
    var link := OpLinkFieldType(l, b, b);
    s' := Step(s1, o, link).store;
    ThenReached(s, o, ops, s1, link, s');
    ops := ops + [link];
  }

  /** A type is made, linked with itself, and then given arguments: the linked
      type does not learn of them. */
  lemma FlagsCanBreak(s: Store, o: Oracle, b: FieldType, l: FieldType) returns (ops: seq<Op>, s': Store)
    requires Initial(s) && Plenty(o) && b !in s.types && l !in s.types && b.birth < l.birth
    ensures Good(s) && FlagsInherited(s.types) && Runs(s, o, ops, s')
    ensures !FlagsInherited(s'.types)
  {
    var s2;
    ops, s2 := SelfLinked(s, o, b, l);
    var give := OpSetFieldTypeArg(b, true, false, false);
    s' := Step(s2, o, give).store;
    RunsThen(s, o, ops, s2, give, s');
    ops := ops + [give];
    assert TypeOk(s2.types, l);
    assert !FlagOk(s'.types, l);
  }

  // ---- Linked types with arguments -----------------------------------------------

  /** A field gets a type that is linked from a type with arguments: linking the
      field faults. */
  lemma LinkCanFault(s: Store, o: Oracle, b: FieldType, l: FieldType, f: Field, nf: Field, nb: array<char>)
    returns (ops: seq<Op>, s': Store)
    requires Initial(s) && Plenty(o) && b !in s.types && l !in s.types && b.birth < l.birth
    requires f !in s.fields && nf !in s.fields && nf != f && nb.Length >= 2
    ensures Good(s) && Runs(s, o, ops, s') && Good(s') && Enabled(s', OpLinkField(f, nf, 0, 0))
    ensures Step(s', o, OpLinkField(f, nf, 0, 0)) == Faulted
  {
    var s2;
    ops, s2 := LinkedWithArguments(s, o, b, l);
    ops, s' := PlainField(s, o, ops, s2, f, nb, l);
    LinkFaults(s', o, f, nf);
  }

  lemma PlainField(s: Store, o: Oracle, ops: seq<Op>, s1: Store, f: Field, nb: array<char>, t: FieldType)
    returns (ops': seq<Op>, s': Store)
    requires Reached(s, o, ops, s1) && Plenty(o) && t in s1.types && s1.fields[s1.dflt].typ == null
    requires f !in s1.fields && NewBuffer(s1, nb) && nb.Length >= 2
    ensures Reached(s, o, ops', s') && s'.fields.Keys == s1.fields.Keys + {f} && s'.dflt == s1.dflt && f != s'.dflt
    ensures s'.fields[f].typ == t && s'.types == Bump(s1.types, t, 1)
  {
    PlentyMakes(Tree(s1.types, t), o, Added(s1, f, nb).mem);
    var a := Make(Tree(s1.types, t), o, Added(s1, f, nb).mem, 0);
    ops' := TypedField(s, o, ops, s1, f, nb, t, a);
    s' := Bind(Added(s1, f, nb), f, t, a.arg, a.mem);
  }

  /** A type that is linked from a type with arguments. */
  lemma LinkedWithArguments(s: Store, o: Oracle, b: FieldType, l: FieldType) returns (ops: seq<Op>, s': Store)
    requires Initial(s) && Plenty(o) && b !in s.types && l !in s.types && b.birth < l.birth
    ensures Reached(s, o, ops, s') && l in s'.types && s'.types[l].linked && s'.types[l].hasArgs
    ensures s'.fields == s.fields && s'.rings == s.rings && s'.gone == s.gone && s'.dflt == s.dflt
  {
    var s1;
    ops, s1 := ArgumentType(s, o, b, false);
    LinkTypesWorks(s1, o, l, b);
    var link := OpLinkFieldType(l, b, b);
    s' := Step(s1, o, link).store;
    ThenReached(s, o, ops, s1, link, s');
    ops := ops + [link];
  }

  lemma LinkFaults(s: Store, o: Oracle, f: Field, nf: Field)
    requires Good(s) && Plenty(o) && f in s.fields && f != s.dflt && nf !in s.fields
    requires var t := s.fields[f].typ; t != null && t in s.types && s.types[t].linked && s.types[t].hasArgs
    ensures LinkField(s, o, f, nf, 0, 0) == Faulted
  {
    InvTick(s);
    Ringed(s, f);
    InvSplice(Tick(s), f, nf);
    var s1 := Splice(Tick(s), f, nf);
    CopyLinkedFaults(Tree(s1.types, s1.fields[f].typ), s1.fields[f].arg, o, s1.mem, 0);
    assert CopyType(s1, o, nf, f) == Faulted;
  }

  // ---- Arguments of users --------------------------------------------------------

  /** A new field `f` of the new basic type `b` holds the argument `x`, which was
      made once. */
  ghost predicate HoldsNew(s: Store, b: FieldType, freearg: bool, f: Field, nb: array<char>, x: UserArg)
  {
    && Good(s) && b in s.types && Tree(s.types, b) == Basic(b, true, false, freearg)
    && s.fields.Keys == {s.dflt, f} && f != s.dflt && s.fields[s.dflt].typ == null
    && s.fields[f] == FieldRec(f, b, User(x.p), nb, NEW_DIMS, false)
    && s.rings.Keys == {nb} && s.gone == []
    && x.typ == b && Made(s, x) == 1 && Shared(s, x) == 0 && Freed(s, x) == 0 && Dropped(s, x) == 0 && Held(s, x) == 1
  }

  lemma ArgumentField(s: Store, o: Oracle, b: FieldType, freearg: bool, f: Field, nb: array<char>)
    returns (ops: seq<Op>, s': Store, x: UserArg)
    requires Initial(s) && Enough(o, s.mem.tick, 4) && b !in s.types && f !in s.fields && nb.Length >= 2
    ensures Reached(s, o, ops, s') && s'.mem.tick == s.mem.tick + 4 && s'.dflt == s.dflt
    ensures HoldsNew(s', b, freearg, f, nb, x)
  {
    var s1, a;
    ops, s1 := ArgumentType(s, o, b, freearg);
    x, a := FirstArgument(s, o, b, freearg, s1, f, nb);
    ops := TypedField(s, o, ops, s1, f, nb, b, a);
    s' := Bind(Added(s1, f, nb), f, b, a.arg, a.mem);
    HeldOnce(s, o, ops, s', x);
    NewlyHeld(s, s1, Tree(s1.types, b), f, nb, x, a, s');
  }

  /** What a field of the new type will hold. */
  lemma FirstArgument(s: Store, o: Oracle, b: FieldType, freearg: bool, s1: Store, f: Field, nb: array<char>)
    returns (x: UserArg, a: Built)
    requires Initial(s) && Enough(o, s.mem.tick, 4) && b !in s.types && f !in s.fields
    requires s1 == Tick(s).(types := WithArgs(s.types[b := NEW_TYPE], b, false, freearg)) && TypesOk(s1.types)
    ensures o(s1.mem.tick) != 0 && o(s1.mem.tick + 1) != 0
    ensures b in s1.types && s1.dflt in s1.fields && s1.fields[s1.dflt].typ == null
    ensures f !in s1.fields && NewBuffer(s1, nb)
    ensures Tree(s1.types, b) == Basic(b, true, false, freearg)
    ensures a == Make(Tree(s1.types, b), o, Added(s1, f, nb).mem, 0) && a.err == 0 && a.mem.tick == s.mem.tick + 4
    ensures x.typ == b && a.arg == User(x.p) && Times(a.mem.made, x) == 1
    ensures a.mem.shared == [] && a.mem.freed == [] && a.mem.dropped == []
  {
    assert TypeOk(s1.types, b);
    var m := Added(s1, f, nb).mem;
    assert m == s.mem.(tick := s.mem.tick + 3);
    x := UserArg(b, o(m.tick));
    a := MakeOne(Tree(s1.types, b), o, m, x);
  }

  lemma NewlyHeld(s: Store, s1: Store, t: TypeTree, f: Field, nb: array<char>, x: UserArg, a: Built, s': Store)
    requires Initial(s) && s1 == Tick(s).(types := s1.types) && f !in s.fields && TypesOk(s1.types)
    requires t.Basic? && t.hasArgs && !t.hasCopy && t.typ in s1.types && t == Tree(s1.types, t.typ) && t.typ == x.typ
    requires s' == Bind(Added(s1, f, nb), f, t.typ, a.arg, a.mem) && a.arg == User(x.p) && Good(s')
    requires Made(s', x) == 1 && Shared(s', x) == 0 && Freed(s', x) == 0 && Dropped(s', x) == 0 && Held(s', x) == 1
    ensures HoldsNew(s', t.typ, t.hasFree, f, nb, x) && s'.dflt == s.dflt
  {
    TreeBump(s1.types, t.typ, 1, t.typ);
    BoundField(s, s1, f, nb, t.typ, a);
  }

  lemma HeldOnce(s: Store, o: Oracle, ops: seq<Op>, s': Store, x: UserArg)
    requires Reached(s, o, ops, s') && Made(s', x) == 1
    requires s'.mem.shared == [] && s'.mem.freed == [] && s'.mem.dropped == []
    ensures Shared(s', x) == 0 && Freed(s', x) == 0 && Dropped(s', x) == 0 && Held(s', x) == 1
  {
    ArgumentsConserved(s, o, ops, s', x);
  }

  /** The one call of makearg for a basic type. */
  lemma MakeOne(t: TypeTree, o: Oracle, m: Mem, x: UserArg) returns (b: Built)
    requires t.Basic? && t.hasArgs && t.typ == x.typ && x.p == o(m.tick) != 0
    requires m.made == [] && m.shared == [] && m.freed == [] && m.dropped == []
    ensures b == Make(t, o, m, 0) && b.err == 0 && b.arg == User(x.p) && b.mem.tick == m.tick + 1
    ensures Times(b.mem.made, x) == 1
    ensures b.mem.shared == [] && b.mem.freed == [] && b.mem.dropped == []
  {
    b := Make(t, o, m, 0);
    TimesAppend(m.made, Call(t, b.arg), x);
  }

  lemma BoundField(s: Store, s1: Store, f: Field, nb: array<char>, b: FieldType, a: Built)
    requires Initial(s) && f !in s.fields && b in s1.types
    requires s1.fields == s.fields && s1.rings == s.rings && s1.gone == s.gone && s1.dflt == s.dflt
    ensures var s' := Bind(Added(s1, f, nb), f, b, a.arg, a.mem);
            && s'.fields.Keys == {s.dflt, f} && s'.dflt == s.dflt && s'.fields[s.dflt].typ == null
            && s'.fields[f] == FieldRec(f, b, a.arg, nb, NEW_DIMS, false)
            && s'.rings.Keys == {nb} && s'.gone == []
  {
  }

  lemma LinkWorks(s: Store, o: Oracle, f: Field, nf: Field)
    requires Good(s) && o(s.mem.tick) != 0 && f in s.fields && f != s.dflt && nf !in s.fields && s.fields[f].arg.User?
    requires LiveType(s.types, s.fields[f].typ) && HandsOn(Tree(s.types, s.fields[f].typ))
    ensures var r := LinkField(s, o, f, nf, 0, 0); r.Ran? && r.status == Ok
  {
    InvTick(s);
    Ringed(s, f);
    InvSplice(Tick(s), f, nf);
    var s1 := Splice(Tick(s), f, nf);
    CopySucceedsIff(Tree(s1.types, s1.fields[f].typ), s1.fields[f].arg, o, s1.mem, 0);
    assert CopyType(s1, o, nf, f).Ran?;
  }

  lemma LinkedTwice(s: Store, o: Oracle, b: FieldType, f: Field, nf: Field, nb: array<char>, x: UserArg, s': Store)
    requires HoldsNew(s, b, true, f, nb, x) && nf !in s.fields && o(s.mem.tick) != 0
    requires LinkField(s, o, f, nf, 0, 0) == Ran(s', Ok)
    ensures Made(s', x) == 1 && Shared(s', x) == 1 && Dropped(s', x) == 0 && Freed(s', x) + Held(s', x) == 2
  {
    LinkShares(s, o, f, nf, 0, 0);
    LinkFieldSettles(s, o, f, nf, 0, 0, x);
    SharedOnce(s, s', Call(Tree(s.types, b), User(x.p)), x);
  }

  lemma SharedOnce(s: Store, s': Store, c: Call, x: UserArg)
    requires TypesOk(s.types) && Settles(s, s', x) && !Drops(s.types, x) && Is(c, x)
    requires s'.mem.made == s.mem.made && s'.mem.shared == s.mem.shared + [c]
    requires Made(s, x) == 1 && Shared(s, x) == 0 && Freed(s, x) == 0 && Dropped(s, x) == 0 && Held(s, x) == 1
    ensures Made(s', x) == 1 && Shared(s', x) == 1 && Dropped(s', x) == 0 && Freed(s', x) + Held(s', x) == 2
  {
    TimesAppend(s.mem.shared, c, x);
  }

  /** A field whose type has a freearg and no copyarg is linked, and both fields
      are freed: the one argument is passed to freearg twice, although it had been
      neither handed on nor dropped when the link was made. */
  lemma ArgumentFreedTwice(s: Store, o: Oracle, b: FieldType, f: Field, nf: Field, nb: array<char>)
    returns (ops: seq<Op>, s': Store, more: seq<Op>, s'': Store, x: UserArg)
    requires Initial(s) && Enough(o, s.mem.tick, 5) && b !in s.types
    requires f !in s.fields && nf !in s.fields && nf != f && nb.Length >= 2
    ensures Reached(s, o, ops, s') && Made(s', x) == 1 && Shared(s', x) == 0 && Dropped(s', x) == 0
    ensures Runs(s', o, more, s'') && Made(s'', x) == 1 && Freed(s'', x) == 2
  {
    ops, s', x := ArgumentField(s, o, b, true, f, nb);
    LinkWorks(s', o, f, nf);
    var link := OpLinkField(f, nf, 0, 0);
    var s1 := Step(s', o, link).store;
    LinkedTwice(s', o, b, f, nf, nb, x, s1);
    more, s'' := FreeAll(s1, o, x);
    RunsCons(s', o, link, s1, more, s'');
    more := [link] + more;
  }

  /** A type in use loses its freearg before the field is freed: the argument is
      neither freed nor held. */
  lemma ArgumentLost(s: Store, o: Oracle, b: FieldType, f: Field, nb: array<char>)
    returns (ops: seq<Op>, s': Store, x: UserArg)
    requires Initial(s) && Enough(o, s.mem.tick, 4) && b !in s.types && f !in s.fields && nb.Length >= 2
    ensures Reached(s, o, ops, s')
    ensures Made(s', x) == 1 && Freed(s', x) == 0 && Held(s', x) == 0
  {
    var s2;
    ops, s2, x := ArgumentField(s, o, b, true, f, nb);
    var take := OpSetFieldTypeArg(b, true, false, false);
    var s3 := Step(s2, o, take).store;
    ThenReached(s, o, ops, s2, take, s3);
    SetFieldTypeArgAccount(s2, b, true, false, false, x);
    s' := Release(s3, f);
    ReleaseSettles(s3, f, x);
    ReleaseLeaves(s3, f);
    ThenReached(s, o, ops + [take], s3, OpFreeField(f), s');
    NothingHeld(s', x);
    ops := ops + [take] + [OpFreeField(f)];
  }

  lemma ReleaseLeaves(s: Store, f: Field)
    requires Good(s) && s.fields.Keys == {s.dflt, f} && f != s.dflt
    requires s.fields[s.dflt].typ == null && s.fields[f].link == f
    ensures var s' := Release(s, f); s'.dflt == s.dflt && s'.fields.Keys == {s.dflt} && s'.fields[s.dflt].typ == null
  {
    ReleaseReady(s, f);
    assert s.fields.Keys - {f} == {s.dflt};
  }

  /** dup_field hands the argument on and then gets no buffer: it passes the
      argument to freearg while the original still holds it. */
  lemma FailedDupFrees(s: Store, o: Oracle, b: FieldType, f: Field, nf: Field, nb: array<char>, nb': array<char>)
    returns (ops: seq<Op>, s': Store, x: UserArg)
    requires Initial(s) && Enough(o, s.mem.tick, 5) && o(s.mem.tick + 5) == 0 && b !in s.types
    requires f !in s.fields && nf !in s.fields && nf != f && nb.Length >= 2 && nb'.Length >= 2 && nb' != nb
    ensures Reached(s, o, ops, s') && Enabled(s', OpDupField(f, nf, nb', 0, 0))
    ensures var r := Step(s', o, OpDupField(f, nf, nb', 0, 0));
            && r.Ran? && r.status == SystemError
            && Made(r.store, x) == 1 && Freed(r.store, x) == 1 && Held(r.store, x) == 1
  {
    ops, s', x := ArgumentField(s, o, b, true, f, nb);
    NewSizes();
    DupFails(s', o, nf, f, nb');
    FailedCreateReleases(s', o, nf, f, NEW_DIMS, nb', x);
  }

  lemma DupFails(s: Store, o: Oracle, nf: Field, f: Field, nb: array<char>)
    requires Good(s) && o(s.mem.tick) != 0 && o(s.mem.tick + 1) == 0
    requires f in s.fields && f != s.dflt && nf !in s.fields && s.fields[f].arg.User?
    requires NewBuffer(s, nb) && nb.Length >= TotalSize(s.fields[f].dims)
    requires LiveType(s.types, s.fields[f].typ) && HandsOn(Tree(s.types, s.fields[f].typ))
    ensures var r := Create(s, o, nf, f, s.fields[f].dims, nb); r.Ran? && r.status == SystemError
  {
    InsertReady(s, nf, s.fields[f].dims, nb);
    var s1 := Insert(Tick(s), nf, s.fields[f].dims);
    CopySucceedsIff(Tree(s1.types, s1.fields[f].typ), s1.fields[f].arg, o, s1.mem, 0);
    assert CopyType(s1, o, nf, f).Ran?;
  }
}
