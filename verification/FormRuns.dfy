/** What holds in every run of the form library, with allocation failing anywhere. */
module FormRuns {
  import opened Collections
  import opened FieldTypes
  import opened ArgumentTrees
  import opened FormStore
  import opened FormInvariant
  import opened FormRoutines

  // ---- Runs ----------------------------------------------------------------

  /** A call, with the addresses that its allocations would return. */
  datatype Op =
    | OpNewField(nf: Field, nb: array<char>, rows: int, cols: int, frow: int, fcol: int, nrow: int, nbuf: int)
    | OpDupField(f: Field?, nf: Field, nb: array<char>, frow: int, fcol: int)
    | OpLinkField(f: Field?, nf: Field, frow: int, fcol: int)
    | OpFreeField(f: Field?)
    | OpSetFieldType(f: Field?, t: FieldType?)
    | OpSetConnected(g: Field, c: bool)
    | OpNewFieldType(nt: FieldType, hasCheck: bool)
    | OpLinkFieldType(nt: FieldType, t1: FieldType?, t2: FieldType?)
    | OpSetFieldTypeArg(t: FieldType?, makearg: bool, copyarg: bool, freearg: bool)
    | OpFreeFieldType(t: FieldType?)

  predicate Good(s: Store)
  {
    Inv(s) && AllBuffered(s, null)
  }

  /** A pointer that a caller may pass: null or a live field that it created. */
  predicate UserField(s: Store, f: Field?)
  {
    f == null || (f in s.fields && f != s.dflt)
  }

  /** Pointers are null or live, and allocations return new addresses. */
  predicate Enabled(s: Store, op: Op)
  {
    match op
    case OpNewField(nf, nb, rows, cols, _, _, nrow, nbuf) =>
      nf !in s.fields && NewBuffer(s, nb) && nb.Length >= TotalSize(Dims(rows + nrow, cols, ToShort(nbuf)))
    case OpDupField(f, nf, nb, _, _) =>
      UserField(s, f) && nf !in s.fields && NewBuffer(s, nb) && (f != null ==> nb.Length >= TotalSize(s.fields[f].dims))
    case OpLinkField(f, nf, _, _) => UserField(s, f) && nf !in s.fields
    case OpFreeField(f) => UserField(s, f)
    case OpSetFieldType(f, t) => UserField(s, f) && LiveType(s.types, t)
    case OpSetConnected(g, _) => g in s.fields && g != s.dflt
    case OpNewFieldType(nt, _) => nt !in s.types
    case OpLinkFieldType(nt, t1, t2) =>
      && nt !in s.types && LiveType(s.types, t1) && LiveType(s.types, t2)
      && (t1 != null ==> t1.birth < nt.birth) && (t2 != null ==> t2.birth < nt.birth)
    case OpSetFieldTypeArg(t, _, _, _) => LiveType(s.types, t)
    case OpFreeFieldType(t) => LiveType(s.types, t)
  }

  function Step(s: Store, o: Oracle, op: Op): (r: Outcome)
    requires Good(s) && Enabled(s, op)
    ensures r.Ran? ==> Good(r.store)
  {
    match op
    case OpNewField(nf, nb, rows, cols, frow, fcol, nrow, nbuf) =>
      NewField(s, o, nf, nb, rows, cols, frow, fcol, nrow, nbuf)
    case OpDupField(f, nf, nb, frow, fcol) => DupField(s, o, f, nf, nb, frow, fcol)
    case OpLinkField(f, nf, frow, fcol) => LinkField(s, o, f, nf, frow, fcol)
    case OpFreeField(f) => FreeField(s, f)
    case OpSetFieldType(f, t) => SetFieldType(s, o, f, t)
    case OpSetConnected(g, c) => SetConnected(s, g, c)
    case OpNewFieldType(nt, hasCheck) => NewFieldType(s, o, nt, hasCheck)
    case OpLinkFieldType(nt, t1, t2) => LinkFieldType(s, o, nt, t1, t2)
    case OpSetFieldTypeArg(t, makearg, copyarg, freearg) => SetFieldTypeArg(s, t, makearg, copyarg, freearg)
    case OpFreeFieldType(t) => FreeFieldType(s, t)
  }

  /** The calls `ops`, made in order, all return and lead from `s` to `s'`. */
  ghost predicate Runs(s: Store, o: Oracle, ops: seq<Op>, s': Store)
    requires Good(s)
    decreases |ops|
  {
    if ops == [] then s' == s
    else Enabled(s, ops[0]) && Step(s, o, ops[0]).Ran? && Runs(Step(s, o, ops[0]).store, o, ops[1..], s')
  }

  /** Before the first call: the default field, unused built-in types, no buffers. */
  predicate Initial(s: Store)
  {
    && s.fields.Keys == {s.dflt}
    && s.fields[s.dflt] == FieldRec(null, null, Null, null, Dims(0, 0, 0), false)
    && (forall t :: t in s.types ==> !s.types[t].linked && s.types[t].ref == 0)
    && s.rings == map[] && s.gone == [] && s.bufAllocs == 0
    && s.mem == Mem(s.mem.tick, {}, [], [], [], [], s.mem.released)
  }

  lemma InitialGood(s: Store)
    requires Initial(s)
    ensures Good(s)
  {
    forall t | t in s.types ensures RefOk(s, t) {
      assert Holders(s.fields, t) == {} && LeftUsers(s.types, t) == {} && RightUsers(s.types, t) == {};
    }
    forall f | f in s.fields ensures HolderOk(s.types, s.fields, f) {
    }
  }

  /** The invariant holds after every run. */
  lemma {:induction false} RunsKeepInvariant(s: Store, o: Oracle, ops: seq<Op>, s': Store)
    requires Good(s) && Runs(s, o, ops, s')
    ensures Good(s')
    decreases |ops|
  {
    if ops != [] {
      RunsKeepInvariant(Step(s, o, ops[0]).store, o, ops[1..], s');
    }
  }

  // ---- Reference counts ----------------------------------------------------

  /** In every reachable state each count is the number of fields of the type
      plus the number of operand slots that name it, and nothing dangles. */
  lemma CountsExactInEveryRun(s: Store, o: Oracle, ops: seq<Op>, s': Store)
    requires Initial(s) && Good(s) && Runs(s, o, ops, s')
    ensures forall t :: t in s'.types ==> s'.types[t].ref == Uses(s', t)
    ensures forall f :: f in s'.fields ==> LiveType(s'.types, s'.fields[f].typ)
    ensures forall t :: t in s'.types && s'.types[t].linked ==>
              s'.types[t].left in s'.types && s'.types[t].right in s'.types
  {
    RunsKeepInvariant(s, o, ops, s');
    forall t | t in s'.types ensures s'.types[t].ref == Uses(s', t) {
      assert RefOk(s', t);
    }
    FieldTypesLive(s');
    forall t | t in s'.types && s'.types[t].linked
      ensures s'.types[t].left in s'.types && s'.types[t].right in s'.types
    {
      assert TypeOk(s'.types, t);
    }
  }

  /** free_fieldtype succeeds exactly on a type that nothing uses and that is
      not built in. */
  lemma FreeTypeIffUnused(s: Store, t: FieldType?)
    requires Good(s) && LiveType(s.types, t)
    ensures FreeFieldType(s, t).status == Ok <==>
            t != null && !s.types[t].resident
            && (forall f :: f in s.fields ==> s.fields[f].typ != t)
            && (forall u :: u in s.types && s.types[u].linked ==> s.types[u].left != t && s.types[u].right != t)
  {
    if t != null {
      assert RefOk(s, t);
      if s.types[t].ref == 0 {
        assert Holders(s.fields, t) == {} && LeftUsers(s.types, t) == {} && RightUsers(s.types, t) == {};
        forall f | f in s.fields ensures s.fields[f].typ != t {
          assert f !in Holders(s.fields, t);
        }
        forall u | u in s.types && s.types[u].linked ensures s.types[u].left != t && s.types[u].right != t {
          assert u !in LeftUsers(s.types, t) && u !in RightUsers(s.types, t);
        }
      } else if f :| f in Holders(s.fields, t) {
        assert s.fields[f].typ == t;
      } else if u :| u in LeftUsers(s.types, t) {
        assert s.types[u].left == t;
      } else if u :| u in RightUsers(s.types, t) {
        assert s.types[u].right == t;
      }
    }
  }

  // ---- Rings ---------------------------------------------------------------

  /** `n` steps along `link` lead from `f` to `g`. */
  predicate Follows(fields: Fields, f: Field?, g: Field, n: nat)
  {
    if n == 0 then f == g
    else f != null && f in fields && Follows(fields, fields[f].link, g, n - 1)
  }

  function Walk(i: nat, n: nat, len: nat): (j: nat)
    requires i < len
    ensures j < len
    decreases n
  {
    if n == 0 then i else Walk(Next(i, len), n - 1, len)
  }

  lemma {:induction false} WalkValue(i: nat, n: nat, len: nat)
    requires i < len && n <= len
    ensures Walk(i, n, len) == if i + n < len then i + n else i + n - len
    decreases n
  {
    if n > 0 {
      WalkValue(Next(i, len), n - 1, len);
    }
  }

  lemma {:induction false} RingWalk(fields: Fields, b: array<char>, ring: seq<Field>, i: nat, n: nat, g: Field)
    requires RingShape(fields, b, ring) && i < |ring|
    ensures Follows(fields, ring[i], g, n) <==> g == ring[Walk(i, n, |ring|)]
    decreases n
  {
    if n > 0 {
      assert Member(fields, b, ring, i);
      RingWalk(fields, b, ring, Next(i, |ring|), n - 1, g);
    }
  }

  /** The links partition the fields into finite cycles, one for each buffer:
      two fields lie on one cycle exactly when they share a buffer, and the
      cycle of `f` closes after as many steps as the buffer has fields. */
  lemma RingsAreCycles(s: Store, f: Field, g: Field)
    requires Good(s) && f in s.fields && f != s.dflt && g in s.fields
    ensures s.fields[f].buf == s.fields[g].buf <==> exists n :: Follows(s.fields, f, g, n)
    ensures InRing(s, f)
    ensures var len := |s.rings[s.fields[f].buf]|;
            Follows(s.fields, f, f, len) && forall n :: 0 < n < len ==> !Follows(s.fields, f, f, n)
  {
    Ringed(s, f);
    var b := s.fields[f].buf;
    var ring := s.rings[b];
    assert RingShape(s.fields, b, ring);
    var i := IndexOf(ring, f);
    if s.fields[g].buf == b {
      assert Placed(s, g);
      var j := IndexOf(ring, g);
      var n := if j < i then j - i + |ring| else j - i;
      WalkValue(i, n, |ring|);
      RingWalk(s.fields, b, ring, i, n, g);
    }
    if n :| Follows(s.fields, f, g, n) {
      RingWalk(s.fields, b, ring, i, n, g);
      assert Member(s.fields, b, ring, Walk(i, n, |ring|));
    }
    forall n | 0 < n <= |ring| ensures Follows(s.fields, f, f, n) <==> n == |ring| {
      WalkValue(i, n, |ring|);
      RingWalk(s.fields, b, ring, i, n, f);
    }
  }

  // ---- Buffers -------------------------------------------------------------

  /** free_field frees the buffer exactly when no other field shares it. */
  lemma BufferGoesWithLastField(s: Store, f: Field)
    requires Good(s) && f in s.fields && f != s.dflt && !s.fields[f].connected
    ensures var s' := FreeField(s, f).store;
            && s'.gone == s.gone + (if exists g :: g in s.fields && g != f && s.fields[g].buf == s.fields[f].buf
                                    then [] else [s.fields[f].buf])
            && s'.rings.Keys == s.rings.Keys - (set b | b in s'.gone && b !in s.gone)
  {
    Ringed(s, f);
    ReleaseReady(s, f);
    AloneIffNoneShares(s, f);
    BufferAfterRemove(Detach(s, f), f);
  }

  lemma AloneIffNoneShares(s: Store, f: Field)
    requires RingPart(s) && f in s.fields && InRing(s, f)
    ensures s.fields[f].link == f <==> !exists g :: g in s.fields && g != f && s.fields[g].buf == s.fields[f].buf
  {
    var b := s.fields[f].buf;
    assert RingShape(s.fields, b, s.rings[b]);
    PredFacts(s, f);
    if s.fields[f].link == f {
      forall g | g in s.fields && g != f ensures s.fields[g].buf != b {
        assert Placed(s, g);
      }
    } else {
      var g := Pred(s, f);
      assert g in s.fields && g != f && s.fields[g].buf == b;
    }
  }

  lemma BufferAfterRemove(s: Store, f: Field)
    requires f in s.fields && InRing(s, f) && CanUnlink(s, f) && BuffersOk(s)
    ensures var s' := Remove(s, f);
            && s'.gone == s.gone + (if s.fields[f].link == f then [s.fields[f].buf] else [])
            && s'.rings.Keys == s.rings.Keys - (set b | b in s'.gone && b !in s.gone)
  {
    assert s.gone + [] == s.gone;
  }

  /** Over any run, the buffers allocated are those freed, each once, and those
      that some live ring still has. */
  lemma BuffersConserved(s: Store, o: Oracle, ops: seq<Op>, s': Store)
    requires Initial(s) && Good(s) && Runs(s, o, ops, s')
    ensures s'.bufAllocs == |s'.gone| + |s'.rings|
    ensures NoDup(s'.gone) && (forall b :: b in s'.gone ==> b !in s'.rings)
    ensures s'.rings.Keys == set f | f in s'.fields && f != s'.dflt :: s'.fields[f].buf
  {
    RunsKeepInvariant(s, o, ops, s');
    var used := set f | f in s'.fields && f != s'.dflt :: s'.fields[f].buf;
    forall b | b in s'.rings ensures b in used {
      assert RingShape(s'.fields, b, s'.rings[b]);
      assert Member(s'.fields, b, s'.rings[b], 0);
      assert s'.rings[b][0] in s'.fields && s'.rings[b][0] != s'.dflt;
    }
    forall f | f in s'.fields && f != s'.dflt ensures s'.fields[f].buf in s'.rings {
      Ringed(s', f);
    }
  }

  /** Over any run, every live pair node belongs to exactly one live field. */
  lemma PairNodesOwnedOnce(s: Store, o: Oracle, ops: seq<Op>, s': Store, k: nat)
    requires Initial(s) && Good(s) && Runs(s, o, ops, s')
    ensures k in s'.mem.pairs <==> exists f :: f in s'.fields && k in NodesOf(s'.fields, f)
    ensures forall f, g :: f in s'.fields && g in s'.fields ==>
              (k in NodesOf(s'.fields, f) && k in NodesOf(s'.fields, g) ==> f == g)
  {
    RunsKeepInvariant(s, o, ops, s');
    if k in s'.mem.pairs {
      assert NodeOwned(s'.fields, k);
    }
    if f :| f in s'.fields && k in NodesOf(s'.fields, f) {
      assert ArgOk(s', f);
    }
  }

  // ---- Successful calls ----------------------------------------------------

  /** A field that link_field returns comes next after the original and shares
      its buffer, size and type; no other field changes and no buffer is made. */
  lemma LinkedFieldComesNext(s: Store, o: Oracle, f: Field?, nf: Field, frow: int, fcol: int)
    requires Good(s) && UserField(s, f) && nf !in s.fields
    ensures var r := LinkField(s, o, f, nf, frow, fcol);
            r.Ran? && r.status == Ok ==>
              && f != null && r.store.fields.Keys == s.fields.Keys + {nf}
              && r.store.fields[f] == s.fields[f].(link := nf)
              && r.store.fields[nf] == s.fields[f].(arg := r.store.fields[nf].arg, connected := false)
              && (forall g :: g in s.fields && g != f ==> r.store.fields[g] == s.fields[g])
              && r.store.gone == s.gone && r.store.bufAllocs == s.bufAllocs
  {
    if f != null && frow >= 0 && fcol >= 0 && o(s.mem.tick) != 0 {
      InvTick(s);
      Ringed(s, f);
      LinkNewComesNext(Tick(s), o, f, nf);
    }
  }

  lemma LinkNewComesNext(s: Store, o: Oracle, f: Field, nf: Field)
    requires Inv(s) && InRing(s, f) && nf !in s.fields
    ensures var r := LinkNew(s, o, f, nf);
            r.Ran? && r.status == Ok ==>
              && r.store.fields.Keys == s.fields.Keys + {nf}
              && r.store.fields[f] == s.fields[f].(link := nf)
              && r.store.fields[nf] == s.fields[f].(arg := r.store.fields[nf].arg, connected := false)
              && (forall g :: g in s.fields && g != f ==> r.store.fields[g] == s.fields[g])
              && r.store.gone == s.gone && r.store.bufAllocs == s.bufAllocs
  {
    InvSplice(s, f, nf);
    var c := CopyType(Splice(s, f, nf), o, nf, f);
  }

  /** A field that new_field or dup_field returns is a ring of its own with the
      new buffer, and nothing else changes but the count of its type. */
  lemma CreatedFieldStandsAlone(s: Store, o: Oracle, nf: Field, src: Field, d: Dims, nb: array<char>)
    requires Good(s) && nf !in s.fields && src in s.fields && NewBuffer(s, nb) && nb.Length >= TotalSize(d)
    ensures var r := Create(s, o, nf, src, d, nb);
            r.Ran? && r.status == Ok ==>
              && nf in r.store.fields
              && r.store.fields == s.fields[nf := FieldRec(nf, s.fields[src].typ, r.store.fields[nf].arg, nb, d, false)]
              && r.store.rings == s.rings[nb := [nf]]
              && r.store.gone == s.gone && r.store.bufAllocs == s.bufAllocs + 1
  {
    if o(s.mem.tick) != 0 {
      InsertReady(s, nf, d, nb);
      var s1 := Insert(Tick(s), nf, d);
      var r := Finish(s1, o, nf, src, nb);
      FinishedStandsAlone(s1, o, nf, src, nb);
      if r.Ran? && r.status == Ok {
        SetTwice(s.fields, nf, s1.fields[nf], r.store.fields[nf]);
      }
    }
  }

  lemma SetTwice(fields: Fields, f: Field, a: FieldRec, b: FieldRec)
    ensures fields[f := a][f := b] == fields[f := b]
  {
  }

  lemma FinishedStandsAlone(s: Store, o: Oracle, nf: Field, src: Field, nb: array<char>)
    requires Inv(s) && nf in s.fields && nf != s.dflt && src in s.fields
    requires s.fields[nf] == FieldRec(nf, null, Null, null, s.fields[nf].dims, false)
    requires AllBuffered(s, nf) && NewBuffer(s, nb) && nb.Length >= TotalSize(s.fields[nf].dims)
    ensures var r := Finish(s, o, nf, src, nb);
            r.Ran? && r.status == Ok ==>
              && nf in r.store.fields
              && r.store.fields == s.fields[nf := s.fields[nf].(typ := s.fields[src].typ,
                                                                arg := r.store.fields[nf].arg, buf := nb)]
              && r.store.rings == s.rings[nb := [nf]]
              && r.store.gone == s.gone && r.store.bufAllocs == s.bufAllocs + 1
  {
    var c := CopyType(s, o, nf, src);
  }

  /** free_field closes the ring over the gap: only the field before changes. */
  lemma FreedFieldLeavesRing(s: Store, f: Field)
    requires Good(s) && f in s.fields && f != s.dflt && !s.fields[f].connected
    ensures var s' := FreeField(s, f).store;
            && s'.fields.Keys == s.fields.Keys - {f}
            && forall g :: g in s'.fields ==>
                 s'.fields[g] == if s.fields[g].link == f then s.fields[g].(link := s.fields[f].link) else s.fields[g]
  {
    Ringed(s, f);
    var b := s.fields[f].buf;
    assert RingShape(s.fields, b, s.rings[b]);
    PredFacts(s, f);
    InvDetach(s, f);
    InvRemove(Detach(s, f), f);
    var s' := FreeField(s, f).store;
    forall g | g in s'.fields
      ensures s'.fields[g] == if s.fields[g].link == f then s.fields[g].(link := s.fields[f].link) else s.fields[g]
    {
      OnlyPredecessor(s, f, g);
    }
  }

  /** One field links to `f`. */
  lemma OnlyPredecessor(s: Store, f: Field, g: Field)
    requires Good(s) && f in s.fields && f != s.dflt && g in s.fields && g != f
    ensures InRing(s, f) && (s.fields[g].link == f <==> s.fields[f].link != f && g == Pred(s, f))
  {
    Ringed(s, f);
    var b := s.fields[f].buf;
    var ring := s.rings[b];
    assert RingShape(s.fields, b, ring);
    PredFacts(s, f);
    if s.fields[g].link == f {
      Ringed(s, g);
      var b' := s.fields[g].buf;
      var ring' := s.rings[b'];
      assert RingShape(s.fields, b', ring');
      var i := IndexOf(ring', g);
      assert Member(s.fields, b', ring', i) && Member(s.fields, b', ring', Next(i, |ring'|));
      assert b' == b && ring[Next(i, |ring|)] == f;
    }
  }

  // ---- Failed calls --------------------------------------------------------

  lemma ReleaseSpliced(s: Store, f: Field, nf: Field, m: Mem)
    requires Inv(s) && InRing(s, f) && nf !in s.fields
    requires Inv(Splice(s, f, nf).(mem := m)) && m.pairs == s.mem.pairs
    ensures nf != s.dflt && SameHeap(s, Release(Splice(s, f, nf).(mem := m), nf))
  {
    var s1 := Splice(s, f, nf).(mem := m);
    RemoveUndoesSplice(s, f, nf);
    InvDetach(s1, nf);
    assert Detach(s1, nf) == s1 by {
      assert s1.fields[nf := s1.fields[nf]] == s1.fields;
    }
    InvRemove(s1, nf);
    assert Remove(s1, nf) == Remove(Splice(s, f, nf), nf).(mem := m);
  }

  /** A failed link_field leaves every field, type, ring and pair node as it was,
      although the new field had already been spliced into the ring. */
  lemma LinkFieldRollsBack(s: Store, o: Oracle, f: Field?, nf: Field, frow: int, fcol: int)
    requires Good(s) && UserField(s, f) && nf !in s.fields
    ensures var r := LinkField(s, o, f, nf, frow, fcol);
            r.Ran? && r.status != Ok ==> SameHeap(s, r.store)
  {
    if f != null && frow >= 0 && fcol >= 0 && o(s.mem.tick) != 0 {
      InvTick(s);
      Ringed(s, f);
      InvSplice(Tick(s), f, nf);
      var s1 := Splice(Tick(s), f, nf);
      var c := CopyType(s1, o, nf, f);
      assert LinkField(s, o, f, nf, frow, fcol) == LinkNew(Tick(s), o, f, nf);
      if c.Ran? && c.status != Ok {
        ReleaseSpliced(Tick(s), f, nf, c.store.mem);
      }
    }
  }

  /** `s1` is `s` with the new field `nf`, which has a type but no ring yet. */
  predicate Pending(s: Store, s1: Store, nf: Field)
  {
    && nf !in s.fields && nf in s1.fields
    && var r := s1.fields[nf];
    && LiveType(s.types, r.typ) && r.link == nf && r.buf == null && !r.arg.Pair?
    && s1 == s.(fields := s.fields[nf := r], types := Bump(s.types, r.typ, 1), mem := s1.mem)
    && s1.mem.pairs == s.mem.pairs
  }

  lemma CopiedIsPending(s: Store, o: Oracle, nf: Field, d: Dims, src: Field)
    requires Inv(s) && nf !in s.fields && src in s.fields && Inv(Insert(s, nf, d))
    ensures var c := CopyType(Insert(s, nf, d), o, nf, src); c.Ran? ==> Pending(s, c.store, nf)
  {
    var c := CopyType(Insert(s, nf, d), o, nf, src);
    if c.Ran? && c.status == Ok {
      SetTwice(s.fields, nf, Insert(s, nf, d).fields[nf], c.store.fields[nf]);
    }
  }

  /** Releasing a field that has a copied type but no ring undoes both. */
  lemma ReleaseUnringed(s: Store, s1: Store, nf: Field)
    requires Inv(s) && Inv(s1) && Pending(s, s1, nf)
    ensures nf != s.dflt && SameHeap(s, Release(s1, nf))
  {
    InvDetach(s1, nf);
    TakenBack(s, s1, nf);
  }

  lemma TakenBack(s: Store, s1: Store, nf: Field)
    requires Pending(s, s1, nf) && CanDetach(s1, nf)
    ensures SameHeap(s, Remove(Detach(s1, nf), nf))
  {
    var r := s1.fields[nf];
    FreeEffect(Tree(s1.types, r.typ), r.arg, s1.mem);
    assert Bump(Bump(s.types, r.typ, 1), r.typ, -1) == s.types;
    assert Remove(Detach(s1, nf), nf).fields == s.fields;
  }

  lemma FinishRollsBack(s: Store, o: Oracle, nf: Field, d: Dims, src: Field, nb: array<char>)
    requires Good(s) && nf !in s.fields && src in s.fields && NewBuffer(s, nb) && nb.Length >= TotalSize(d)
    requires Inv(Insert(s, nf, d))
    ensures var r := Finish(Insert(s, nf, d), o, nf, src, nb);
            r.Ran? && r.status != Ok ==> SameHeap(s, r.store)
  {
    var s1 := Insert(s, nf, d);
    var c := CopyType(s1, o, nf, src);
    CopiedIsPending(s, o, nf, d, src);
    if c.Ran? && c.status != Ok {
      ReleaseUnringed(s, c.store, nf);
    } else if c.Ran? {
      BufferedRollsBack(s, c.store, o, nf, nb);
    }
  }

  lemma BufferedRollsBack(s: Store, s1: Store, o: Oracle, nf: Field, nb: array<char>)
    requires Inv(s) && Inv(s1) && Pending(s, s1, nf) && nf != s1.dflt && AllBuffered(s1, nf)
    requires NewBuffer(s1, nb) && nb.Length >= TotalSize(s1.fields[nf].dims)
    ensures var r := Buffered(s1, o, nf, nb); r.status != Ok ==> SameHeap(s, r.store)
  {
    InvTick(s1);
    if o(s1.mem.tick) == 0 || TotalSize(s1.fields[nf].dims) < 0 {
      ReleaseUnringed(s, Tick(s1), nf);
    }
  }

  lemma CreateRollsBack(s: Store, o: Oracle, nf: Field, src: Field, d: Dims, nb: array<char>)
    requires Good(s) && nf !in s.fields && src in s.fields && NewBuffer(s, nb) && nb.Length >= TotalSize(d)
    ensures var r := Create(s, o, nf, src, d, nb);
            r.Ran? && r.status != Ok ==> SameHeap(s, r.store)
  {
    InvTick(s);
    InvInsert(Tick(s), nf, d);
    FinishRollsBack(Tick(s), o, nf, d, src, nb);
  }

  /** So do a failed new_field and a failed dup_field. */
  lemma NewFieldRollsBack(s: Store, o: Oracle, nf: Field, nb: array<char>,
                          rows: int, cols: int, frow: int, fcol: int, nrow: int, nbuf: int)
    requires Good(s) && Enabled(s, OpNewField(nf, nb, rows, cols, frow, fcol, nrow, nbuf))
    ensures var r := NewField(s, o, nf, nb, rows, cols, frow, fcol, nrow, nbuf);
            r.Ran? && r.status != Ok ==> SameHeap(s, r.store)
  {
    CreateRollsBack(s, o, nf, s.dflt, Dims(rows + nrow, cols, ToShort(nbuf)), nb);
  }

  lemma DupFieldRollsBack(s: Store, o: Oracle, f: Field?, nf: Field, nb: array<char>, frow: int, fcol: int)
    requires Good(s) && Enabled(s, OpDupField(f, nf, nb, frow, fcol))
    ensures var r := DupField(s, o, f, nf, nb, frow, fcol);
            r.Ran? && r.status != Ok ==> SameHeap(s, r.store)
  {
    if f != null {
      CreateRollsBack(s, o, nf, f, s.fields[f].dims, nb);
    }
  }

  lemma LinkedTypeNotCopied(s: Store, o: Oracle, dst: Field, src: Field)
    requires Inv(s) && src in s.fields && dst in s.fields && s.fields[dst].typ == null && s.fields[dst].arg == Null
    requires var t := s.fields[src].typ; t != null && t in s.types && s.types[t].linked && s.types[t].hasArgs
    ensures var c := CopyType(s, o, dst, src); c.Faulted? || c.status == SystemError
  {
    assert HolderOk(s.types, s.fields, src);
    CopyLinkedNeverSucceeds(Tree(s.types, s.fields[src].typ), s.fields[src].arg, o, s.mem, 0);
  }

  /** A field whose type is linked and has arguments can be neither linked nor
      duplicated: the call fails or faults. */
  lemma LinkedTypeNeverShared(s: Store, o: Oracle, f: Field, nf: Field, nb: array<char>, frow: int, fcol: int)
    requires Good(s) && Enabled(s, OpDupField(f, nf, nb, frow, fcol))
    requires var t := s.fields[f].typ; t != null && t in s.types && s.types[t].linked && s.types[t].hasArgs
    ensures var r := LinkField(s, o, f, nf, frow, fcol); r.Ran? ==> r.status != Ok
    ensures var r := DupField(s, o, f, nf, nb, frow, fcol); r.Ran? ==> r.status != Ok
  {
    InvTick(s);
    Ringed(s, f);
    InvSplice(Tick(s), f, nf);
    LinkedTypeNotCopied(Splice(Tick(s), f, nf), o, nf, f);
    InvInsert(Tick(s), nf, s.fields[f].dims);
    LinkedTypeNotCopied(Insert(Tick(s), nf, s.fields[f].dims), o, nf, f);
  }

  // ---- Argument flags ------------------------------------------------------

  predicate FlagOk(types: Types, t: FieldType)
    requires t in types
  {
    && types[t].linked
    && types[t].left != null && types[t].left in types && types[t].right != null && types[t].right in types ==>
      (types[t].hasArgs <==> types[types[t].left].hasArgs || types[types[t].right].hasArgs)
  }

  /** A linked type has arguments exactly when an operand has. */
  predicate FlagsInherited(types: Types)
  {
    forall t {:trigger FlagOk(types, t)} :: t in types ==> FlagOk(types, t)
  }

  lemma {:induction false} FlagsInTree(types: Types, t: FieldType?)
    requires TypesOk(types) && FlagsInherited(types) && LiveType(types, t)
    ensures FlagsOk(Tree(types, t))
    decreases if t == null then 0 else t.birth + 1
  {
    if t != null {
      assert TypeOk(types, t) && FlagOk(types, t);
      if types[t].linked {
        FlagsInTree(types, types[t].left);
        FlagsInTree(types, types[t].right);
      }
    }
  }

  /** Attaching arguments to `t` changes no flag above it. */
  predicate SafeArg(types: Types, t: FieldType)
    requires t in types
  {
    types[t].hasArgs ||
    (!types[t].linked &&
     forall u :: u in types && types[u].linked && (types[u].left == t || types[u].right == t) ==> types[u].hasArgs)
  }

  /** set_fieldtype_arg keeps the inheritance of flags exactly when it is safe:
      on a basic type, before a type without arguments is linked to it. */
  lemma ArgKeepsFlagsIff(types: Types, t: FieldType, copyarg: bool, freearg: bool)
    requires TypesOk(types) && FlagsInherited(types) && t in types
    ensures FlagsInherited(WithArgs(types, t, copyarg, freearg)) <==> SafeArg(types, t)
  {
    var types' := WithArgs(types, t, copyarg, freearg);
    assert TypeOk(types, t) && FlagOk(types, t);
    if SafeArg(types, t) {
      forall u | u in types' ensures FlagOk(types', u) {
        assert TypeOk(types, u) && FlagOk(types, u);
      }
    } else if types[t].linked {
      assert !FlagOk(types', t);
    } else {
      var u :| u in types && types[u].linked && (types[u].left == t || types[u].right == t) && !types[u].hasArgs;
      assert TypeOk(types, u) && !FlagOk(types', u);
    }
  }

  /** `op` attaches no arguments, or does so safely. */
  predicate SafeOp(s: Store, op: Op)
  {
    op.OpSetFieldTypeArg? && op.t != null && op.t in s.types && op.makearg ==> SafeArg(s.types, op.t)
  }

  /** Only the flags and operands matter. */
  lemma FlagsTransfer(a: Types, b: Types)
    requires TypesOk(a) && FlagsInherited(a) && OnlyCounts(a, b)
    ensures FlagsInherited(b)
  {
    forall t | t in b ensures FlagOk(b, t) {
      assert FlagOk(a, t) && TypeOk(a, t) && SameButCount(a, b, t);
      if a[t].linked {
        assert SameButCount(a, b, a[t].left) && SameButCount(a, b, a[t].right);
      }
    }
  }

  /** A successful link_field, dup_field or new_field adds one use of the copied type. */
  lemma LinkFieldCounts(s: Store, o: Oracle, f: Field?, nf: Field, frow: int, fcol: int)
    requires Good(s) && UserField(s, f) && nf !in s.fields
    ensures var r := LinkField(s, o, f, nf, frow, fcol);
            r.Ran? && r.status == Ok ==>
              f != null && LiveType(s.types, s.fields[f].typ) && r.store.types == Bump(s.types, s.fields[f].typ, 1)
  {
    if f != null {
      InvTick(s);
      Ringed(s, f);
      InvSplice(Tick(s), f, nf);
      var c := CopyType(Splice(Tick(s), f, nf), o, nf, f);
    }
  }

  lemma CreateCounts(s: Store, o: Oracle, nf: Field, src: Field, d: Dims, nb: array<char>)
    requires Good(s) && nf !in s.fields && src in s.fields && NewBuffer(s, nb) && nb.Length >= TotalSize(d)
    ensures var r := Create(s, o, nf, src, d, nb);
            r.Ran? && r.status == Ok ==>
              LiveType(s.types, s.fields[src].typ) && r.store.types == Bump(s.types, s.fields[src].typ, 1)
  {
    InvTick(s);
    InvInsert(Tick(s), nf, d);
    var c := CopyType(Insert(Tick(s), nf, d), o, nf, src);
  }

  predicate SameButCount(a: Types, b: Types, t: FieldType)
    requires t in a && t in b
  {
    b[t] == a[t].(ref := b[t].ref)
  }

  predicate OnlyCounts(a: Types, b: Types)
  {
    b.Keys == a.Keys && forall t {:trigger SameButCount(a, b, t)} :: t in a ==> SameButCount(a, b, t)
  }

  lemma BumpOnlyCounts(a: Types, t: FieldType?, d: int, b: Types)
    requires LiveType(a, t) && b == Bump(a, t, d)
    ensures OnlyCounts(a, b)
  {
  }

  lemma OnlyCountsTwice(a: Types, b: Types, c: Types)
    requires OnlyCounts(a, b) && OnlyCounts(b, c)
    ensures OnlyCounts(a, c)
  {
    forall t | t in a ensures SameButCount(a, c, t) {
      assert SameButCount(a, b, t) && SameButCount(b, c, t);
    }
  }

  lemma FreeFieldOnlyCounts(s: Store, f: Field)
    requires Good(s) && UserField(s, f)
    ensures OnlyCounts(s.types, Release(s, f).types)
  {
    InvDetach(s, f);
    BumpOnlyCounts(s.types, s.fields[f].typ, -1, Detach(s, f).types);
    InvRemove(Detach(s, f), f);
    assert Release(s, f).types == Detach(s, f).types;
  }

  lemma SetFieldTypeOnlyCounts(s: Store, o: Oracle, f: Field?, t: FieldType?)
    requires Good(s) && UserField(s, f) && LiveType(s.types, t)
    ensures OnlyCounts(s.types, SetFieldType(s, o, f, t).store.types)
  {
    var f' := if f == null then s.dflt else f;
    InvDetach(s, f');
    var s1 := Detach(s, f');
    BumpOnlyCounts(s.types, s.fields[f'].typ, -1, s1.types);
    var s2 := Attach(s1, o, f', t).store;
    BumpOnlyCounts(s1.types, t, 1, Bump(s1.types, t, 1));
    assert s2.types == s1.types || s2.types == Bump(s1.types, t, 1);
    OnlyCountsTwice(s.types, s1.types, s2.types);
  }

  lemma OneMoreUse(s: Store, r: Outcome, f: Field?)
    requires r.Ran? ==> || r.store.types == s.types
                        || (&& f != null && f in s.fields && LiveType(s.types, s.fields[f].typ)
                            && r.store.types == Bump(s.types, s.fields[f].typ, 1))
    ensures r.Ran? ==> OnlyCounts(s.types, r.store.types)
  {
  }

  lemma CreateOnlyCounts(s: Store, o: Oracle, nf: Field, src: Field, d: Dims, nb: array<char>)
    requires Good(s) && nf !in s.fields && src in s.fields && NewBuffer(s, nb) && nb.Length >= TotalSize(d)
    ensures var r := Create(s, o, nf, src, d, nb); r.Ran? ==> OnlyCounts(s.types, r.store.types)
  {
    CreateCounts(s, o, nf, src, d, nb);
    CreateRollsBack(s, o, nf, src, d, nb);
    OneMoreUse(s, Create(s, o, nf, src, d, nb), src);
  }

  lemma NewFieldOnlyCounts(s: Store, o: Oracle, nf: Field, nb: array<char>,
                           rows: int, cols: int, frow: int, fcol: int, nrow: int, nbuf: int)
    requires Good(s) && nf !in s.fields && NewBuffer(s, nb)
    requires nb.Length >= TotalSize(Dims(rows + nrow, cols, ToShort(nbuf)))
    ensures var r := NewField(s, o, nf, nb, rows, cols, frow, fcol, nrow, nbuf);
            r.Ran? ==> OnlyCounts(s.types, r.store.types)
  {
    if rows <= 0 || cols <= 0 || frow < 0 || fcol < 0 || nrow < 0 || nbuf < 0 {
      OneMoreUse(s, Ran(s, BadArgument), null);
    } else {
      CreateOnlyCounts(s, o, nf, s.dflt, Dims(rows + nrow, cols, ToShort(nbuf)), nb);
    }
  }

  lemma DupFieldOnlyCounts(s: Store, o: Oracle, f: Field?, nf: Field, nb: array<char>, frow: int, fcol: int)
    requires Good(s) && UserField(s, f) && nf !in s.fields && NewBuffer(s, nb)
    requires f != null ==> nb.Length >= TotalSize(s.fields[f].dims)
    ensures var r := DupField(s, o, f, nf, nb, frow, fcol); r.Ran? ==> OnlyCounts(s.types, r.store.types)
  {
    if f == null || frow < 0 || fcol < 0 {
      OneMoreUse(s, Ran(s, BadArgument), null);
    } else {
      CreateOnlyCounts(s, o, nf, f, s.fields[f].dims, nb);
    }
  }

  lemma LinkFieldOnlyCounts(s: Store, o: Oracle, f: Field?, nf: Field, frow: int, fcol: int)
    requires Good(s) && UserField(s, f) && nf !in s.fields
    ensures var r := LinkField(s, o, f, nf, frow, fcol); r.Ran? ==> OnlyCounts(s.types, r.store.types)
  {
    LinkFieldCounts(s, o, f, nf, frow, fcol);
    LinkFieldRollsBack(s, o, f, nf, frow, fcol);
    OneMoreUse(s, LinkField(s, o, f, nf, frow, fcol), f);
  }

  lemma CreatorOnlyCounts(s: Store, o: Oracle, op: Op)
    requires Good(s) && Enabled(s, op) && (op.OpNewField? || op.OpDupField? || op.OpLinkField?)
    ensures var r := Step(s, o, op); r.Ran? ==> OnlyCounts(s.types, r.store.types)
  {
    match op
    case OpNewField(nf, nb, rows, cols, frow, fcol, nrow, nbuf) =>
      NewFieldOnlyCounts(s, o, nf, nb, rows, cols, frow, fcol, nrow, nbuf);
    case OpDupField(f, nf, nb, frow, fcol) => DupFieldOnlyCounts(s, o, f, nf, nb, frow, fcol);
    case OpLinkField(f, nf, frow, fcol) => LinkFieldOnlyCounts(s, o, f, nf, frow, fcol);
  }

  /** The field routines change nothing but counts in the types. */
  lemma StepOnlyCounts(s: Store, o: Oracle, op: Op)
    requires Good(s) && Enabled(s, op)
    requires || op.OpNewField? || op.OpDupField? || op.OpLinkField?
             || op.OpFreeField? || op.OpSetFieldType? || op.OpSetConnected?
    ensures var r := Step(s, o, op); r.Ran? ==> OnlyCounts(s.types, r.store.types)
  {
    match op
    case OpFreeField(f) =>
      if f != null {
        FreeFieldOnlyCounts(s, f);
      }
    case OpSetFieldType(f, t) => SetFieldTypeOnlyCounts(s, o, f, t);
    case OpSetConnected(g, c) =>
    case _ => CreatorOnlyCounts(s, o, op);
  }

  lemma LinkTypeKeepsFlags(types: Types, nt: FieldType, t1: FieldType, t2: FieldType)
    requires TypesOk(types) && FlagsInherited(types) && nt !in types && t1 in types && t2 in types
    ensures FlagsInherited(AddLinked(types, nt, t1, t2))
  {
    var types' := AddLinked(types, nt, t1, t2);
    forall t | t in types' ensures FlagOk(types', t) {
      if t != nt {
        assert FlagOk(types, t) && TypeOk(types, t);
      }
    }
  }

  lemma NewTypeKeepsFlags(types: Types, nt: FieldType)
    requires TypesOk(types) && FlagsInherited(types) && nt !in types
    ensures FlagsInherited(types[nt := NEW_TYPE])
  {
    var types' := types[nt := NEW_TYPE];
    forall t | t in types' ensures FlagOk(types', t) {
      if t != nt {
        assert FlagOk(types, t) && TypeOk(types, t);
      }
    }
  }

  lemma DropTypeKeepsFlags(types: Types, t: FieldType)
    requires TypesOk(types) && FlagsInherited(types) && t in types
    ensures FlagsInherited(DropType(types, t))
  {
    assert TypeOk(types, t);
    var types' := DropType(types, t);
    forall u | u in types' ensures FlagOk(types', u) {
      assert FlagOk(types, u) && TypeOk(types, u);
    }
  }

  lemma StepKeepsFlags(s: Store, o: Oracle, op: Op)
    requires Good(s) && Enabled(s, op) && SafeOp(s, op) && FlagsInherited(s.types)
    ensures var r := Step(s, o, op); r.Ran? ==> FlagsInherited(r.store.types)
  {
    match op
    case OpSetFieldTypeArg(t, makearg, copyarg, freearg) =>
      if t != null && makearg {
        ArgKeepsFlagsIff(s.types, t, copyarg, freearg);
      }
    case OpNewFieldType(nt, _) => NewTypeKeepsFlags(s.types, nt);
    case OpLinkFieldType(nt, t1, t2) =>
      if t1 != null && t2 != null {
        LinkTypeKeepsFlags(s.types, nt, t1, t2);
      }
    case OpFreeFieldType(t) =>
      if t != null {
        DropTypeKeepsFlags(s.types, t);
      }
    case _ =>
      StepOnlyCounts(s, o, op);
      if Step(s, o, op).Ran? {
        FlagsTransfer(s.types, Step(s, o, op).store.types);
      }
  }

  /** Every call of the run is safe in the state in which it is made. */
  ghost predicate SafeRun(s: Store, o: Oracle, ops: seq<Op>)
    requires Good(s)
    decreases |ops|
  {
    ops != [] && Enabled(s, ops[0]) && Step(s, o, ops[0]).Ran? ==>
      SafeOp(s, ops[0]) && SafeRun(Step(s, o, ops[0]).store, o, ops[1..])
  }

  /** In a run that attaches arguments only to basic types that are not yet
      operands of a type without arguments, a linked type has arguments exactly
      when some basic type beneath it has. */
  lemma {:induction false} FlagsInEverySafeRun(s: Store, o: Oracle, ops: seq<Op>, s': Store)
    requires Good(s) && FlagsInherited(s.types) && Runs(s, o, ops, s') && SafeRun(s, o, ops)
    ensures TypesOk(s'.types) && FlagsInherited(s'.types)
    ensures forall t :: t in s'.types ==> (s'.types[t].hasArgs <==> ArgLeaves(Tree(s'.types, t)) != [])
    decreases |ops|
  {
    if ops == [] {
      forall t | t in s'.types ensures s'.types[t].hasArgs <==> ArgLeaves(Tree(s'.types, t)) != [] {
        FlagsInTree(s'.types, t);
        FlagMeansLeaf(Tree(s'.types, t));
      }
    } else {
      StepKeepsFlags(s, o, ops[0]);
      FlagsInEverySafeRun(Step(s, o, ops[0]).store, o, ops[1..], s');
    }
  }
}
