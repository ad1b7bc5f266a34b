/** The routines of the form library as functions on the store. */
module FormRoutines {
  import opened FieldTypes
  import opened ArgumentTrees
  import opened FormStore
  import opened FormInvariant

  /** Everything but the memory log is as it was, and so are the live pair nodes. */
  predicate SameHeap(s: Store, s': Store)
  {
    s' == s.(mem := s'.mem) && s'.mem.pairs == s.mem.pairs
  }

  lemma InvTick(s: Store)
    requires Inv(s)
    ensures Inv(Tick(s)) && SameHeap(s, Tick(s))
  {
    InvMem(s, Tick(s).mem);
  }

  lemma BindFrame(s: Store, f: Field, t: FieldType?, a: Arg, m: Mem)
    requires f in s.fields && LiveType(s.types, t)
    ensures Bind(s, f, t, a, m).types.Keys == s.types.Keys
    ensures AllBuffered(s, null) ==> AllBuffered(Bind(s, f, t, a, m), null)
  {
  }

  // ---- _nc_Copy_Type -------------------------------------------------------

  lemma CopyFailedOk(s: Store, t: TypeTree, a: Arg, o: Oracle)
    requires Inv(s) && Fits(t, a)
    ensures var c := Copy(t, a, o, s.mem, 0);
            !c.Fault? && c.err > 0 ==>
              && Fits(t, c.arg)
              && Inv(s.(mem := Free(t, c.arg, c.mem))) && Free(t, c.arg, c.mem).pairs == s.mem.pairs
  {
    var c := Copy(t, a, o, s.mem, 0);
    FreeUndoesFailedCopy(t, a, o, s.mem, 0);
    if !c.Fault? && c.err > 0 {
      InvMem(s, Free(t, c.arg, c.mem));
    }
  }

  lemma CopyMadeOk(s: Store, o: Oracle, dst: Field, src: Field)
    requires Inv(s) && CanDetach(s, src) && dst in s.fields && s.fields[dst].typ == null && s.fields[dst].arg == Null
    ensures var r := s.fields[src]; var c := Copy(Tree(s.types, r.typ), r.arg, o, s.mem, 0);
            !c.Fault? && c.err == 0 ==>
              Inv(Bind(s, dst, r.typ, c.arg, c.mem)) && c.mem.pairs == s.mem.pairs && !c.arg.Pair?
  {
    var r := s.fields[src];
    var t := Tree(s.types, r.typ);
    var c := Copy(t, r.arg, o, s.mem, 0);
    CopySuccess(t, r.arg, o, s.mem, 0);
    if !c.Fault? && c.err == 0 {
      InvBind(s, dst, r.typ, c.arg, c.mem);
    }
  }

  /** The type and a copy of the argument of `src` go to `dst`, or nothing changes. */
  function CopyType(s: Store, o: Oracle, dst: Field, src: Field): (r: Outcome)
    requires Inv(s) && src in s.fields && dst in s.fields && s.fields[dst].typ == null && s.fields[dst].arg == Null
    ensures LiveType(s.types, s.fields[src].typ)
    ensures r.Ran? ==> Inv(r.store) && r.store.mem.pairs == s.mem.pairs
    ensures r.Ran? && AllBuffered(s, null) ==> AllBuffered(r.store, null)
    ensures r.Ran? && r.status == Ok ==>
      && dst in r.store.fields && !r.store.fields[dst].arg.Pair?
      && r.store.fields == s.fields[dst := s.fields[dst].(typ := s.fields[src].typ, arg := r.store.fields[dst].arg)]
      && r.store == s.(fields := r.store.fields, types := Bump(s.types, s.fields[src].typ, 1), mem := r.store.mem)
    ensures r.Ran? && r.status != Ok ==> r.status == SystemError && SameHeap(s, r.store)
  {
    assert HolderOk(s.types, s.fields, src);
    var f := s.fields[src];
    var t := Tree(s.types, f.typ);
    CopyFailedOk(s, t, f.arg, o);
    CopyMadeOk(s, o, dst, src);
    var c := Copy(t, f.arg, o, s.mem, 0);
    if c.Fault? then Faulted
    else if c.err > 0 then Ran(s.(mem := Free(t, c.arg, c.mem)), SystemError)
    else Ran(Bind(s, dst, f.typ, c.arg, c.mem), Ok)
  }

  // ---- free_field ----------------------------------------------------------

  lemma ReleaseFrame(s: Store, f: Field)
    requires CanDetach(s, f) && CanUnlink(Detach(s, f), f)
    ensures var s' := Remove(Detach(s, f), f);
            && s'.fields.Keys == s.fields.Keys - {f}
            && (AllBuffered(s, f) ==> AllBuffered(s', null))
  {
    var s' := Remove(Detach(s, f), f);
    assert forall g :: g in s'.fields ==> s'.fields[g].buf == s.fields[g].buf;
  }

  /** What free_field does once the field may go. */
  function Release(s: Store, f: Field): (s': Store)
    requires Inv(s) && f in s.fields && f != s.dflt
    ensures Inv(s') && s'.dflt == s.dflt && s'.fields.Keys == s.fields.Keys - {f}
    ensures AllBuffered(s, f) ==> AllBuffered(s', null)
    ensures s'.mem.tick == s.mem.tick && s'.types.Keys == s.types.Keys
  {
    InvDetach(s, f);
    InvRemove(Detach(s, f), f);
    ReleaseFrame(s, f);
    Remove(Detach(s, f), f)
  }

  /** The rings after `f` has left its ring, before it is freed. */
  function Unringed(s: Store, f: Field): Store
    requires f in s.fields && CanUnlink(s, f)
  {
    var r := s.fields[f];
    if r.link == f then
      if r.buf == null then s else s.(rings := s.rings - {r.buf}, gone := s.gone + [r.buf])
    else
      var g, ring := Pred(s, f), s.rings[r.buf];
      s.(fields := s.fields[g := s.fields[g].(link := r.link)],
         rings := s.rings[r.buf := Without(ring, IndexOf(ring, f))])
  }

  lemma ReleaseReady(s: Store, f: Field)
    requires Inv(s) && f in s.fields && f != s.dflt
    ensures CanDetach(s, f) && CanUnlink(s, f) && CanUnlink(Detach(s, f), f)
    ensures s.fields[f].link != f ==>
              && InRing(s, f) && RingShape(s.fields, s.fields[f].buf, s.rings[s.fields[f].buf])
              && Pred(s, f) != f && Pred(Detach(s, f), f) == Pred(s, f)
  {
    InvDetach(s, f);
    InvRemove(Detach(s, f), f);
    if s.fields[f].link != f {
      assert Placed(s, f) && RingShape(s.fields, s.fields[f].buf, s.rings[s.fields[f].buf]);
      PredFacts(s, f);
    }
  }

  /** The ring part and the type part of free_field do not meet. */
  lemma OrderDoesNotMatter(s: Store, f: Field, u: Store, d: Store)
    requires CanDetach(s, f) && CanUnlink(s, f) && u == Unringed(s, f)
    requires d == Detach(s, f) && CanUnlink(d, f)
    requires s.fields[f].link != f ==> Pred(s, f) != f && Pred(d, f) == Pred(s, f)
    ensures CanDetach(u, f) && Remove(d, f) == Loosen(u, f).(fields := u.fields - {f})
  {
    assert u.types == s.types && u.fields[f] == s.fields[f];
    assert Remove(d, f).fields == u.fields - {f};
  }

  /** The order of free_field: the ring first, then the type, then the field. */
  lemma ReleaseInOrder(s: Store, f: Field)
    requires Inv(s) && f in s.fields && f != s.dflt
    ensures CanDetach(s, f) && CanUnlink(s, f)
    ensures s.fields[f].link != f ==> RingShape(s.fields, s.fields[f].buf, s.rings[s.fields[f].buf])
    ensures var u := Unringed(s, f);
            CanDetach(u, f) && Release(s, f) == Loosen(u, f).(fields := u.fields - {f})
  {
    ReleaseReady(s, f);
    OrderDoesNotMatter(s, f, Unringed(s, f), Detach(s, f));
  }

  function FreeField(s: Store, f: Field?): (r: Outcome)
    requires Inv(s) && AllBuffered(s, null) && (f == null || (f in s.fields && f != s.dflt))
    ensures r.Ran? && Inv(r.store) && AllBuffered(r.store, null)
  {
    if f == null then Ran(s, BadArgument)
    else if s.fields[f].connected then Ran(s, Connected)
    else Ran(Release(s, f), Ok)
  }

  // ---- new_field, dup_field, link_field ------------------------------------

  /** The buffer request that ends new_field and dup_field. */
  function Buffered(s: Store, o: Oracle, nf: Field, nb: array<char>): (r: Outcome)
    requires Inv(s) && nf in s.fields && nf != s.dflt && s.fields[nf].buf == null
    requires AllBuffered(s, nf)
    requires NewBuffer(s, nb) && nb.Length >= TotalSize(s.fields[nf].dims)
    ensures r.Ran? && Inv(r.store) && AllBuffered(r.store, null) && r.store.types.Keys == s.types.Keys
    ensures r.status == Ok || r.status == SystemError
  {
    InvTick(s);
    if o(s.mem.tick) == 0 || TotalSize(s.fields[nf].dims) < 0 then Ran(Release(Tick(s), nf), SystemError)
    else
      InvGiveBuffer(Tick(s), nf, nb);
      Ran(GiveBuffer(Tick(s), nf, nb), Ok)
  }

  /** The end of new_field and dup_field: copy the type, then get a buffer. */
  function Finish(s: Store, o: Oracle, nf: Field, src: Field, nb: array<char>): (r: Outcome)
    requires Inv(s) && nf in s.fields && nf != s.dflt && src in s.fields
    requires s.fields[nf] == FieldRec(nf, null, Null, null, s.fields[nf].dims, false)
    requires AllBuffered(s, nf)
    requires NewBuffer(s, nb) && nb.Length >= TotalSize(s.fields[nf].dims)
    ensures r.Ran? ==>
      && Inv(r.store) && AllBuffered(r.store, null) && r.store.types.Keys == s.types.Keys
      && (r.status == Ok || r.status == SystemError)
  {
    var c := CopyType(s, o, nf, src);
    if c.Faulted? then Faulted
    else if c.status != Ok then Ran(Release(c.store, nf), SystemError)
    else Buffered(c.store, o, nf, nb)
  }

  lemma InsertReady(s: Store, nf: Field, d: Dims, nb: array<char>)
    requires Inv(s) && AllBuffered(s, null) && nf !in s.fields && NewBuffer(s, nb)
    ensures var s1 := Insert(Tick(s), nf, d);
            && Inv(s1) && nf in s1.fields && nf != s.dflt && AllBuffered(s1, nf) && NewBuffer(s1, nb)
            && s1.fields[nf] == FieldRec(nf, null, Null, null, d, false)
  {
    InvTick(s);
    InvInsert(Tick(s), nf, d);
  }

  /** What new_field and dup_field do once their arguments are accepted. */
  function Create(s: Store, o: Oracle, nf: Field, src: Field, d: Dims, nb: array<char>): (r: Outcome)
    requires Inv(s) && AllBuffered(s, null) && nf !in s.fields && src in s.fields
    requires NewBuffer(s, nb) && nb.Length >= TotalSize(d)
    ensures r.Ran? ==>
      && Inv(r.store) && AllBuffered(r.store, null) && r.store.types.Keys == s.types.Keys
      && (r.status == Ok || r.status == SystemError)
  {
    InvTick(s);
    if o(s.mem.tick) == 0 then Ran(Tick(s), SystemError)
    else
      InsertReady(s, nf, d, nb);
      Finish(Insert(Tick(s), nf, d), o, nf, src, nb)
  }

  lemma CreatedFits(s: Store, o: Oracle, nf: Field, src: Field, d: Dims, nb: array<char>)
    requires Inv(s) && AllBuffered(s, null) && nf !in s.fields && src in s.fields
    requires NewBuffer(s, nb) && nb.Length >= TotalSize(d)
    ensures var r := Create(s, o, nf, src, d, nb);
            r.Ran? && r.status == Ok ==> TotalSize(d) >= 0 && nf in r.store.fields && r.store.fields[nf].buf == nb
  {
    InsertReady(s, nf, d, nb);
    var c := CopyType(Insert(Tick(s), nf, d), o, nf, src);
  }

  /** A successful dup_field leaves the original as it was, and both its buffer
      and the new one have room for what is copied. */
  lemma DupFits(s: Store, o: Oracle, nf: Field, f: Field, nb: array<char>)
    requires Inv(s) && AllBuffered(s, null) && nf !in s.fields && f in s.fields && f != s.dflt
    requires NewBuffer(s, nb) && nb.Length >= TotalSize(s.fields[f].dims)
    ensures var r := Create(s, o, nf, f, s.fields[f].dims, nb);
            r.Ran? && r.status == Ok ==>
              && TotalSize(s.fields[f].dims) >= 0
              && f in r.store.fields && r.store.fields[f] == s.fields[f]
    ensures s.fields[f].buf != null && s.fields[f].buf != nb && s.fields[f].buf.Length >= TotalSize(s.fields[f].dims)
  {
    InsertReady(s, nf, s.fields[f].dims, nb);
    var c := CopyType(Insert(Tick(s), nf, s.fields[f].dims), o, nf, f);
    HasRoom(s, f);
  }

  lemma HasRoom(s: Store, f: Field)
    requires RingPart(s) && AllBuffered(s, null) && f in s.fields && f != s.dflt
    ensures var r := s.fields[f]; r.buf != null && r.buf in s.rings && r.buf.Length >= TotalSize(r.dims)
  {
    assert Placed(s, f);
  }

  function NewField(s: Store, o: Oracle, nf: Field, nb: array<char>,
                    rows: int, cols: int, frow: int, fcol: int, nrow: int, nbuf: int): (r: Outcome)
    requires Inv(s) && AllBuffered(s, null) && nf !in s.fields && NewBuffer(s, nb)
    requires nb.Length >= TotalSize(Dims(rows + nrow, cols, ToShort(nbuf)))
    ensures r.Ran? ==> Inv(r.store) && AllBuffered(r.store, null)
  {
    if rows <= 0 || cols <= 0 || frow < 0 || fcol < 0 || nrow < 0 || nbuf < 0 then Ran(s, BadArgument)
    else Create(s, o, nf, s.dflt, Dims(rows + nrow, cols, ToShort(nbuf)), nb)
  }

  function DupField(s: Store, o: Oracle, f: Field?, nf: Field, nb: array<char>, frow: int, fcol: int): (r: Outcome)
    requires Inv(s) && AllBuffered(s, null) && (f == null || (f in s.fields && f != s.dflt))
    requires nf !in s.fields && NewBuffer(s, nb) && (f != null ==> nb.Length >= TotalSize(s.fields[f].dims))
    ensures r.Ran? ==> Inv(r.store) && AllBuffered(r.store, null)
  {
    if f == null || frow < 0 || fcol < 0 then Ran(s, BadArgument)
    else Create(s, o, nf, f, s.fields[f].dims, nb)
  }

  lemma Ringed(s: Store, f: Field)
    requires RingPart(s) && AllBuffered(s, null) && f in s.fields && f != s.dflt
    ensures InRing(s, f) && InRing(Tick(s), f)
  {
    assert Placed(s, f);
  }

  lemma SpliceFrame(s: Store, f: Field, nf: Field)
    requires InRing(s, f)
    ensures AllBuffered(s, null) ==> AllBuffered(Splice(s, f, nf), null)
  {
  }

  /** link_field once its field is allocated. */
  function LinkNew(s: Store, o: Oracle, f: Field, nf: Field): (r: Outcome)
    requires Inv(s) && InRing(s, f) && nf !in s.fields
    ensures r.Ran? ==> Inv(r.store) && r.store.types.Keys == s.types.Keys
    ensures r.Ran? && AllBuffered(s, null) ==> AllBuffered(r.store, null)
  {
    InvSplice(s, f, nf);
    SpliceFrame(s, f, nf);
    var c := CopyType(Splice(s, f, nf), o, nf, f);
    if c.Faulted? then Faulted
    else if c.status != Ok then Ran(Release(c.store, nf), SystemError)
    else c
  }

  /** link_field once its arguments are accepted. */
  function LinkCreate(s: Store, o: Oracle, f: Field, nf: Field): (r: Outcome)
    requires Inv(s) && Inv(Tick(s)) && InRing(Tick(s), f) && nf !in s.fields
    ensures r.Ran? ==> Inv(r.store) && r.store.types.Keys == s.types.Keys
    ensures r.Ran? && AllBuffered(s, null) ==> AllBuffered(r.store, null)
  {
    if o(s.mem.tick) == 0 then Ran(Tick(s), SystemError) else LinkNew(Tick(s), o, f, nf)
  }

  function LinkField(s: Store, o: Oracle, f: Field?, nf: Field, frow: int, fcol: int): (r: Outcome)
    requires Inv(s) && AllBuffered(s, null) && (f == null || (f in s.fields && f != s.dflt)) && nf !in s.fields
    ensures r.Ran? ==> Inv(r.store) && AllBuffered(r.store, null) && r.store.types.Keys == s.types.Keys
  {
    if f == null || frow < 0 || fcol < 0 then Ran(s, BadArgument)
    else
      InvTick(s);
      Ringed(s, f);
      LinkCreate(s, o, f, nf)
  }

  // ---- set_field_type and the connection to a form -------------------------

  /** The store after a successful or failed _nc_Make_Argument for `f`. */
  function Attach(s: Store, o: Oracle, f: Field, t: FieldType?): (r: Outcome)
    requires Inv(s) && f in s.fields && s.fields[f].typ == null && s.fields[f].arg == Null && LiveType(s.types, t)
    ensures r.Ran? && Inv(r.store) && r.store.types.Keys == s.types.Keys
    ensures AllBuffered(s, null) ==> AllBuffered(r.store, null)
    ensures r.status != Ok ==> r.status == SystemError && SameHeap(s, r.store)
    ensures r.status == Ok ==>
      && f in r.store.fields
      && r.store.fields == s.fields[f := s.fields[f].(typ := t, arg := r.store.fields[f].arg)]
      && r.store.types == Bump(s.types, t, 1)
      && Mirrors(Tree(s.types, t), r.store.fields[f].arg)
  {
    var tree := Tree(s.types, t);
    var b := Make(tree, o, s.mem, 0);
    MakeFacts(tree, o, s.mem, 0);
    MakeMirrors(tree, o, s.mem, 0);
    if b.err == 0 then
      InvBind(s, f, t, b.arg, b.mem);
      BindFrame(s, f, t, b.arg, b.mem);
      Ran(Bind(s, f, t, b.arg, b.mem), Ok)
    else
      FreeUndoesMake(tree, o, s.mem, 0);
      FreeEffect(tree, b.arg, b.mem);
      InvMem(s, Free(tree, b.arg, b.mem));
      Ran(s.(mem := Free(tree, b.arg, b.mem)), SystemError)
  }

  /** Its two outcomes, with the argument `b` that was made. */
  lemma AttachOutcome(s: Store, o: Oracle, f: Field, t: FieldType?, b: Built)
    requires Inv(s) && f in s.fields && s.fields[f].typ == null && s.fields[f].arg == Null && LiveType(s.types, t)
    requires b == Make(Tree(s.types, t), o, s.mem, 0)
    ensures Fits(Tree(s.types, t), b.arg)
    ensures Attach(s, o, f, t) ==
            if b.err == 0 then Ran(Bind(s, f, t, b.arg, b.mem), Ok)
            else Ran(s.(mem := Free(Tree(s.types, t), b.arg, b.mem)), SystemError)
  {
    MakeFacts(Tree(s.types, t), o, s.mem, 0);
  }

  lemma DetachFrame(s: Store, f: Field)
    requires CanDetach(s, f)
    ensures Detach(s, f).types.Keys == s.types.Keys && (AllBuffered(s, null) ==> AllBuffered(Detach(s, f), null))
  {
  }

  /** A null field stands for the default field. */
  function SetFieldType(s: Store, o: Oracle, f: Field?, t: FieldType?): (r: Outcome)
    requires Inv(s) && AllBuffered(s, null) && (f == null || f in s.fields) && LiveType(s.types, t)
    ensures r.Ran? && Inv(r.store) && AllBuffered(r.store, null) && r.store.types.Keys == s.types.Keys
  {
    var f' := if f == null then s.dflt else f;
    InvDetach(s, f');
    DetachFrame(s, f');
    Attach(Detach(s, f'), o, f', t)
  }

  lemma InvConnect(s: Store, f: Field, c: bool)
    requires Inv(s) && f in s.fields
    ensures Inv(s.(fields := s.fields[f := s.fields[f].(connected := c)]))
  {
    var s' := s.(fields := s.fields[f := s.fields[f].(connected := c)]);
    TypesTransfer(s, s');
    RingsFrame(s, s');
    PairsTransfer(s, s');
  }

  /** set_form_fields gives a field a form or takes it away. */
  function SetConnected(s: Store, f: Field, c: bool): (r: Outcome)
    requires Inv(s) && AllBuffered(s, null) && f in s.fields
    ensures r.Ran? && Inv(r.store) && AllBuffered(r.store, null)
  {
    InvConnect(s, f, c);
    Ran(s.(fields := s.fields[f := s.fields[f].(connected := c)]), Ok)
  }

  // ---- Field types ---------------------------------------------------------

  /** A change of types and request count leaves rings and pair nodes alone. */
  lemma TypeChange(s: Store, types: Types)
    requires Inv(s) && TypePart(s.(types := types))
    ensures Inv(s.(types := types)) && Inv(Tick(s).(types := types))
  {
    var s' := s.(types := types);
    RingsFrame(s, s');
    PairsSame(s, s');
    InvMem(s', Tick(s).mem);
  }

  lemma PairsSame(s: Store, s': Store)
    requires PairsOwned(s) && s'.fields == s.fields && s'.mem == s.mem
    ensures PairsOwned(s')
  {
    forall f | f in s'.fields ensures ArgOk(s', f) {
      assert ArgOk(s, f);
    }
  }

  /** The fields keep their types when no type of theirs goes away. */
  lemma HoldersKeep(s: Store, s': Store)
    requires TypesOk(s.types) && HoldersOk(s) && TypesOk(s'.types) && Extends(s.types, s'.types)
    requires s'.fields == s.fields
    requires forall f :: f in s.fields ==> LiveType(s'.types, s.fields[f].typ)
    ensures HoldersOk(s')
  {
    forall f | f in s'.fields ensures HolderOk(s'.types, s'.fields, f) {
      assert HolderOk(s.types, s.fields, f);
      HolderFrame(s, s', f);
    }
  }

  /** A type that is not live is not used. */
  lemma Unused(s: Store, t: FieldType)
    requires TypesOk(s.types) && HoldersOk(s) && t !in s.types
    ensures Uses(s, t) == 0
  {
    forall f | f in s.fields ensures s.fields[f].typ != t {
      assert HolderOk(s.types, s.fields, f);
    }
    forall u | u in s.types && s.types[u].linked ensures s.types[u].left != t && s.types[u].right != t {
      assert TypeOk(s.types, u);
    }
    assert Holders(s.fields, t) == {} && LeftUsers(s.types, t) == {} && RightUsers(s.types, t) == {};
  }

  lemma FieldTypesLive(s: Store)
    requires TypesOk(s.types) && HoldersOk(s)
    ensures forall f :: f in s.fields ==> LiveType(s.types, s.fields[f].typ)
  {
    forall f | f in s.fields ensures LiveType(s.types, s.fields[f].typ) {
      assert HolderOk(s.types, s.fields, f);
    }
  }

  const NEW_TYPE := TypeRec(0, false, false, false, false, false, false, null, null)

  lemma AddTypeKeeps(s: Store, nt: FieldType)
    requires TypePart(s) && nt !in s.types
    ensures TypePart(s.(types := s.types[nt := NEW_TYPE]))
  {
    var s' := s.(types := s.types[nt := NEW_TYPE]);
    forall t | t in s'.types ensures TypeOk(s'.types, t) {
      assert t != nt ==> TypeOk(s.types, t);
    }
    FieldTypesLive(s);
    HoldersKeep(s, s');
    Unused(s, nt);
    forall t | t in s'.types ensures RefOk(s', t) {
      assert t != nt ==> RefOk(s, t);
      assert LeftUsers(s'.types, t) == LeftUsers(s.types, t) && RightUsers(s'.types, t) == RightUsers(s.types, t);
    }
  }

  function NewFieldType(s: Store, o: Oracle, nt: FieldType, hasCheck: bool): (r: Outcome)
    requires Inv(s) && AllBuffered(s, null) && nt !in s.types
    ensures r.Ran? && Inv(r.store) && AllBuffered(r.store, null)
  {
    InvTick(s);
    if !hasCheck then Ran(s, BadArgument)
    else if o(s.mem.tick) == 0 then Ran(Tick(s), SystemError)
    else
      AddTypeKeeps(s, nt);
      TypeChange(s, s.types[nt := NEW_TYPE]);
      Ran(Tick(s).(types := s.types[nt := NEW_TYPE]), Ok)
  }

  function LinkedRec(types: Types, t1: FieldType, t2: FieldType): TypeRec
    requires t1 in types && t2 in types
  {
    NEW_TYPE.(linked := true,
              hasArgs := types[t1].hasArgs || types[t2].hasArgs,
              hasChoice := types[t1].hasChoice || types[t2].hasChoice,
              left := t1, right := t2)
  }

  function AddLinked(types: Types, nt: FieldType, t1: FieldType, t2: FieldType): Types
    requires t1 in types && t2 in types
  {
    Bump(Bump(types[nt := LinkedRec(types, t1, t2)], t1, 1), t2, 1)
  }

  /** Only `x` can come or go as a user. */
  lemma UsersFrame(a: Types, b: Types, x: FieldType, u: FieldType)
    requires OthersKept(a, b, x) && b.Keys - {x} == a.Keys - {x}
    ensures LeftUsers(b, u) - {x} == LeftUsers(a, u) - {x}
    ensures RightUsers(b, u) - {x} == RightUsers(a, u) - {x}
  {
    forall y | y in a.Keys + b.Keys && y != x
      ensures y in LeftUsers(b, u) <==> y in LeftUsers(a, u)
      ensures y in RightUsers(b, u) <==> y in RightUsers(a, u)
    {
      assert y in a by {
        assert y in a.Keys - {x} <==> y in b.Keys - {x};
      }
      assert Kept(a, b, x, y);
    }
  }

  lemma AddLinkedOthers(types: Types, nt: FieldType, t1: FieldType, t2: FieldType)
    requires t1 in types && t2 in types && nt !in types
    ensures OthersKept(types, AddLinked(types, nt, t1, t2), nt)
    ensures AddLinked(types, nt, t1, t2).Keys == types.Keys + {nt}
  {
  }

  lemma DropTypeOthers(types: Types, t: FieldType)
    requires TypesOk(types) && t in types
    ensures OthersKept(types, DropType(types, t), t) && DropType(types, t).Keys == types.Keys - {t}
  {
    assert TypeOk(types, t);
  }

  lemma AddLinkedUsers(types: Types, nt: FieldType, t1: FieldType, t2: FieldType, t: FieldType)
    requires t1 in types && t2 in types && nt !in types
    ensures LeftUsers(AddLinked(types, nt, t1, t2), t) == LeftUsers(types, t) + (if t == t1 then {nt} else {})
    ensures RightUsers(AddLinked(types, nt, t1, t2), t) == RightUsers(types, t) + (if t == t2 then {nt} else {})
    ensures nt !in LeftUsers(types, t) && nt !in RightUsers(types, t)
  {
    var types' := AddLinked(types, nt, t1, t2);
    AddLinkedOthers(types, nt, t1, t2);
    UsersFrame(types, types', nt, t);
    assert LeftUsers(types', t) == (LeftUsers(types', t) - {nt}) + (if t == t1 then {nt} else {});
    assert RightUsers(types', t) == (RightUsers(types', t) - {nt}) + (if t == t2 then {nt} else {});
  }

  lemma AddLinkedCount(types: Types, nt: FieldType, t1: FieldType, t2: FieldType, t: FieldType)
    requires t1 in types && t2 in types && nt !in types && (t == nt || t in types)
    ensures t in AddLinked(types, nt, t1, t2)
    ensures AddLinked(types, nt, t1, t2)[t].ref ==
            (if t == nt then 0 else types[t].ref) + (if t == t1 then 1 else 0) + (if t == t2 then 1 else 0)
  {
  }

  lemma AddLinkedOk(types: Types, nt: FieldType, t1: FieldType, t2: FieldType)
    requires TypesOk(types) && nt !in types && t1 in types && t2 in types
    requires t1.birth < nt.birth && t2.birth < nt.birth
    ensures TypesOk(AddLinked(types, nt, t1, t2)) && Extends(types, AddLinked(types, nt, t1, t2))
  {
    var types' := AddLinked(types, nt, t1, t2);
    forall t | t in types' ensures TypeOk(types', t) {
      assert t != nt ==> TypeOk(types, t);
    }
  }

  lemma AddLinkedRef(s: Store, nt: FieldType, t1: FieldType, t2: FieldType, t: FieldType)
    requires nt !in s.types && t1 in s.types && t2 in s.types
    requires if t == nt then Uses(s, nt) == 0 else t in s.types && RefOk(s, t)
    ensures t in AddLinked(s.types, nt, t1, t2) && RefOk(s.(types := AddLinked(s.types, nt, t1, t2)), t)
  {
    AddLinkedUsers(s.types, nt, t1, t2, t);
    AddLinkedCount(s.types, nt, t1, t2, t);
  }

  lemma AddLinkedKeeps(s: Store, nt: FieldType, t1: FieldType, t2: FieldType)
    requires TypePart(s) && nt !in s.types && t1 in s.types && t2 in s.types
    requires t1.birth < nt.birth && t2.birth < nt.birth
    ensures TypePart(s.(types := AddLinked(s.types, nt, t1, t2)))
  {
    var s' := s.(types := AddLinked(s.types, nt, t1, t2));
    AddLinkedOk(s.types, nt, t1, t2);
    FieldTypesLive(s);
    HoldersKeep(s, s');
    Unused(s, nt);
    forall t | t in s'.types ensures RefOk(s', t) {
      assert t != nt ==> RefOk(s, t);
      AddLinkedRef(s, nt, t1, t2, t);
    }
  }

  function LinkFieldType(s: Store, o: Oracle, nt: FieldType, t1: FieldType?, t2: FieldType?): (r: Outcome)
    requires Inv(s) && AllBuffered(s, null) && nt !in s.types && LiveType(s.types, t1) && LiveType(s.types, t2)
    requires (t1 != null ==> t1.birth < nt.birth) && (t2 != null ==> t2.birth < nt.birth)
    ensures r.Ran? && Inv(r.store) && AllBuffered(r.store, null)
  {
    InvTick(s);
    if t1 == null || t2 == null then Ran(s, BadArgument)
    else if o(s.mem.tick) == 0 then Ran(Tick(s), SystemError)
    else
      AddLinkedKeeps(s, nt, t1, t2);
      TypeChange(s, AddLinked(s.types, nt, t1, t2));
      Ran(Tick(s).(types := AddLinked(s.types, nt, t1, t2)), Ok)
  }

  function WithArgs(types: Types, t: FieldType, copyarg: bool, freearg: bool): Types
    requires t in types
  {
    types[t := types[t].(hasArgs := true, copyarg := copyarg, freearg := freearg)]
  }

  lemma WithArgsUsers(types: Types, t: FieldType, copyarg: bool, freearg: bool, u: FieldType)
    requires t in types
    ensures LeftUsers(WithArgs(types, t, copyarg, freearg), u) == LeftUsers(types, u)
    ensures RightUsers(WithArgs(types, t, copyarg, freearg), u) == RightUsers(types, u)
  {
  }

  lemma WithArgsOk(types: Types, t: FieldType, copyarg: bool, freearg: bool)
    requires TypesOk(types) && t in types
    ensures TypesOk(WithArgs(types, t, copyarg, freearg)) && Extends(types, WithArgs(types, t, copyarg, freearg))
  {
    var types' := WithArgs(types, t, copyarg, freearg);
    forall u | u in types' ensures TypeOk(types', u) {
      assert TypeOk(types, u);
    }
  }

  lemma WithArgsKeeps(s: Store, t: FieldType, copyarg: bool, freearg: bool)
    requires TypePart(s) && t in s.types
    ensures TypePart(s.(types := WithArgs(s.types, t, copyarg, freearg)))
  {
    var s' := s.(types := WithArgs(s.types, t, copyarg, freearg));
    WithArgsOk(s.types, t, copyarg, freearg);
    FieldTypesLive(s);
    HoldersKeep(s, s');
    forall u | u in s'.types ensures RefOk(s', u) {
      assert RefOk(s, u);
      WithArgsUsers(s.types, t, copyarg, freearg, u);
    }
  }

  function SetFieldTypeArg(s: Store, t: FieldType?, makearg: bool, copyarg: bool, freearg: bool): (r: Outcome)
    requires Inv(s) && AllBuffered(s, null) && LiveType(s.types, t)
    ensures r.Ran? && Inv(r.store) && AllBuffered(r.store, null)
  {
    if t == null || !makearg then Ran(s, BadArgument)
    else
      WithArgsKeeps(s, t, copyarg, freearg);
      TypeChange(s, WithArgs(s.types, t, copyarg, freearg));
      Ran(s.(types := WithArgs(s.types, t, copyarg, freearg)), Ok)
  }

  function DropType(types: Types, t: FieldType): Types
    requires TypesOk(types) && t in types
  {
    assert TypeOk(types, t);
    if types[t].linked then Bump(Bump(types, types[t].left, -1), types[t].right, -1) - {t}
    else types - {t}
  }

  lemma DropTypeUsers(types: Types, t: FieldType, u: FieldType)
    requires TypesOk(types) && t in types
    ensures LeftUsers(types, u) ==
            LeftUsers(DropType(types, t), u) + (if types[t].linked && types[t].left == u then {t} else {})
    ensures RightUsers(types, u) ==
            RightUsers(DropType(types, t), u) + (if types[t].linked && types[t].right == u then {t} else {})
    ensures t !in LeftUsers(DropType(types, t), u) && t !in RightUsers(DropType(types, t), u)
  {
    DropTypeOthers(types, t);
    UsersFrame(types, DropType(types, t), t, u);
    assert LeftUsers(types, u) ==
           (LeftUsers(types, u) - {t}) + (if types[t].linked && types[t].left == u then {t} else {});
    assert RightUsers(types, u) ==
           (RightUsers(types, u) - {t}) + (if types[t].linked && types[t].right == u then {t} else {});
  }

  lemma DropTypeOk(types: Types, t: FieldType)
    requires TypesOk(types) && t in types && LeftUsers(types, t) == {} && RightUsers(types, t) == {}
    ensures TypesOk(DropType(types, t)) && Extends(types, DropType(types, t))
  {
    assert TypeOk(types, t);
    var types' := DropType(types, t);
    forall u | u in types' ensures TypeOk(types', u) {
      assert TypeOk(types, u);
      assert u !in LeftUsers(types, t) && u !in RightUsers(types, t);
    }
  }

  lemma DropTypeCount(types: Types, t: FieldType, u: FieldType)
    requires TypesOk(types) && t in types && u in types && u != t
    ensures u in DropType(types, t)
    ensures DropType(types, t)[u].ref == types[u].ref
                                         - (if types[t].linked && types[t].left == u then 1 else 0)
                                         - (if types[t].linked && types[t].right == u then 1 else 0)
  {
    assert TypeOk(types, t);
  }

  lemma DropTypeRef(s: Store, t: FieldType, u: FieldType)
    requires TypesOk(s.types) && t in s.types && u in s.types && u != t && RefOk(s, u)
    ensures u in DropType(s.types, t) && RefOk(s.(types := DropType(s.types, t)), u)
  {
    DropTypeUsers(s.types, t, u);
    DropTypeCount(s.types, t, u);
  }

  lemma DropTypeKeeps(s: Store, t: FieldType)
    requires TypePart(s) && t in s.types && s.types[t].ref == 0
    ensures TypePart(s.(types := DropType(s.types, t)))
  {
    var s' := s.(types := DropType(s.types, t));
    assert RefOk(s, t) && TypeOk(s.types, t);
    DropTypeOk(s.types, t);
    FieldTypesLive(s);
    forall f | f in s.fields ensures LiveType(s'.types, s.fields[f].typ) {
      assert f !in Holders(s.fields, t);
    }
    HoldersKeep(s, s');
    forall u | u in s'.types ensures RefOk(s', u) {
      assert RefOk(s, u);
      DropTypeRef(s, t, u);
    }
  }

  function FreeFieldType(s: Store, t: FieldType?): (r: Outcome)
    requires Inv(s) && AllBuffered(s, null) && LiveType(s.types, t)
    ensures r.Ran? && Inv(r.store) && AllBuffered(r.store, null) && r.store.types.Keys <= s.types.Keys
  {
    if t == null then Ran(s, BadArgument)
    else if s.types[t].ref != 0 || s.types[t].resident then Ran(s, Connected)
    else
      DropTypeKeeps(s, t);
      TypeChange(s, DropType(s.types, t));
      assert TypeOk(s.types, t);
      Ran(s.(types := DropType(s.types, t)), Ok)
  }
}
