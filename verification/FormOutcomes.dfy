/**
  What each call of the form library returns and leaves behind, said from its
  arguments, the store before it and the answers to its requests.
 */
module FormOutcomes {
  import opened Collections
  import opened FieldTypes
  import opened ArgumentTrees
  import opened FormStore
  import opened FormInvariant
  import opened FormRoutines
  import opened FormRuns
  import opened FormArguments

  /** The types are as before but for the count of `t`, which moves by `d`. */
  predicate CountMoves(a: Types, b: Types, t: FieldType?, d: int)
  {
    b.Keys == a.Keys && forall u :: u in a ==> b[u] == a[u].(ref := a[u].ref + if u == t then d else 0)
  }

  lemma BumpMoves(types: Types, t: FieldType?, d: int)
    requires LiveType(types, t)
    ensures CountMoves(types, Bump(types, t, d), t, d)
  {
  }

  // ---- Copies ------------------------------------------------------------------

  /** An argument `a` of `t` can be copied when the next request is the `n`-th. */
  predicate Copies(t: TypeTree, a: Arg, o: Oracle, n: nat)
  {
    !TakesArgs(t) || (t.Basic? && !a.Null? && (t.hasCopy ==> o(n) != 0))
  }

  /** The copy is what copyarg returns, or the argument itself if there is none. */
  function CopyOf(t: TypeTree, a: Arg, o: Oracle, n: nat): Arg
  {
    if !TakesArgs(t) then Null else if t.Basic? && t.hasCopy then User(o(n)) else a
  }

  predicate CallsCopy(t: TypeTree)
  {
    t.Basic? && t.hasArgs && t.hasCopy
  }

  lemma CopyOutcome(t: TypeTree, a: Arg, o: Oracle, m: Mem)
    ensures var c := Copy(t, a, o, m, 0);
            && (!c.Fault? && c.err == 0 <==> Copies(t, a, o, m.tick))
            && (Copies(t, a, o, m.tick) ==>
                  c.arg == CopyOf(t, a, o, m.tick) && c.mem.tick == m.tick + if CallsCopy(t) then 1 else 0)
            && (c.Fault? ==> TakesArgs(t) && (t.Basic? ==> a.Null?))
  {
    CopySucceedsIff(t, a, o, m, 0);
  }

  /** _nc_Copy_Type succeeds exactly when the argument can be copied. */
  lemma CopyTypeOutcome(s: Store, o: Oracle, dst: Field, src: Field)
    requires Inv(s) && src in s.fields && dst in s.fields && s.fields[dst].typ == null && s.fields[dst].arg == Null
    ensures LiveType(s.types, s.fields[src].typ)
    ensures var r, t, a := CopyType(s, o, dst, src), Tree(s.types, s.fields[src].typ), s.fields[src].arg;
            && (r.Ran? && r.status == Ok <==> Copies(t, a, o, s.mem.tick))
            && (r.Faulted? ==> TakesArgs(t) && (t.Basic? ==> a.Null?))
            && (Copies(t, a, o, s.mem.tick) ==>
                  && r.store.fields == s.fields[dst := s.fields[dst].(typ := s.fields[src].typ,
                                                                      arg := CopyOf(t, a, o, s.mem.tick))]
                  && r.store.mem.tick == s.mem.tick + if CallsCopy(t) then 1 else 0)
  {
    assert HolderOk(s.types, s.fields, src);
    CopyOutcome(Tree(s.types, s.fields[src].typ), s.fields[src].arg, o, s.mem);
  }

  // ---- new_field and dup_field ---------------------------------------------------

  /** The requests succeed that creating a field of size `d` with the type and
      the argument of `src` makes: for the field, for the copy and for the buffer. */
  predicate CanCreate(s: Store, o: Oracle, src: Field, d: Dims)
    requires TypesOk(s.types) && src in s.fields && LiveType(s.types, s.fields[src].typ)
  {
    var t, a, n := Tree(s.types, s.fields[src].typ), s.fields[src].arg, s.mem.tick;
    && o(n) != 0 && Copies(t, a, o, n + 1) && o(n + 1 + if CallsCopy(t) then 1 else 0) != 0
    && TotalSize(d) >= 0
  }

  /** `r` is the outcome of creating the field `nf` of size `d`, with the buffer
      `nb` and the type of `src`. */
  predicate Creates(s: Store, o: Oracle, nf: Field, src: Field, d: Dims, nb: array<char>, r: Outcome)
    requires TypesOk(s.types) && src in s.fields && LiveType(s.types, s.fields[src].typ)
  {
    var t, a := Tree(s.types, s.fields[src].typ), s.fields[src].arg;
    && (r.Ran? && r.status == Ok <==> CanCreate(s, o, src, d))
    && (r.Ran? && r.status != Ok ==> r.status == SystemError && SameHeap(s, r.store))
    && (r.Faulted? ==> o(s.mem.tick) != 0 && TakesArgs(t) && (t.Basic? ==> a.Null?))
    && (CanCreate(s, o, src, d) ==>
          && r.store.fields ==
               s.fields[nf := FieldRec(nf, s.fields[src].typ, CopyOf(t, a, o, s.mem.tick + 1), nb, d, false)]
          && r.store.rings == s.rings[nb := [nf]]
          && CountMoves(s.types, r.store.types, s.fields[src].typ, 1)
          && r.store.dflt == s.dflt && r.store.gone == s.gone && r.store.bufAllocs == s.bufAllocs + 1)
  }

  lemma FinishOutcome(s: Store, o: Oracle, nf: Field, src: Field, nb: array<char>)
    requires Inv(s) && nf in s.fields && nf != s.dflt && src in s.fields
    requires s.fields[nf] == FieldRec(nf, null, Null, null, s.fields[nf].dims, false)
    requires AllBuffered(s, nf) && NewBuffer(s, nb) && nb.Length >= TotalSize(s.fields[nf].dims)
    ensures LiveType(s.types, s.fields[src].typ)
    ensures var r := Finish(s, o, nf, src, nb);
            var t, a, n := Tree(s.types, s.fields[src].typ), s.fields[src].arg, s.mem.tick;
            && (r.Ran? && r.status == Ok <==>
                  Copies(t, a, o, n) && o(n + if CallsCopy(t) then 1 else 0) != 0 && TotalSize(s.fields[nf].dims) >= 0)
            && (r.Faulted? ==> TakesArgs(t) && (t.Basic? ==> a.Null?))
            && (r.Ran? && r.status == Ok ==>
                  nf in r.store.fields && r.store.fields[nf].arg == CopyOf(t, a, o, n) && r.store.dflt == s.dflt)
  {
    CopyTypeOutcome(s, o, nf, src);
    var c := CopyType(s, o, nf, src);
  }

  /** When a field is created, and with which argument. */
  lemma CreateWhen(s: Store, o: Oracle, nf: Field, src: Field, d: Dims, nb: array<char>)
    requires Good(s) && nf !in s.fields && src in s.fields && NewBuffer(s, nb) && nb.Length >= TotalSize(d)
    ensures LiveType(s.types, s.fields[src].typ)
    ensures var r := Create(s, o, nf, src, d, nb);
            var t, a := Tree(s.types, s.fields[src].typ), s.fields[src].arg;
            && (r.Ran? && r.status == Ok <==> CanCreate(s, o, src, d))
            && (r.Faulted? ==> o(s.mem.tick) != 0 && TakesArgs(t) && (t.Basic? ==> a.Null?))
            && (r.Ran? && r.status == Ok ==>
                  && nf in r.store.fields && r.store.fields[nf].arg == CopyOf(t, a, o, s.mem.tick + 1)
                  && r.store.dflt == s.dflt)
  {
    FieldTypesLive(s);
    if o(s.mem.tick) != 0 {
      InsertReady(s, nf, d, nb);
      var s1 := Insert(Tick(s), nf, d);
      FinishOutcome(s1, o, nf, src, nb);
      assert s1.fields[src] == s.fields[src] && s1.types == s.types && s1.mem.tick == s.mem.tick + 1;
    }
  }

  lemma CreateOutcome(s: Store, o: Oracle, nf: Field, src: Field, d: Dims, nb: array<char>)
    requires Good(s) && nf !in s.fields && src in s.fields && NewBuffer(s, nb) && nb.Length >= TotalSize(d)
    ensures LiveType(s.types, s.fields[src].typ)
    ensures Creates(s, o, nf, src, d, nb, Create(s, o, nf, src, d, nb))
  {
    CreateWhen(s, o, nf, src, d, nb);
    CreateRollsBack(s, o, nf, src, d, nb);
    CreatedFieldStandsAlone(s, o, nf, src, d, nb);
    CreateCounts(s, o, nf, src, d, nb);
    BumpMoves(s.types, s.fields[src].typ, 1);
  }

  /** new_field refuses bad arguments and touches nothing; otherwise the new field
      has `rows + nrow` rows, `cols` columns and the type of the default field. */
  lemma NewFieldOutcome(s: Store, o: Oracle, nf: Field, nb: array<char>,
                        rows: int, cols: int, frow: int, fcol: int, nrow: int, nbuf: int)
    requires Good(s) && nf !in s.fields && NewBuffer(s, nb)
    requires nb.Length >= TotalSize(Dims(rows + nrow, cols, ToShort(nbuf)))
    ensures LiveType(s.types, s.fields[s.dflt].typ)
    ensures var r := NewField(s, o, nf, nb, rows, cols, frow, fcol, nrow, nbuf);
            if rows <= 0 || cols <= 0 || frow < 0 || fcol < 0 || nrow < 0 || nbuf < 0 then r == Ran(s, BadArgument)
            else Creates(s, o, nf, s.dflt, Dims(rows + nrow, cols, ToShort(nbuf)), nb, r)
  {
    CreateOutcome(s, o, nf, s.dflt, Dims(rows + nrow, cols, ToShort(nbuf)), nb);
  }

  /** dup_field: the new field has the size and the type of the original. */
  lemma DupFieldOutcome(s: Store, o: Oracle, f: Field?, nf: Field, nb: array<char>, frow: int, fcol: int)
    requires Good(s) && UserField(s, f) && nf !in s.fields && NewBuffer(s, nb)
    requires f != null ==> nb.Length >= TotalSize(s.fields[f].dims)
    ensures f != null ==> LiveType(s.types, s.fields[f].typ)
    ensures var r := DupField(s, o, f, nf, nb, frow, fcol);
            if f == null || frow < 0 || fcol < 0 then r == Ran(s, BadArgument)
            else Creates(s, o, nf, f, s.fields[f].dims, nb, r)
  {
    if f != null {
      CreateOutcome(s, o, nf, f, s.fields[f].dims, nb);
    }
  }

  /** A successful dup_field leaves the original as it was, has room for the copy
      of its cells, and gives the new field its size and type. */
  lemma DupMakes(s: Store, o: Oracle, nf: Field, f: Field, nb: array<char>)
    requires Good(s) && nf !in s.fields && f in s.fields && f != s.dflt
    requires NewBuffer(s, nb) && nb.Length >= TotalSize(s.fields[f].dims)
    ensures var r := Create(s, o, nf, f, s.fields[f].dims, nb);
            r.Ran? && r.status == Ok ==>
              && TotalSize(s.fields[f].dims) >= 0
              && f in r.store.fields && r.store.fields[f] == s.fields[f] && nf in r.store.fields
              && r.store.fields[nf] ==
                   FieldRec(nf, s.fields[f].typ, r.store.fields[nf].arg, nb, s.fields[f].dims, false)
    ensures s.fields[f].buf != null && s.fields[f].buf != nb && s.fields[f].buf.Length >= TotalSize(s.fields[f].dims)
  {
    DupFits(s, o, nf, f, nb);
    CreatedFieldStandsAlone(s, o, nf, f, s.fields[f].dims, nb);
  }

  // ---- link_field ------------------------------------------------------------------

  /** `ring'` is `ring` with `nf` right behind `f`. */
  ghost predicate InsertedAfter(ring: seq<Field>, f: Field, nf: Field, ring': seq<Field>)
  {
    exists i :: 0 <= i < |ring| && ring[i] == f && ring' == ring[..i + 1] + [nf] + ring[i + 1..]
  }

  /** `r` is the outcome of linking the new field `nf` to `f`. */
  ghost predicate Links(s: Store, o: Oracle, f: Field, nf: Field, r: Outcome)
    requires TypesOk(s.types) && f in s.fields && LiveType(s.types, s.fields[f].typ) && InRing(s, f)
  {
    var t, a, n := Tree(s.types, s.fields[f].typ), s.fields[f].arg, s.mem.tick;
    var works := o(n) != 0 && Copies(t, a, o, n + 1);
    && (r.Ran? && r.status == Ok <==> works)
    && (r.Ran? && r.status != Ok ==> r.status == SystemError && SameHeap(s, r.store))
    && (r.Faulted? ==> o(n) != 0 && TakesArgs(t) && (t.Basic? ==> a.Null?))
    && (works ==>
          && r.store.fields.Keys == s.fields.Keys + {nf}
          && r.store.fields[f] == s.fields[f].(link := nf)
          && r.store.fields[nf] == s.fields[f].(arg := CopyOf(t, a, o, n + 1), connected := false)
          && (forall g :: g in s.fields && g != f ==> r.store.fields[g] == s.fields[g])
          && CountMoves(s.types, r.store.types, s.fields[f].typ, 1)
          && s.fields[f].buf in r.store.rings
          && InsertedAfter(s.rings[s.fields[f].buf], f, nf, r.store.rings[s.fields[f].buf])
          && r.store.rings == s.rings[s.fields[f].buf := r.store.rings[s.fields[f].buf]]
          && r.store.dflt == s.dflt && r.store.gone == s.gone && r.store.bufAllocs == s.bufAllocs)
  }

  lemma LinkNewOutcome(s: Store, o: Oracle, f: Field, nf: Field)
    requires Inv(s) && InRing(s, f) && nf !in s.fields
    ensures LiveType(s.types, s.fields[f].typ)
    ensures var r := LinkNew(s, o, f, nf);
            var t, a, n := Tree(s.types, s.fields[f].typ), s.fields[f].arg, s.mem.tick;
            && (r.Ran? && r.status == Ok <==> Copies(t, a, o, n))
            && (r.Faulted? ==> TakesArgs(t) && (t.Basic? ==> a.Null?))
            && (r.Ran? && r.status == Ok ==>
                  && nf in r.store.fields && r.store.fields[nf].arg == CopyOf(t, a, o, n)
                  && r.store.rings == Splice(s, f, nf).rings && r.store.dflt == s.dflt)
  {
    InvSplice(s, f, nf);
    var s1 := Splice(s, f, nf);
    CopyTypeOutcome(s1, o, nf, f);
    assert HolderOk(s.types, s.fields, f);
  }

  lemma SplicedRing(s: Store, f: Field, nf: Field)
    requires InRing(s, f)
    ensures var b, rings := s.fields[f].buf, Splice(s, f, nf).rings;
            && b in rings && InsertedAfter(s.rings[b], f, nf, rings[b]) && rings == s.rings[b := rings[b]]
  {
    var ring := s.rings[s.fields[f].buf];
    var i := IndexOf(ring, f);
    assert ring[i] == f;
  }

  lemma LinkFieldOutcome(s: Store, o: Oracle, f: Field?, nf: Field, frow: int, fcol: int)
    requires Good(s) && UserField(s, f) && nf !in s.fields
    ensures f != null ==> LiveType(s.types, s.fields[f].typ) && InRing(s, f)
    ensures var r := LinkField(s, o, f, nf, frow, fcol);
            if f == null || frow < 0 || fcol < 0 then r == Ran(s, BadArgument) else Links(s, o, f, nf, r)
  {
    if f != null {
      FieldTypesLive(s);
      Ringed(s, f);
      InvTick(s);
      if frow >= 0 && fcol >= 0 {
        LinkFieldRollsBack(s, o, f, nf, frow, fcol);
        LinkedFieldComesNext(s, o, f, nf, frow, fcol);
        LinkFieldCounts(s, o, f, nf, frow, fcol);
        BumpMoves(s.types, s.fields[f].typ, 1);
        SplicedRing(s, f, nf);
        if o(s.mem.tick) != 0 {
          LinkNewOutcome(Tick(s), o, f, nf);
        }
      }
    }
  }

  // ---- free_field ------------------------------------------------------------------

  /** free_field refuses null and the fields of forms and touches nothing;
      otherwise the field is gone, its type has one use less, the field that
      linked to it links on, and the buffer is freed if no other field has it. */
  lemma FreeFieldOutcome(s: Store, f: Field?)
    requires Good(s) && UserField(s, f)
    ensures var r := FreeField(s, f);
            if f == null then r == Ran(s, BadArgument)
            else if s.fields[f].connected then r == Ran(s, Connected)
            else
              && r.Ran? && r.status == Ok
              && r.store.fields.Keys == s.fields.Keys - {f}
              && (forall g :: g in r.store.fields ==>
                    r.store.fields[g] ==
                      if s.fields[g].link == f then s.fields[g].(link := s.fields[f].link) else s.fields[g])
              && CountMoves(s.types, r.store.types, s.fields[f].typ, -1)
              && r.store.gone == s.gone + (if s.fields[f].link == f then [s.fields[f].buf] else [])
              && r.store.dflt == s.dflt && r.store.bufAllocs == s.bufAllocs && r.store.mem.tick == s.mem.tick
  {
    if f != null && !s.fields[f].connected {
      FreedFieldLeavesRing(s, f);
      Ringed(s, f);
      ReleaseReady(s, f);
      BumpMoves(s.types, s.fields[f].typ, -1);
      FreedBuffer(Detach(s, f), f);
    }
  }

  lemma FreedBuffer(s: Store, f: Field)
    requires f in s.fields && InRing(s, f) && CanUnlink(s, f)
    ensures var s' := Remove(s, f);
            && s'.gone == s.gone + (if s.fields[f].link == f then [s.fields[f].buf] else [])
            && s'.bufAllocs == s.bufAllocs && s'.types == s.types && s'.dflt == s.dflt
  {
    assert s.gone + [] == s.gone;
  }

  // ---- set_field_type --------------------------------------------------------------

  /** The counts after the old type lost a use and, if the call succeeds, the new
      one gained one. */
  predicate Retyped(a: Types, b: Types, was: FieldType?, now: FieldType?, ok: bool)
  {
    && b.Keys == a.Keys
    && forall u :: u in a ==>
         b[u] == a[u].(ref := a[u].ref - (if u == was then 1 else 0) + (if ok && u == now then 1 else 0))
  }

  lemma RetypedTwice(a: Types, b: Types, c: Types, was: FieldType?, now: FieldType?, ok: bool)
    requires CountMoves(a, b, was, -1) && (if ok then CountMoves(b, c, now, 1) else c == b)
    ensures Retyped(a, c, was, now, ok)
  {
  }

  /** set_field_type: the old type goes in any case.  If no request fails, the
      field has the new type with a complete argument; otherwise it has none. */
  lemma SetFieldTypeOutcome(s: Store, o: Oracle, f: Field?, t: FieldType?)
    requires Good(s) && (f == null || f in s.fields) && LiveType(s.types, t)
    ensures var r := SetFieldType(s, o, f, t);
            var g := if f == null then s.dflt else f;
            && r.Ran? && s.mem.tick <= r.store.mem.tick
            && r.status == (if Failures(o, s.mem.tick, r.store.mem.tick) == 0 then Ok else SystemError)
            && g in r.store.fields
            && r.store.fields ==
                 s.fields[g := s.fields[g].(typ := if r.status == Ok then t else null, arg := r.store.fields[g].arg)]
            && (if r.status == Ok then Mirrors(Tree(s.types, t), r.store.fields[g].arg)
                else r.store.fields[g].arg == Null)
            && Retyped(s.types, r.store.types, s.fields[g].typ, t, r.status == Ok)
            && r.store.rings == s.rings && r.store.gone == s.gone && r.store.bufAllocs == s.bufAllocs
            && r.store.dflt == s.dflt
  {
    var g := if f == null then s.dflt else f;
    InvDetach(s, g);
    FieldTypesLive(s);
    var d := Detach(s, g);
    BumpMoves(s.types, s.fields[g].typ, -1);
    BumpMoves(d.types, t, 1);
    AttachedOutcome(d, o, g, t);
    TreeBump(s.types, s.fields[g].typ, -1, t);
    var r := Attach(d, o, g, t);
    RetypedTwice(s.types, d.types, r.store.types, s.fields[g].typ, t, r.status == Ok);
    SetTwice(s.fields, g, d.fields[g], r.store.fields[g]);
  }

  lemma AttachedOutcome(s: Store, o: Oracle, f: Field, t: FieldType?)
    requires Inv(s) && f in s.fields && s.fields[f].typ == null && s.fields[f].arg == Null && LiveType(s.types, t)
    ensures var r := Attach(s, o, f, t);
            && s.mem.tick <= r.store.mem.tick
            && r.status == (if Failures(o, s.mem.tick, r.store.mem.tick) == 0 then Ok else SystemError)
            && f in r.store.fields
            && r.store.fields ==
                 s.fields[f := s.fields[f].(typ := if r.status == Ok then t else null, arg := r.store.fields[f].arg)]
            && (if r.status == Ok then Mirrors(Tree(s.types, t), r.store.fields[f].arg)
                else r.store.fields[f].arg == Null)
            && r.store.types == (if r.status == Ok then Bump(s.types, t, 1) else s.types)
            && r.store.rings == s.rings && r.store.gone == s.gone && r.store.bufAllocs == s.bufAllocs
            && r.store.dflt == s.dflt
  {
    var b := Make(Tree(s.types, t), o, s.mem, 0);
    AttachOutcome(s, o, f, t, b);
    MakeCountsFailures(Tree(s.types, t), o, s.mem, 0, b);
    FreeEffect(Tree(s.types, t), b.arg, b.mem);
    assert s.fields[f := s.fields[f].(typ := null, arg := Null)] == s.fields;
  }

  /** What the field held is freed or dropped; what the call made is held if it
      succeeds, and freed or dropped too if it does not. */
  lemma SetFieldTypeReleases(s: Store, o: Oracle, f: Field?, t: FieldType?, x: UserArg)
    requires Good(s) && (f == null || f in s.fields) && LiveType(s.types, t)
    ensures var r := SetFieldType(s, o, f, t);
            var g := if f == null then s.dflt else f;
            var made := Made(r.store, x) - Made(s, x);
            var n := HeldIn(s, g, x) + (if r.status == Ok then 0 else made);
            && made >= 0 && Shared(r.store, x) == Shared(s, x)
            && Freed(r.store, x) == Freed(s, x) + (if Drops(s.types, x) then 0 else n)
            && Dropped(r.store, x) == Dropped(s, x) + (if Drops(s.types, x) then n else 0)
            && HeldIn(r.store, g, x) == (if r.status == Ok then made else 0)
  {
    var g := if f == null then s.dflt else f;
    InvDetach(s, g);
    var d := Detach(s, g);
    DetachSettles(s, g, x);
    AttachReleases(d, o, g, t, x);
  }

  lemma AttachReleases(s: Store, o: Oracle, f: Field, t: FieldType?, x: UserArg)
    requires Inv(s) && f in s.fields && s.fields[f].typ == null && s.fields[f].arg == Null && LiveType(s.types, t)
    ensures var r := Attach(s, o, f, t);
            var made := Made(r.store, x) - Made(s, x);
            && made >= 0 && Shared(r.store, x) == Shared(s, x)
            && Freed(r.store, x) == Freed(s, x) + (if r.status == Ok || Drops(s.types, x) then 0 else made)
            && Dropped(r.store, x) == Dropped(s, x) + (if r.status != Ok && Drops(s.types, x) then made else 0)
            && HeldIn(r.store, f, x) == (if r.status == Ok then made else 0)
  {
    var tree := Tree(s.types, t);
    var b := Make(tree, o, s.mem, 0);
    AttachOutcome(s, o, f, t, b);
    MakeTimes(tree, o, s.mem, 0, x, b);
    TreeAgrees(s.types, t, x);
    FreeTimes(tree, b.arg, b.mem, x, !Drops(s.types, x), Free(tree, b.arg, b.mem));
    HeldBump(s.types, t, 1, t, b.arg, x);
  }

  // ---- Field types -----------------------------------------------------------------

  /** Only the types and the count of requests change. */
  predicate OnlyTypes(s: Store, s': Store, requests: nat)
  {
    s' == s.(types := s'.types, mem := s.mem.(tick := s.mem.tick + requests))
  }

  /** new_fieldtype: an unused basic type without functions for arguments. */
  lemma NewFieldTypeOutcome(s: Store, o: Oracle, nt: FieldType, hasCheck: bool)
    requires Good(s) && nt !in s.types
    ensures var r := NewFieldType(s, o, nt, hasCheck);
            if !hasCheck then r == Ran(s, BadArgument)
            else if o(s.mem.tick) == 0 then
              r == Ran(r.store, SystemError) && OnlyTypes(s, r.store, 1) && r.store.types == s.types
            else
              && r == Ran(r.store, Ok) && OnlyTypes(s, r.store, 1)
              && r.store.types == s.types[nt := TypeRec(0, false, false, false, false, false, false, null, null)]
  {
  }

  /** link_fieldtype: an unused type that takes arguments or has choices if an
      operand does; each operand slot is one more use. */
  lemma LinkFieldTypeOutcome(s: Store, o: Oracle, nt: FieldType, t1: FieldType?, t2: FieldType?)
    requires Good(s) && Enabled(s, OpLinkFieldType(nt, t1, t2))
    ensures var r := LinkFieldType(s, o, nt, t1, t2);
            if t1 == null || t2 == null then r == Ran(s, BadArgument)
            else if o(s.mem.tick) == 0 then
              r == Ran(r.store, SystemError) && OnlyTypes(s, r.store, 1) && r.store.types == s.types
            else
              && r == Ran(r.store, Ok) && OnlyTypes(s, r.store, 1) && r.store.types.Keys == s.types.Keys + {nt}
              && r.store.types[nt] ==
                   TypeRec(0, true, s.types[t1].hasArgs || s.types[t2].hasArgs,
                           s.types[t1].hasChoice || s.types[t2].hasChoice, false, false, false, t1, t2)
              && forall u :: u in s.types ==>
                   r.store.types[u] ==
                     s.types[u].(ref := s.types[u].ref + (if u == t1 then 1 else 0) + (if u == t2 then 1 else 0))
  {
    if t1 != null && t2 != null && o(s.mem.tick) != 0 {
      AddLinkedOthers(s.types, nt, t1, t2);
    }
  }

  /** set_fieldtype_arg: the type takes arguments and has the given functions. */
  lemma SetFieldTypeArgOutcome(s: Store, t: FieldType?, makearg: bool, copyarg: bool, freearg: bool)
    requires Good(s) && LiveType(s.types, t)
    ensures var r := SetFieldTypeArg(s, t, makearg, copyarg, freearg);
            if t == null || !makearg then r == Ran(s, BadArgument)
            else
              && r == Ran(r.store, Ok) && OnlyTypes(s, r.store, 0) && r.store.types.Keys == s.types.Keys
              && r.store.types[t] == s.types[t].(hasArgs := true, copyarg := copyarg, freearg := freearg)
              && forall u :: u in s.types && u != t ==> r.store.types[u] == s.types[u]
  {
  }

  /** free_fieldtype: the type is gone and each of its operand slots is one use
      less, or nothing changes. */
  lemma FreeFieldTypeOutcome(s: Store, t: FieldType?)
    requires Good(s) && LiveType(s.types, t)
    ensures var r := FreeFieldType(s, t);
            if t == null then r == Ran(s, BadArgument)
            else if s.types[t].ref != 0 || s.types[t].resident then r == Ran(s, Connected)
            else
              && r == Ran(r.store, Ok) && OnlyTypes(s, r.store, 0) && r.store.types.Keys == s.types.Keys - {t}
              && forall u :: u in s.types && u != t ==>
                   r.store.types[u] ==
                     s.types[u].(ref := s.types[u].ref
                                        - (if s.types[t].linked && s.types[t].left == u then 1 else 0)
                                        - (if s.types[t].linked && s.types[t].right == u then 1 else 0))
  {
    if t != null {
      DropTypeOthers(s.types, t);
      forall u | u in s.types && u != t ensures u in DropType(s.types, t) && Kept(s.types, DropType(s.types, t), t, u) {
      }
      forall u | u in s.types && u != t
        ensures DropType(s.types, t)[u].ref == s.types[u].ref
                                               - (if s.types[t].linked && s.types[t].left == u then 1 else 0)
                                               - (if s.types[t].linked && s.types[t].right == u then 1 else 0)
      {
        DropTypeCount(s.types, t, u);
      }
    }
  }
}
