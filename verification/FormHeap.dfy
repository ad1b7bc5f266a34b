/**
  The form library on the heap: fields and field types are objects whose
  pointers and counts the routines update in place.  Each routine is proved to
  do to the heap what the function of the same name in FormRoutines.dfy does to
  the store that mirrors it.
 */
module FormHeap {
  import opened FieldBuffer
  import opened FieldTypes
  import opened ArgumentTrees
  import opened FormStore
  import opened FormInvariant
  import R = FormRoutines
  import Runs = FormRuns
  import Outcomes = FormOutcomes

  ghost predicate FieldIs(f: Field, r: FieldRec)
    reads f
  {
    && r.link == f.link && r.typ == f.typ && r.arg == f.arg && r.buf == f.buf
    && r.dims == Dims(f.drows, f.dcols, f.nbuf) && r.connected == f.connected
  }

  ghost predicate TypeIs(t: FieldType, r: TypeRec)
    reads t
  {
    && r.ref == t.ref && r.linked == t.linked && r.hasArgs == t.hasArgs && r.hasChoice == t.hasChoice
    && r.resident == t.resident && r.copyarg == t.copyarg && r.freearg == t.freearg
    && r.left == t.left && r.right == t.right
  }

  ghost predicate TypesMatch(types: Types)
    reads types.Keys
  {
    forall t {:trigger TypeIs(t, types[t])} :: t in types ==> TypeIs(t, types[t])
  }

  ghost predicate FieldsMatch(fields: Fields)
    reads fields.Keys
  {
    forall f {:trigger FieldIs(f, fields[f])} :: f in fields ==> FieldIs(f, fields[f])
  }

  class Library {
    const dflt: Field
    const oracle: Oracle
    var mem: Mem
    var clock: nat
    ghost var store: Store

    /** The live objects are those of the store and hold what it says. */
    ghost predicate Matches()
      reads this, store.fields.Keys, store.types.Keys
    {
      store.dflt == dflt && store.mem == mem && FieldsMatch(store.fields) && TypesMatch(store.types)
    }

    ghost predicate Valid()
      reads this, store.fields.Keys, store.types.Keys
    {
      Matches() && Runs.Good(store) && forall t :: t in store.types ==> t.birth < clock
    }

    /** The library before its first call, with the given built-in types. */
    constructor (oracle: Oracle, ghost builtins: set<FieldType>, clock: nat)
      requires forall t :: t in builtins ==> !t.linked && t.ref == 0 && t.birth < clock
      ensures Valid() && Runs.Initial(store)
      ensures store.types.Keys == builtins && this.oracle == oracle
    {
      this.oracle, this.clock := oracle, clock;
      var d := new Field();
      dflt := d;
      var m := Mem(0, {}, [], [], [], [], []);
      mem := m;
      store := Store(d, map[d := FieldRec(null, null, Null, null, Dims(0, 0, 0), false)],
                     map t | t in builtins :: TypeRec(t.ref, t.linked, t.hasArgs, t.hasChoice, t.resident,
                                                      t.copyarg, t.freearg, t.left, t.right),
                     map[], [], 0, m);
      new;
      Runs.InitialGood(store);
    }

    // ---- Arguments ---------------------------------------------------------

    /** One call of makearg or copyarg for the basic type `t`. */
    method CallUser(t: FieldType, ghost tree: TypeTree, err: nat) returns (arg: Arg, err': nat)
      requires tree == Basic(t, t.hasArgs, t.copyarg, t.freearg)
      modifies this`mem
      ensures Built(arg, mem, err') == Call1(tree, oracle, old(mem), err)
    {
      var v := oracle(mem.tick);
      arg, err' := if v == 0 then Null else User(v), err;
      var leaf := Basic(t, t.hasArgs, t.copyarg, t.freearg);
      mem := mem.(tick := mem.tick + 1, made := mem.made + [Call(leaf, arg)]);
      if arg == Null {
        err' := err' + 1;
      }
    }

    /** The next malloc. */
    method Malloc() returns (ok: bool)
      modifies this`mem
      ensures ok <==> oracle(old(mem.tick)) != 0
      ensures mem == old(mem).(tick := old(mem.tick) + 1)
    {
      ok := oracle(mem.tick) != 0;
      mem := mem.(tick := mem.tick + 1);
    }

    /** A malloc for a pair node, whose address is the number of the request. */
    method AllocPair() returns (ok: bool, node: nat)
      modifies this`mem
      ensures node == old(mem.tick) && (ok <==> oracle(node) != 0)
      ensures mem == if ok then PairAllocated(old(mem)) else old(mem).(tick := node + 1)
    {
      node := mem.tick;
      ok := Malloc();
      if ok {
        mem := mem.(pairs := mem.pairs + {node});
      }
    }

    method MakeArgument(t: FieldType?, ghost types: Types, ghost tree: TypeTree, err: nat) returns (arg: Arg, err': nat)
      requires TypesMatch(types) && TypesOk(types) && LiveType(types, t) && tree == Tree(types, t)
      modifies this`mem
      ensures Built(arg, mem, err') == Make(tree, oracle, old(mem), err)
      decreases tree
    {
      arg, err' := Null, err;
      if t != null {
        assert TypeIs(t, types[t]) && TypeOk(types, t);
        if t.hasArgs {
          if t.linked {
            var ok, node := AllocPair();
            if ok {
              var l, r;
              l, err' := MakeArgument(t.left, types, tree.left, err');
              r, err' := MakeArgument(t.right, types, tree.right, err');
              arg := Pair(node, l, r);
            } else {
              err' := err' + 1;
            }
          } else {
            arg, err' := CallUser(t, tree, err');
          }
        }
      }
    }

    /** `fault`: an assert fails, or a user's argument is read as a pair node. */
    method CopyArgument(t: FieldType?, ghost types: Types, ghost tree: TypeTree, a: Arg, err: nat)
      returns (fault: bool, arg: Arg, err': nat)
      requires TypesMatch(types) && TypesOk(types) && LiveType(types, t) && tree == Tree(types, t)
      modifies this`mem
      ensures var c := Copy(tree, a, oracle, old(mem), err);
              if fault then c == Fault else c == Copied(arg, mem, err')
      decreases a
    {
      fault, arg, err' := false, Null, err;
      if t != null {
        assert TypeIs(t, types[t]) && TypeOk(types, t);
        if t.hasArgs {
          if a == Null {
            fault := true;
          } else if t.linked {
            fault, arg, err' := CopyPair(t, types, tree, a, err);
          } else if t.copyarg {
            arg, err' := CallUser(t, tree, err');
          } else {
            arg := a;
            var leaf := Basic(t, t.hasArgs, t.copyarg, t.freearg);
            mem := mem.(shared := mem.shared + [Call(leaf, a)]);
          }
        }
      }
    }

    /** The branch of CopyArgument for a linked type. */
    method CopyPair(t: FieldType, ghost types: Types, ghost tree: TypeTree, a: Arg, err: nat)
      returns (fault: bool, arg: Arg, err': nat)
      requires TypesMatch(types) && TypesOk(types) && t in types && tree == Tree(types, t)
      requires t.linked && t.hasArgs && a != Null
      modifies this`mem
      ensures var c := Copy(tree, a, oracle, old(mem), err);
              if fault then c == Fault else c == Copied(arg, mem, err')
      decreases a, 0
    {
      fault, arg, err' := false, Null, err;
      assert TypeIs(t, types[t]) && TypeOk(types, t);
      var ok, node := AllocPair();
      if !ok {
        err' := err' + 1;
      } else if !a.Pair? {
        fault := true;
      } else {
        var l, r;
        fault, l, err' := CopyArgument(t, types, tree, a.left, err');
        if !fault {
          fault, r, err' := CopyArgument(t, types, tree, a.right, err');
          if !fault {
            arg := Pair(node, l, r);
          }
        }
      }
    }

    method FreeArgument(t: FieldType?, ghost types: Types, ghost tree: TypeTree, a: Arg)
      requires TypesMatch(types) && TypesOk(types) && LiveType(types, t) && tree == Tree(types, t) && Fits(tree, a)
      modifies this`mem
      ensures mem == Free(tree, a, old(mem))
      decreases a
    {
      if t != null {
        assert TypeIs(t, types[t]) && TypeOk(types, t);
        if t.hasArgs {
          if t.linked {
            if a != Null {
              FreeArgument(t.left, types, tree.left, a.left);
              FreeArgument(t.right, types, tree.right, a.right);
              mem := mem.(pairs := mem.pairs - {a.node}, released := mem.released + [a.node]);
            }
          } else {
            var call := Call(Basic(t, t.hasArgs, t.copyarg, t.freearg), a);
            if t.freearg {
              mem := mem.(freed := mem.freed + [call]);
            } else {
              mem := mem.(dropped := mem.dropped + [call]);
            }
          }
        }
      }
    }

    // ---- Single assignments ------------------------------------------------

    method AddRef(t: FieldType, d: int)
      requires Matches() && t in store.types
      modifies this`store, t`ref
      ensures Matches() && store == old(store).(types := Bump(old(store).types, t, d))
    {
      ghost var s := store;
      assert TypeIs(t, s.types[t]);
      t.ref := t.ref + d;
      store := s.(types := Bump(s.types, t, d));
      forall u | u in s.types ensures TypeIs(u, store.types[u]) {
        assert u != t ==> old(TypeIs(u, s.types[u]));
      }
      assert FieldsMatch(store.fields);
    }

    method SetType(f: Field, t: FieldType?, a: Arg)
      requires Matches() && f in store.fields
      modifies this`store, f`typ, f`arg
      ensures Matches()
      ensures store == old(store).(fields := old(store).fields[f := old(store).fields[f].(typ := t, arg := a)])
    {
      ghost var s := store;
      assert FieldIs(f, s.fields[f]);
      f.typ, f.arg := t, a;
      store := s.(fields := s.fields[f := s.fields[f].(typ := t, arg := a)]);
      forall g | g in s.fields ensures FieldIs(g, store.fields[g]) {
        assert g != f ==> old(FieldIs(g, s.fields[g]));
      }
      assert TypesMatch(store.types);
    }

    method SetLink(f: Field, g: Field?)
      requires Matches() && f in store.fields
      modifies this`store, f`link
      ensures Matches() && store == old(store).(fields := old(store).fields[f := old(store).fields[f].(link := g)])
    {
      ghost var s := store;
      assert FieldIs(f, s.fields[f]);
      f.link := g;
      store := s.(fields := s.fields[f := s.fields[f].(link := g)]);
      forall h | h in s.fields ensures FieldIs(h, store.fields[h]) {
        assert h != f ==> old(FieldIs(h, s.fields[h]));
      }
      assert TypesMatch(store.types);
    }

    method SetBuffer(f: Field, b: array<char>)
      requires Matches() && f in store.fields
      modifies this`store, f`buf
      ensures Matches() && store == GiveBuffer(old(store), f, b)
    {
      ghost var s := store;
      assert FieldIs(f, s.fields[f]);
      f.buf := b;
      store := GiveBuffer(s, f, b);
      forall h | h in s.fields ensures FieldIs(h, store.fields[h]) {
        assert h != f ==> old(FieldIs(h, s.fields[h]));
      }
      assert TypesMatch(store.types);
    }

    /** A freshly allocated object joins the live fields. */
    method Adopt(nf: Field, ghost r: FieldRec)
      requires Matches() && nf !in store.fields && FieldIs(nf, r)
      modifies this`store
      ensures Matches() && store == old(store).(fields := old(store).fields[nf := r])
    {
      ghost var s := store;
      store := s.(fields := s.fields[nf := r]);
      forall h | h in store.fields ensures FieldIs(h, store.fields[h]) {
        assert h != nf ==> old(FieldIs(h, s.fields[h]));
      }
      assert TypesMatch(store.types);
    }

    /** A malloc for a field, a type or a buffer. */
    method Request() returns (ok: bool)
      requires Matches()
      modifies this`mem, this`store
      ensures Matches() && store == Tick(old(store))
      ensures ok <==> oracle(old(store.mem.tick)) != 0
    {
      ok := Malloc();
      store := store.(mem := mem);
    }

    /** A field is freed. */
    method Drop(f: Field)
      requires Matches()
      modifies this`store
      ensures Matches() && store == old(store).(fields := old(store).fields - {f})
    {
      ghost var s := store;
      store := s.(fields := s.fields - {f});
      forall h | h in store.fields ensures FieldIs(h, store.fields[h]) {
        assert old(FieldIs(h, s.fields[h]));
      }
      assert TypesMatch(store.types);
    }

    /** `f` takes the type `t`, which gains a use. */
    method BindType(f: Field, t: FieldType?, a: Arg)
      requires Matches() && f in store.fields && LiveType(store.types, t)
      modifies this`store, store.types.Keys`ref, f`typ, f`arg
      ensures Matches() && store == Bind(old(store), f, t, a, old(store).mem)
    {
      SetType(f, t, a);
      if t != null {
        AddRef(t, 1);
      }
    }

    // ---- Types of fields ---------------------------------------------------

    /** _nc_Free_Type */
    method FreeType(f: Field)
      requires Matches() && CanDetach(store, f)
      modifies this`mem, this`store, store.types.Keys`ref
      ensures Matches() && store == Loosen(old(store), f)
    {
      ghost var s := store;
      assert FieldIs(f, s.fields[f]);
      if f.typ != null {
        TreeBump(s.types, f.typ, -1, f.typ);
        AddRef(f.typ, -1);
        FreeArgument(f.typ, store.types, Tree(s.types, f.typ), f.arg);
        store := store.(mem := mem);
      }
    }

    /** Releases an argument that no field holds. */
    method Discard(t: FieldType?, ghost tree: TypeTree, arg: Arg)
      requires Matches() && TypesOk(store.types) && LiveType(store.types, t)
      requires tree == Tree(store.types, t) && Fits(tree, arg)
      modifies this`mem, this`store
      ensures Matches() && store == old(store).(mem := Free(tree, arg, old(store).mem))
    {
      FreeArgument(t, store.types, tree, arg);
      store := store.(mem := mem);
    }

    /** How _nc_Copy_Type and set_field_type end: an argument that was built
        without an error goes to the field, any other is released. */
    method Settle(f: Field, t: FieldType?, ghost tree: TypeTree, arg: Arg, err: nat) returns (ok: bool)
      requires Matches() && f in store.fields && TypesOk(store.types) && LiveType(store.types, t)
      requires tree == Tree(store.types, t) && (err != 0 ==> Fits(tree, arg))
      modifies this`mem, this`store, store.types.Keys`ref, f`typ, f`arg
      ensures Matches() && (ok <==> err == 0)
      ensures store == if ok then Bind(old(store), f, t, arg, old(store).mem)
                       else old(store).(mem := Free(tree, arg, old(store).mem))
    {
      ok := err == 0;
      if ok {
        BindType(f, t, arg);
      } else {
        Discard(t, tree, arg);
      }
    }

    /** _nc_Copy_Type */
    method CopyType(dst: Field, src: Field) returns (r: bool, fault: bool)
      requires Matches() && Inv(store) && dst in store.fields && src in store.fields
      requires store.fields[dst].typ == null && store.fields[dst].arg == Null
      modifies this`mem, this`store, store.types.Keys`ref, dst`typ, dst`arg
      ensures var c := R.CopyType(old(store), oracle, dst, src);
              if fault then c == Faulted else Matches() && c == Ran(store, if r then Ok else SystemError)
    {
      ghost var s := store;
      assert HolderOk(s.types, s.fields, src) && FieldIs(src, s.fields[src]) && FieldIs(dst, s.fields[dst]);
      ghost var tree := Tree(s.types, src.typ);
      R.CopyFailedOk(s, tree, src.arg, oracle);
      var t := src.typ;
      r := false;
      var arg, err;
      fault, arg, err := CopyArgument(t, s.types, tree, src.arg, 0);
      if !fault {
        store := store.(mem := mem);
        r := Settle(dst, t, tree, arg, err);
      }
    }

    // ---- free_field --------------------------------------------------------

    /** The search loop of free_field: the ring distance back to `f` shrinks. */
    method FindPred(f: Field) returns (g: Field)
      requires Matches() && InRing(store, f)
      requires RingShape(store.fields, store.fields[f].buf, store.rings[store.fields[f].buf])
      ensures g == Pred(store, f)
    {
      ghost var b := store.fields[f].buf;
      ghost var ring := store.rings[b];
      ghost var k, n := IndexOf(ring, f), |ring|;
      g := f;
      ghost var i: nat := k;
      assert Member(store.fields, b, ring, i) && FieldIs(g, store.fields[g]);
      while g.link != f
        invariant i < n && g == ring[i] && Member(store.fields, b, ring, i) && FieldIs(g, store.fields[g])
        decreases if i < k then k - i else n - i + k
      {
        assert g.link == ring[Next(i, n)];
        g := g.link;
        i := Next(i, n);
        assert Member(store.fields, b, ring, i) && FieldIs(g, store.fields[g]);
      }
      assert ring[Next(i, n)] == ring[k];
    }

    /** The ring part of free_field. */
    method LeaveRing(f: Field)
      requires Matches() && f in store.fields && CanUnlink(store, f)
      requires store.fields[f].link != f ==>
                 RingShape(store.fields, store.fields[f].buf, store.rings[store.fields[f].buf])
      modifies this`store, store.fields.Keys`link
      ensures Matches() && store == R.Unringed(old(store), f)
    {
      ghost var s := store;
      assert FieldIs(f, s.fields[f]);
      if f == f.link {
        if f.buf != null {
          store := s.(rings := s.rings - {f.buf}, gone := s.gone + [f.buf]);
        }
      } else {
        var g := FindPred(f);
        SetLink(g, f.link);
        store := store.(rings := s.rings[f.buf := Without(s.rings[f.buf], IndexOf(s.rings[f.buf], f))]);
      }
    }

    /** free_field of a live field that belongs to no form. */
    method Release(f: Field)
      requires Matches() && Inv(store) && f in store.fields && f != dflt
      modifies this`mem, this`store, store.fields.Keys`link, store.types.Keys`ref
      ensures Matches() && store == R.Release(old(store), f)
    {
      R.ReleaseInOrder(store, f);
      LeaveRing(f);
      FreeType(f);
      Drop(f);
    }

    method FreeField(f: Field?) returns (st: Status)
      requires Valid() && (f == null || (f in store.fields && f != dflt))
      modifies this`mem, this`store, store.fields.Keys`link, store.types.Keys`ref
      ensures Valid() && R.FreeField(old(store), f) == Ran(store, st)
    {
      if f == null {
        return BadArgument;
      }
      assert FieldIs(f, store.fields[f]);
      if f.connected {
        return Connected;
      }
      Release(f);
      st := Ok;
    }

    // ---- new_field, dup_field, link_field ----------------------------------

    /** The buffer request that ends new_field and dup_field. */
    method TakeBuffer(nf: Field, nb: array<char>) returns (st: Status)
      requires Matches() && Inv(store) && nf in store.fields && nf != dflt && store.fields[nf].buf == null
      requires AllBuffered(store, nf) && NewBuffer(store, nb) && nb.Length >= TotalSize(store.fields[nf].dims)
      modifies this`mem, this`store, store.fields.Keys`link, store.types.Keys`ref, nf`buf
      ensures Matches() && R.Buffered(old(store), oracle, nf, nb) == Ran(store, st)
    {
      R.InvTick(store);
      assert FieldIs(nf, store.fields[nf]);
      var total := TotalSize(Dims(nf.drows, nf.dcols, nf.nbuf));
      var ok := Request();
      if !ok || total < 0 {
        Release(nf);
        st := SystemError;
      } else {
        SetBuffer(nf, nb);
        st := Ok;
      }
    }

    /** The end of new_field and dup_field: copy the type, then get the buffer `nb`. */
    method Finish(nf: Field, src: Field, nb: array<char>) returns (st: Status, fault: bool)
      requires Matches() && Inv(store) && nf in store.fields && nf != dflt && src in store.fields
      requires store.fields[nf] == FieldRec(nf, null, Null, null, store.fields[nf].dims, false)
      requires AllBuffered(store, nf) && NewBuffer(store, nb) && nb.Length >= TotalSize(store.fields[nf].dims)
      modifies this`mem, this`store, store.fields.Keys`link, store.types.Keys`ref, nf`typ, nf`arg, nf`buf
      ensures var c := R.Finish(old(store), oracle, nf, src, nb);
              if fault then c == Faulted else Matches() && c == Ran(store, st)
    {
      st := SystemError;
      var ok;
      ok, fault := CopyType(nf, src);
      if !fault {
        if ok {
          st := TakeBuffer(nf, nb);
        } else {
          Release(nf);
        }
      }
    }

    /** A new field outside every ring, in memory that malloc returned. */
    method InsertNew(nf: Field, d: Dims)
      requires Matches() && nf !in store.fields
      requires FieldIs(nf, FieldRec(null, null, Null, null, Dims(0, 0, 0), false))
      modifies this`store, nf
      ensures Matches() && store == Insert(old(store), nf, d)
    {
      ghost var s := store;
      nf.drows, nf.dcols, nf.nbuf := d.drows, d.dcols, d.nbuf;
      nf.link := nf;
      assert FieldsMatch(s.fields) by {
        forall h | h in s.fields ensures FieldIs(h, s.fields[h]) {
          assert old(FieldIs(h, s.fields[h]));
        }
      }
      assert TypesMatch(s.types);
      Adopt(nf, FieldRec(nf, null, Null, null, d, false));
    }

    /** What new_field and dup_field do once their arguments are accepted;
        `nf` and `nb` are what the two calls of malloc return if they succeed. */
    method Create(nf: Field, src: Field, d: Dims, nb: array<char>) returns (st: Status, fault: bool)
      requires Matches() && Runs.Good(store) && nf !in store.fields && src in store.fields
      requires FieldIs(nf, FieldRec(null, null, Null, null, Dims(0, 0, 0), false))
      requires NewBuffer(store, nb) && nb.Length >= TotalSize(d)
      modifies this`mem, this`store, store.fields.Keys`link, store.types.Keys`ref, nf
      ensures var c := R.Create(old(store), oracle, nf, src, d, nb);
              if fault then c == Faulted else Matches() && c == Ran(store, st)
    {
      st, fault := SystemError, false;
      ghost var s := store;
      R.InsertReady(s, nf, d, nb);
      var ok := Request();
      if ok {
        InsertNew(nf, d);
        st, fault := Finish(nf, src, nb);
      }
    }

    /** The memory that malloc would return for a field and its buffer. */
    method NewObjects(size: int) returns (nf: Field, nb: array<char>)
      requires Matches()
      ensures Matches() && fresh(nf) && fresh(nb) && nf !in store.fields && NewBuffer(store, nb)
      ensures nb.Length == if size < 0 then 0 else size
      ensures FieldIs(nf, FieldRec(null, null, Null, null, Dims(0, 0, 0), false))
    {
      nf := new Field();
      nb := new char[if size < 0 then 0 else size];
    }

    /** Fills the new buffer, and changes no field and no type. */
    method PrefillBuffer(buffer: array<char>, d: Dims)
      requires Matches() && d.drows > 0 && d.dcols > 0 && buffer.Length == TotalSize(d)
      modifies buffer
      ensures Matches() && BlankBuffers(buffer[..], d)
    {
      RowsFit(BufferLength(d), 1 + d.nbuf);
      Prefill(buffer, BufferLength(d), 1 + d.nbuf);
    }

    method NewField(rows: int, cols: int, frow: int, fcol: int, nrow: int, nbuf: int)
      returns (r: Field?, st: Status, fault: bool, ghost nf: Field, ghost nb: array<char>)
      requires Valid()
      modifies this`mem, this`store, store.fields.Keys`link, store.types.Keys`ref
      ensures fresh(nf) && fresh(nb) && nf !in old(store).fields && NewBuffer(old(store), nb)
      ensures nb.Length >= TotalSize(Dims(rows + nrow, cols, ToShort(nbuf)))
      ensures var c := R.NewField(old(store), oracle, nf, nb, rows, cols, frow, fcol, nrow, nbuf);
              if fault then c == Faulted else Valid() && c == Ran(store, st)
      ensures r == if !fault && st == Ok then nf else null
      ensures r != null ==> BlankBuffers(nb[..], Dims(rows + nrow, cols, ToShort(nbuf)))
      ensures r != null ==>
                && r.drows == rows + nrow && r.dcols == cols && r.nbuf == ToShort(nbuf)
                && r.link == r && r.buf == nb && r.typ == old(dflt.typ) && !r.connected
    {
      var d := Dims(rows + nrow, cols, ToShort(nbuf));
      var field, buffer := NewObjects(TotalSize(d));
      nf, nb, r, fault := field, buffer, null, false;
      if rows <= 0 || cols <= 0 || frow < 0 || fcol < 0 || nrow < 0 || nbuf < 0 {
        st := BadArgument;
      } else {
        st, fault := NewInto(field, d, buffer);
        r := if !fault && st == Ok then field else null;
      }
    }

    /** A field of size `d` that is alone with its buffer. */
    ghost predicate IsNew(f: Field, d: Dims, b: array<char>, t: FieldType?)
      reads f
    {
      && Dims(f.drows, f.dcols, f.nbuf) == d
      && f.link == f && f.buf == b && f.typ == t && !f.connected
    }

    /** new_field once its arguments are accepted, with the memory that its two
        calls of malloc would return. */
    method NewInto(nf: Field, d: Dims, nb: array<char>) returns (st: Status, fault: bool)
      requires Valid() && nf !in store.fields && d.drows > 0 && d.dcols > 0
      requires FieldIs(nf, FieldRec(null, null, Null, null, Dims(0, 0, 0), false))
      requires NewBuffer(store, nb) && nb.Length == if TotalSize(d) < 0 then 0 else TotalSize(d)
      modifies this`mem, this`store, store.fields.Keys`link, store.types.Keys`ref, nf, nb
      ensures var c := R.Create(old(store), oracle, nf, dflt, d, nb);
              if fault then c == Faulted else Valid() && c == Ran(store, st)
      ensures !fault && st == Ok ==> BlankBuffers(nb[..], d) && IsNew(nf, d, nb, old(dflt.typ))
    {
      R.CreatedFits(store, oracle, nf, dflt, d, nb);
      Runs.CreatedFieldStandsAlone(store, oracle, nf, dflt, d, nb);
      assert FieldIs(dflt, store.fields[dflt]);
      st, fault := Create(nf, dflt, d, nb);
      if !fault && st == Ok {
        assert FieldIs(nf, store.fields[nf]);
        PrefillBuffer(nb, d);
      }
    }

    /** The memcpy of dup_field, which is within both buffers. */
    method CopyBuffer(f: Field, nb: array<char>)
      requires Matches() && f in store.fields && store.fields[f].buf != null && store.fields[f].buf != nb
      requires 0 <= TotalSize(store.fields[f].dims) <= nb.Length
      requires TotalSize(store.fields[f].dims) <= store.fields[f].buf.Length
      modifies nb
      ensures Matches() && SameCells(f, nb)
    {
      assert FieldIs(f, store.fields[f]);
      var n := TotalSize(Dims(f.drows, f.dcols, f.nbuf));
      var i := 0;
      while i < n
        invariant 0 <= i <= n
        invariant forall k :: 0 <= k < i ==> nb[k] == f.buf[k]
      {
        nb[i] := f.buf[i];
        i := i + 1;
      }
    }

    ghost predicate SameCells(f: Field, nb: array<char>)
      reads f, f.buf, nb
    {
      && f.buf != null
      && var n := TotalSize(Dims(f.drows, f.dcols, f.nbuf));
      && 0 <= n <= nb.Length && n <= f.buf.Length
      && forall k :: 0 <= k < n ==> nb[k] == f.buf[k]
    }

    /** dup_field with the memory that its two calls of malloc would return. */
    method DupInto(f: Field?, nf: Field, nb: array<char>, frow: int, fcol: int) returns (st: Status, fault: bool)
      requires Valid() && (f == null || (f in store.fields && f != dflt)) && nf !in store.fields
      requires FieldIs(nf, FieldRec(null, null, Null, null, Dims(0, 0, 0), false))
      requires NewBuffer(store, nb) && (f != null ==> nb.Length >= TotalSize(store.fields[f].dims))
      modifies this`mem, this`store, store.fields.Keys`link, store.types.Keys`ref, nf, nb
      ensures var c := R.DupField(old(store), oracle, f, nf, nb, frow, fcol);
              if fault then c == Faulted else Valid() && c == Ran(store, st)
      ensures !fault && st == Ok ==>
                f != null && SameCells(f, nb) && IsNew(nf, Dims(f.drows, f.dcols, f.nbuf), nb, old(f.typ))
    {
      if f == null || frow < 0 || fcol < 0 {
        return BadArgument, false;
      }
      assert R.DupField(store, oracle, f, nf, nb, frow, fcol) ==
             R.Create(store, oracle, nf, f, store.fields[f].dims, nb);
      st, fault := DupAccepted(f, nf, nb);
    }

    method DupAccepted(f: Field, nf: Field, nb: array<char>) returns (st: Status, fault: bool)
      requires Valid() && f in store.fields && f != dflt && nf !in store.fields
      requires FieldIs(nf, FieldRec(null, null, Null, null, Dims(0, 0, 0), false))
      requires NewBuffer(store, nb) && nb.Length >= TotalSize(store.fields[f].dims)
      modifies this`mem, this`store, store.fields.Keys`link, store.types.Keys`ref, nf, nb
      ensures var c := R.Create(old(store), oracle, nf, f, old(store).fields[f].dims, nb);
              if fault then c == Faulted else Valid() && c == Ran(store, st)
      ensures !fault && st == Ok ==> SameCells(f, nb) && IsNew(nf, Dims(f.drows, f.dcols, f.nbuf), nb, old(f.typ))
    {
      ghost var t := f.typ;
      assert FieldIs(f, store.fields[f]);
      Outcomes.DupMakes(store, oracle, nf, f, nb);
      st, fault := CreateLike(f, nf, nb);
      if !fault && st == Ok {
        FillDup(f, nf, nb, t);
      }
    }

    /** The field that dup_field creates is as large as `f`. */
    method CreateLike(f: Field, nf: Field, nb: array<char>) returns (st: Status, fault: bool)
      requires Matches() && Runs.Good(store) && nf !in store.fields && f in store.fields
      requires FieldIs(nf, FieldRec(null, null, Null, null, Dims(0, 0, 0), false))
      requires NewBuffer(store, nb) && nb.Length >= TotalSize(store.fields[f].dims)
      modifies this`mem, this`store, store.fields.Keys`link, store.types.Keys`ref, nf
      ensures var c := R.Create(old(store), oracle, nf, f, old(store).fields[f].dims, nb);
              if fault then c == Faulted else Matches() && c == Ran(store, st)
    {
      var d := Dims(f.drows, f.dcols, f.nbuf);
      assert FieldIs(f, store.fields[f]);
      assert d == store.fields[f].dims;
      st, fault := Create(nf, f, d, nb);
    }

    /** The new field is as large as `f`; its buffer takes the cells. */
    method FillDup(f: Field, nf: Field, nb: array<char>, ghost t: FieldType?)
      requires Matches() && f in store.fields && nf in store.fields
      requires store.fields[f].buf != null && store.fields[f].buf != nb
      requires 0 <= TotalSize(store.fields[f].dims) <= nb.Length
      requires TotalSize(store.fields[f].dims) <= store.fields[f].buf.Length
      requires var r := store.fields[nf];
               r == FieldRec(nf, t, r.arg, nb, store.fields[f].dims, false)
      modifies nb
      ensures Matches() && SameCells(f, nb) && IsNew(nf, Dims(f.drows, f.dcols, f.nbuf), nb, t)
    {
      assert FieldIs(nf, store.fields[nf]) && FieldIs(f, store.fields[f]);
      CopyBuffer(f, nb);
    }

    method DupField(f: Field?, frow: int, fcol: int)
      returns (r: Field?, st: Status, fault: bool, ghost nf: Field, ghost nb: array<char>)
      requires Valid() && (f == null || (f in store.fields && f != dflt))
      modifies this`mem, this`store, store.fields.Keys`link, store.types.Keys`ref
      ensures fresh(nf) && fresh(nb) && nf !in old(store).fields && NewBuffer(old(store), nb)
      ensures f != null ==> nb.Length >= TotalSize(old(store).fields[f].dims)
      ensures var c := R.DupField(old(store), oracle, f, nf, nb, frow, fcol);
              if fault then c == Faulted else Valid() && c == Ran(store, st)
      ensures r == if !fault && st == Ok then nf else null
      ensures r != null ==> f != null && SameCells(f, nb)
      ensures r != null ==>
                && r.drows == f.drows && r.dcols == f.dcols && r.nbuf == f.nbuf
                && r.link == r && r.buf == nb && r.typ == old(f.typ) && !r.connected
    {
      assert f != null ==> FieldIs(f, store.fields[f]);
      var total := if f == null then 0 else TotalSize(Dims(f.drows, f.dcols, f.nbuf));
      var field, buffer := NewObjects(20 * total);
      st, fault := DupInto(f, field, buffer, frow, fcol);
      nf, nb, r := field, buffer, if !fault && st == Ok then field else null;
    }

    /** The new field takes its place in the ring of `f`. */
    method SpliceIn(f: Field, nf: Field)
      requires Matches() && InRing(store, f) && nf !in store.fields
      requires FieldIs(nf, FieldRec(null, null, Null, null, Dims(0, 0, 0), false))
      modifies this`store, nf, f`link
      ensures Matches() && store == Splice(old(store), f, nf)
    {
      ghost var s := store;
      ghost var r := s.fields[f];
      assert FieldIs(f, r);
      FillLink(f, nf);
      Adopt(nf, FieldRec(r.link, null, Null, r.buf, r.dims, false));
      SetLink(f, nf);
      store := store.(rings := Splice(s, f, nf).rings);
    }

    /** The new field takes its place and its size from `f`. */
    method FillLink(f: Field, nf: Field)
      requires Matches() && f in store.fields && nf !in store.fields
      requires FieldIs(nf, FieldRec(null, null, Null, null, Dims(0, 0, 0), false))
      modifies nf
      ensures Matches() && FieldIs(nf, FieldRec(f.link, null, Null, f.buf, Dims(f.drows, f.dcols, f.nbuf), false))
      ensures unchanged(f)
    {
      nf.link := f.link;
      nf.buf := f.buf;
      nf.drows, nf.dcols, nf.nbuf := f.drows, f.dcols, f.nbuf;
    }

    /** The end of link_field: copy the type of `f`, or free the new field. */
    method CopyOrRelease(nf: Field, f: Field) returns (st: Status, fault: bool)
      requires Matches() && Inv(store) && nf in store.fields && nf != dflt && f in store.fields
      requires store.fields[nf].typ == null && store.fields[nf].arg == Null
      modifies this`mem, this`store, store.fields.Keys`link, store.types.Keys`ref, nf`typ, nf`arg
      ensures var c := R.CopyType(old(store), oracle, nf, f);
              if c.Faulted? then fault
              else && !fault && Matches() && st == c.status
                   && store == if st == Ok then c.store else R.Release(c.store, nf)
    {
      var ok;
      ok, fault := CopyType(nf, f);
      st := if ok then Ok else SystemError;
      if !fault && !ok {
        Release(nf);
      }
    }

    /** link_field once its arguments are accepted and its field is allocated. */
    method LinkNew(f: Field, nf: Field) returns (st: Status, fault: bool)
      requires Matches() && Inv(store) && InRing(store, f) && nf !in store.fields
      requires FieldIs(nf, FieldRec(null, null, Null, null, Dims(0, 0, 0), false))
      modifies this`mem, this`store, store.fields.Keys`link, store.types.Keys`ref, nf
      ensures var c := R.LinkNew(old(store), oracle, f, nf);
              if fault then c == Faulted else Matches() && c == Ran(store, st)
    {
      InvSplice(store, f, nf);
      SpliceIn(f, nf);
      st, fault := CopyOrRelease(nf, f);
    }

    /** link_field once its arguments are accepted. */
    method LinkCreate(f: Field, nf: Field) returns (st: Status, fault: bool)
      requires Matches() && Inv(store) && Inv(Tick(store)) && InRing(Tick(store), f) && nf !in store.fields
      requires FieldIs(nf, FieldRec(null, null, Null, null, Dims(0, 0, 0), false))
      modifies this`mem, this`store, store.fields.Keys`link, store.types.Keys`ref, nf
      ensures var c := R.LinkCreate(old(store), oracle, f, nf);
              if fault then c == Faulted else Matches() && c == Ran(store, st)
    {
      st, fault := SystemError, false;
      var ok := Request();
      if ok {
        st, fault := LinkNew(f, nf);
      }
    }

    /** link_field with the memory that its malloc would return. */
    method LinkInto(f: Field?, nf: Field, frow: int, fcol: int) returns (st: Status, fault: bool)
      requires Valid() && (f == null || (f in store.fields && f != dflt)) && nf !in store.fields
      requires FieldIs(nf, FieldRec(null, null, Null, null, Dims(0, 0, 0), false))
      modifies this`mem, this`store, store.fields.Keys`link, store.types.Keys`ref, nf
      ensures var c := R.LinkField(old(store), oracle, f, nf, frow, fcol);
              if fault then c == Faulted else Valid() && c == Ran(store, st)
    {
      if f == null || frow < 0 || fcol < 0 {
        return BadArgument, false;
      }
      R.InvTick(store);
      R.Ringed(store, f);
      assert R.LinkField(store, oracle, f, nf, frow, fcol) == R.LinkCreate(store, oracle, f, nf);
      st, fault := LinkCreate(f, nf);
    }

    method LinkField(f: Field?, frow: int, fcol: int) returns (r: Field?, st: Status, fault: bool, ghost nf: Field)
      requires Valid() && (f == null || (f in store.fields && f != dflt))
      modifies this`mem, this`store, store.fields.Keys`link, store.types.Keys`ref
      ensures fresh(nf) && nf !in old(store).fields
      ensures var c := R.LinkField(old(store), oracle, f, nf, frow, fcol);
              if fault then c == Faulted else Valid() && c == Ran(store, st)
      ensures r == if !fault && st == Ok then nf else null
    {
      var field, _ := NewObjects(0);
      st, fault := LinkInto(f, field, frow, fcol);
      nf, r := field, if !fault && st == Ok then field else null;
    }

    // ---- set_field_type ----------------------------------------------------

    /** The second half of set_field_type: give `f`, which has no type, the type `t`. */
    method Attach(f: Field, t: FieldType?) returns (st: Status)
      requires Matches() && Inv(store) && f in store.fields && LiveType(store.types, t)
      requires store.fields[f].typ == null && store.fields[f].arg == Null
      modifies this`mem, this`store, store.types.Keys`ref, f`typ, f`arg
      ensures Matches() && R.Attach(old(store), oracle, f, t) == Ran(store, st)
    {
      ghost var b := Make(Tree(store.types, t), oracle, store.mem, 0);
      R.AttachOutcome(store, oracle, f, t, b);
      var ok := MakeAndSettle(f, t, b);
      st := if ok then Ok else SystemError;
    }

    method MakeAndSettle(f: Field, t: FieldType?, ghost b: Built) returns (ok: bool)
      requires Matches() && f in store.fields && TypesOk(store.types) && LiveType(store.types, t)
      requires b == Make(Tree(store.types, t), oracle, store.mem, 0) && Fits(Tree(store.types, t), b.arg)
      modifies this`mem, this`store, store.types.Keys`ref, f`typ, f`arg
      ensures Matches() && (ok <==> b.err == 0)
      ensures store == if ok then Bind(old(store), f, t, b.arg, b.mem)
                       else old(store).(mem := Free(Tree(old(store).types, t), b.arg, b.mem))
    {
      ghost var tree := Tree(store.types, t);
      var arg, err := MakeArgument(t, store.types, tree, 0);
      store := store.(mem := mem);
      ok := Settle(f, t, tree, arg, err);
    }

    method SetFieldType(f: Field?, t: FieldType?) returns (st: Status)
      requires Valid() && (f == null || f in store.fields) && LiveType(store.types, t)
      modifies this`mem, this`store, store.types.Keys`ref, store.fields.Keys`typ, store.fields.Keys`arg
      ensures Valid() && R.SetFieldType(old(store), oracle, f, t) == Ran(store, st)
      ensures var g := if f == null then dflt else f;
              if st == Ok then g.typ == t else st == SystemError && g.typ == null && g.arg == Null
    {
      ghost var s := store;
      var field := if f == null then dflt else f;
      InvDetach(s, field);
      st := Retype(field, t);
      assert R.SetFieldType(s, oracle, f, t) == Ran(store, st);
      Outcomes.SetFieldTypeOutcome(s, oracle, f, t);
      assert FieldIs(field, store.fields[field]);
    }

    method Retype(f: Field, t: FieldType?) returns (st: Status)
      requires Matches() && CanDetach(store, f) && Inv(Detach(store, f)) && LiveType(store.types, t)
      modifies this`mem, this`store, store.types.Keys`ref, f`typ, f`arg
      ensures Matches() && R.Attach(Detach(old(store), f), oracle, f, t) == Ran(store, st)
    {
      Unset(f);
      st := Attach(f, t);
    }

    /** The first half of set_field_type: `f` loses its type. */
    method Unset(f: Field)
      requires Matches() && CanDetach(store, f)
      modifies this`mem, this`store, store.types.Keys`ref, f`typ, f`arg
      ensures Matches() && store == Detach(old(store), f)
    {
      FreeType(f);
      SetType(f, null, Null);
    }

    // ---- Field types -------------------------------------------------------

    /** A freshly allocated object joins the live types. */
    method AdoptType(nt: FieldType, ghost r: TypeRec)
      requires Matches() && nt !in store.types && TypeIs(nt, r)
      modifies this`store
      ensures Matches() && store == old(store).(types := old(store).types[nt := r])
    {
      ghost var s := store;
      store := s.(types := s.types[nt := r]);
      forall u | u in store.types ensures TypeIs(u, store.types[u]) {
        assert u != nt ==> old(TypeIs(u, s.types[u]));
      }
      assert FieldsMatch(store.fields);
    }

    /** The memory that malloc would return for a type. */
    method NewTypeObject() returns (nt: FieldType)
      requires Matches()
      modifies this`clock
      ensures Matches() && fresh(nt) && nt !in store.types && nt.birth == old(clock) && clock == old(clock) + 1
      ensures TypeIs(nt, R.NEW_TYPE)
    {
      nt := new FieldType(clock);
      clock := clock + 1;
    }

    method NewFieldType(hasCheck: bool) returns (r: FieldType?, st: Status, ghost nt: FieldType)
      requires Valid()
      modifies this`mem, this`store, this`clock
      ensures fresh(nt) && nt !in old(store).types
      ensures Valid() && R.NewFieldType(old(store), oracle, nt, hasCheck) == Ran(store, st)
      ensures r == if st == Ok then nt else null
    {
      ghost var s := store;
      var typ := NewTypeObject();
      nt, r := typ, null;
      if !hasCheck {
        st := BadArgument;
      } else {
        var ok := Request();
        st := SystemError;
        if ok {
          AdoptType(typ, R.NEW_TYPE);
          r, st := typ, Ok;
        }
      }
      assert R.NewFieldType(s, oracle, nt, hasCheck) == Ran(store, st);
    }

    method FillLinked(nt: FieldType, t1: FieldType, t2: FieldType)
      requires Matches() && nt !in store.types && t1 in store.types && t2 in store.types && TypeIs(nt, R.NEW_TYPE)
      modifies nt
      ensures Matches() && TypeIs(nt, R.LinkedRec(store.types, t1, t2))
    {
      assert TypeIs(t1, store.types[t1]) && TypeIs(t2, store.types[t2]);
      Join(nt, t1, t2, R.LinkedRec(store.types, t1, t2));
    }

    method Join(nt: FieldType, t1: FieldType, t2: FieldType, ghost r: TypeRec)
      requires nt != t1 && nt != t2 && TypeIs(nt, R.NEW_TYPE)
      requires r == R.NEW_TYPE.(linked := true,
                                hasArgs := t1.hasArgs || t2.hasArgs, hasChoice := t1.hasChoice || t2.hasChoice,
                                left := t1, right := t2)
      modifies nt
      ensures TypeIs(nt, r)
    {
      nt.linked := true;
      nt.hasArgs := t1.hasArgs || t2.hasArgs;
      nt.hasChoice := t1.hasChoice || t2.hasChoice;
      nt.left, nt.right := t1, t2;
    }

    /** link_fieldtype once its type is allocated. */
    method LinkTypes(nt: FieldType, t1: FieldType, t2: FieldType)
      requires Matches() && nt !in store.types && t1 in store.types && t2 in store.types && TypeIs(nt, R.NEW_TYPE)
      modifies this`store, nt, t1`ref, t2`ref
      ensures Matches() && store == old(store).(types := R.AddLinked(old(store).types, nt, t1, t2))
    {
      FillLinked(nt, t1, t2);
      AdoptType(nt, R.LinkedRec(store.types, t1, t2));
      AddRef(t1, 1);
      AddRef(t2, 1);
    }

    method LinkFieldType(t1: FieldType?, t2: FieldType?) returns (r: FieldType?, st: Status, ghost nt: FieldType)
      requires Valid() && LiveType(store.types, t1) && LiveType(store.types, t2)
      modifies this`mem, this`store, this`clock, store.types.Keys`ref
      ensures fresh(nt) && nt !in old(store).types
      ensures (t1 != null ==> t1.birth < nt.birth) && (t2 != null ==> t2.birth < nt.birth)
      ensures Valid() && R.LinkFieldType(old(store), oracle, nt, t1, t2) == Ran(store, st)
      ensures r == if st == Ok then nt else null
    {
      ghost var s := store;
      var typ := NewTypeObject();
      nt, r := typ, null;
      if t1 == null || t2 == null {
        st := BadArgument;
      } else {
        var ok := Request();
        st := SystemError;
        if ok {
          LinkTypes(typ, t1, t2);
          r, st := typ, Ok;
        }
      }
      assert R.LinkFieldType(s, oracle, nt, t1, t2) == Ran(store, st);
    }

    method SetArgs(t: FieldType, copyarg: bool, freearg: bool)
      requires Matches() && t in store.types
      modifies this`store, t`hasArgs, t`copyarg, t`freearg
      ensures Matches() && store == old(store).(types := R.WithArgs(old(store).types, t, copyarg, freearg))
    {
      ghost var s := store;
      assert TypeIs(t, s.types[t]);
      t.hasArgs, t.copyarg, t.freearg := true, copyarg, freearg;
      store := s.(types := R.WithArgs(s.types, t, copyarg, freearg));
      forall u | u in s.types ensures TypeIs(u, store.types[u]) {
        assert u != t ==> old(TypeIs(u, s.types[u]));
      }
      assert FieldsMatch(store.fields);
    }

    method SetFieldTypeArg(t: FieldType?, makearg: bool, copyarg: bool, freearg: bool) returns (st: Status)
      requires Valid() && LiveType(store.types, t)
      modifies this`store, store.types.Keys`hasArgs, store.types.Keys`copyarg, store.types.Keys`freearg
      ensures Valid() && R.SetFieldTypeArg(old(store), t, makearg, copyarg, freearg) == Ran(store, st)
    {
      if t == null || !makearg {
        return BadArgument;
      }
      ghost var s := store;
      SetArgs(t, copyarg, freearg);
      st := Ok;
      assert R.SetFieldTypeArg(s, t, makearg, copyarg, freearg) == Ran(store, st);
    }

    /** A type is freed. */
    method DropTypeObject(t: FieldType)
      requires Matches()
      modifies this`store
      ensures Matches() && store == old(store).(types := old(store).types - {t})
    {
      ghost var s := store;
      store := s.(types := s.types - {t});
      forall u | u in store.types ensures TypeIs(u, store.types[u]) {
        assert old(TypeIs(u, s.types[u]));
      }
      assert FieldsMatch(store.fields);
    }

    /** The last two steps of free_fieldtype. */
    method ReleaseType(t: FieldType)
      requires Matches() && TypesOk(store.types) && t in store.types
      modifies this`store, store.types.Keys`ref
      ensures Matches() && store == old(store).(types := R.DropType(old(store).types, t))
    {
      assert TypeIs(t, store.types[t]) && TypeOk(store.types, t);
      if t.linked {
        AddRef(t.left, -1);
        AddRef(t.right, -1);
      }
      DropTypeObject(t);
    }

    method FreeFieldType(t: FieldType?) returns (st: Status)
      requires Valid() && LiveType(store.types, t)
      modifies this`store, store.types.Keys`ref
      ensures Valid() && R.FreeFieldType(old(store), t) == Ran(store, st)
    {
      if t == null {
        return BadArgument;
      }
      ghost var s := store;
      assert TypeIs(t, s.types[t]);
      if t.ref != 0 || t.resident {
        return Connected;
      }
      ReleaseType(t);
      st := Ok;
      assert R.FreeFieldType(s, t) == Ran(store, st);
    }
  }
}
