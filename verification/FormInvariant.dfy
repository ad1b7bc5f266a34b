/** Each elementary change of the store keeps the invariant. */
module FormInvariant {
  import opened Collections
  import opened FieldTypes
  import opened ArgumentTrees
  import opened FormStore

  // ---- Type trees under a change of types ----------------------------------

  predicate SameOperands(a: Types, b: Types, t: FieldType)
    requires t in a && t in b
  {
    && a[t].linked == b[t].linked && a[t].left == b[t].left && a[t].right == b[t].right
    && (a[t].hasArgs ==> b[t].hasArgs)
  }

  /** `b` has the operands of `a` where both are defined, and no fewer flags. */
  predicate Extends(a: Types, b: Types)
  {
    forall t {:trigger SameOperands(a, b, t)} :: t in a && t in b ==> SameOperands(a, b, t)
  }

  lemma {:induction false} FitsFrame(a: Types, b: Types, t: FieldType?, arg: Arg)
    requires TypesOk(a) && TypesOk(b) && Extends(a, b)
    requires LiveType(a, t) && LiveType(b, t) && Fits(Tree(a, t), arg)
    ensures Fits(Tree(b, t), arg)
    decreases if t == null then 0 else t.birth + 1
  {
    if t != null {
      assert SameOperands(a, b, t) && TypeOk(a, t) && TypeOk(b, t);
      if a[t].linked && arg.Pair? {
        FitsFrame(a, b, a[t].left, arg.left);
        FitsFrame(a, b, a[t].right, arg.right);
      }
    }
  }

  /** The type `y` is the excepted type `x`, or as it was but for its count. */
  predicate Kept(a: Types, b: Types, x: FieldType?, y: FieldType)
    requires y in a
  {
    y == x || (y in b && b[y] == a[y].(ref := b[y].ref))
  }

  predicate NotOperand(a: Types, x: FieldType?, y: FieldType)
    requires y in a
  {
    a[y].linked ==> a[y].left != x && a[y].right != x
  }

  predicate OthersKept(a: Types, b: Types, x: FieldType?)
  {
    forall y {:trigger Kept(a, b, x, y)} :: y in a ==> Kept(a, b, x, y)
  }

  /** No tree contains `x`, and every other type is kept. */
  predicate KeptBut(a: Types, b: Types, x: FieldType?)
  {
    && OthersKept(a, b, x)
    && (forall y {:trigger NotOperand(a, x, y)} :: y in a ==> NotOperand(a, x, y))
  }

  lemma {:induction false} TreeFrame(a: Types, b: Types, x: FieldType?, t: FieldType?)
    requires TypesOk(a) && TypesOk(b) && KeptBut(a, b, x) && LiveType(a, t) && (t == null || t != x)
    ensures LiveType(b, t) && Tree(b, t) == Tree(a, t)
    decreases if t == null then 0 else t.birth + 1
  {
    if t != null {
      assert TypeOk(a, t) && Kept(a, b, x, t) && NotOperand(a, x, t);
      assert TypeOk(b, t);
      if a[t].linked {
        TreeFrame(a, b, x, a[t].left);
        TreeFrame(a, b, x, a[t].right);
      }
    }
  }

  lemma TreeBump(types: Types, u: FieldType?, d: int, t: FieldType?)
    requires TypesOk(types) && LiveType(types, u) && LiveType(types, t)
    ensures TypesOk(Bump(types, u, d)) && LiveType(Bump(types, u, d), t)
    ensures Tree(Bump(types, u, d), t) == Tree(types, t)
  {
    BumpOk(types, u, d);
    var b := Bump(types, u, d);
    forall y | y in types ensures Kept(types, b, null, y) && NotOperand(types, null, y) {
      assert TypeOk(types, y);
    }
    TreeFrame(types, b, null, t);
  }

  /** A field of `s'` with its type and argument of `s` still holds them. */
  lemma HolderFrame(s: Store, s': Store, f: Field)
    requires TypesOk(s.types) && TypesOk(s'.types) && Extends(s.types, s'.types)
    requires f in s.fields && f in s'.fields && HolderOk(s.types, s.fields, f)
    requires s'.fields[f].typ == s.fields[f].typ && s'.fields[f].arg == s.fields[f].arg
    requires LiveType(s'.types, s.fields[f].typ)
    ensures HolderOk(s'.types, s'.fields, f)
  {
    FitsFrame(s.types, s'.types, s.fields[f].typ, s.fields[f].arg);
  }

  // ---- Counting uses -------------------------------------------------------

  lemma HoldersUpdate(fields: Fields, f: Field, r: FieldRec, t: FieldType)
    requires f in fields
    ensures |Holders(fields[f := r], t)|
         == |Holders(fields, t)| - (if fields[f].typ == t then 1 else 0) + (if r.typ == t then 1 else 0)
  {
    var rest := Holders(fields, t) - {f};
    assert Holders(fields, t) == if fields[f].typ == t then rest + {f} else rest;
    assert Holders(fields[f := r], t) == if r.typ == t then rest + {f} else rest;
  }

  lemma UsersBump(types: Types, u: FieldType?, d: int, t: FieldType)
    requires LiveType(types, u)
    ensures LeftUsers(Bump(types, u, d), t) == LeftUsers(types, t)
    ensures RightUsers(Bump(types, u, d), t) == RightUsers(types, t)
  {
  }

  lemma BumpOk(types: Types, t: FieldType?, d: int)
    requires TypesOk(types) && LiveType(types, t)
    ensures TypesOk(Bump(types, t, d)) && Bump(types, t, d).Keys == types.Keys
    ensures Extends(types, Bump(types, t, d))
  {
    var types' := Bump(types, t, d);
    forall u | u in types' ensures TypeOk(types', u) {
      assert TypeOk(types, u);
    }
  }

  // ---- Changes that leave holders alone ------------------------------------

  /** `f` has the same type and argument in both, or neither where it is missing. */
  predicate SameHolder(s: Store, s': Store, f: Field)
  {
    && (f in s.fields && f !in s'.fields ==> s.fields[f].typ == null && s.fields[f].arg == Null)
    && (f !in s.fields && f in s'.fields ==> s'.fields[f].typ == null && s'.fields[f].arg == Null)
    && (f in s.fields && f in s'.fields ==>
          s'.fields[f].typ == s.fields[f].typ && s'.fields[f].arg == s.fields[f].arg)
  }

  predicate SameHolders(s: Store, s': Store)
  {
    && s'.types == s.types && s'.mem.pairs == s.mem.pairs && MemOk(s'.mem)
    && forall f {:trigger SameHolder(s, s', f)} :: f in s.fields.Keys + s'.fields.Keys ==> SameHolder(s, s', f)
  }

  lemma TypesTransfer(s: Store, s': Store)
    requires TypePart(s) && SameHolders(s, s')
    ensures TypePart(s')
  {
    forall t | t in s'.types ensures RefOk(s', t) {
      assert RefOk(s, t);
      SameUses(s, s', t);
    }
    forall f | f in s'.fields ensures HolderOk(s'.types, s'.fields, f) {
      assert SameHolder(s, s', f);
      if f in s.fields {
        assert HolderOk(s.types, s.fields, f);
      }
    }
  }

  lemma SameUses(s: Store, s': Store, t: FieldType)
    requires SameHolders(s, s')
    ensures Uses(s', t) == Uses(s, t)
  {
    forall f | f in s.fields.Keys + s'.fields.Keys ensures f in Holders(s'.fields, t) <==> f in Holders(s.fields, t) {
      assert SameHolder(s, s', f);
    }
    assert Holders(s'.fields, t) == Holders(s.fields, t);
  }

  lemma OwnedTransfer(s: Store, s': Store, k: nat)
    requires SameHolders(s, s') && NodeOwned(s.fields, k)
    ensures NodeOwned(s'.fields, k)
  {
    var f :| f in s.fields && k in NodesOf(s.fields, f);
    assert SameHolder(s, s', f);
    assert NodesOf(s'.fields, f) == NodesOf(s.fields, f);
  }

  lemma DisjointTransfer(s: Store, s': Store)
    requires SameHolders(s, s') && NodesDisjoint(s.fields)
    ensures NodesDisjoint(s'.fields)
  {
    forall f, g | f in s'.fields && g in s'.fields && f != g
      ensures NodesOf(s'.fields, f) !! NodesOf(s'.fields, g)
    {
      assert SameHolder(s, s', f) && SameHolder(s, s', g);
      if f in s.fields && g in s.fields {
        assert NodesOf(s.fields, f) !! NodesOf(s.fields, g);
      }
    }
  }

  lemma PairsTransfer(s: Store, s': Store)
    requires PairsOwned(s) && SameHolders(s, s')
    ensures PairsOwned(s')
  {
    DisjointTransfer(s, s');
    forall k | k in s'.mem.pairs ensures NodeOwned(s'.fields, k) {
      assert NodeOwned(s.fields, k);
      OwnedTransfer(s, s', k);
    }
    forall f | f in s'.fields ensures ArgOk(s', f) {
      assert SameHolder(s, s', f);
      if f in s.fields {
        assert ArgOk(s, f);
      }
    }
  }

  // ---- Changes that leave rings alone --------------------------------------

  /** A ring none of whose members changed keeps its shape. */
  lemma RingUntouched(fields: Fields, fields': Fields, b: array<char>, ring: seq<Field>)
    requires RingShape(fields, b, ring)
    requires forall f :: f in fields && fields[f].buf == b ==>
               f in fields' && fields'[f].buf == b && fields'[f].link == fields[f].link
    ensures RingShape(fields', b, ring)
  {
    forall i | 0 <= i < |ring| ensures Member(fields', b, ring, i) {
      assert Member(fields, b, ring, i);
    }
  }

  /** The rings other than that of `b` are untouched. */
  lemma OtherRings(s: Store, s': Store, b: array?<char>)
    requires RingsOk(s)
    requires forall c :: c in s'.rings && c != b ==> c in s.rings && s'.rings[c] == s.rings[c]
    requires forall f :: f in s.fields && s.fields[f].buf != null && s.fields[f].buf != b ==>
      f in s'.fields && s'.fields[f].buf == s.fields[f].buf && s'.fields[f].link == s.fields[f].link
    ensures forall c :: c in s'.rings && c != b ==> RingShape(s'.fields, c, s'.rings[c])
  {
    forall c | c in s'.rings && c != b ensures RingShape(s'.fields, c, s'.rings[c]) {
      assert RingShape(s.fields, c, s.rings[c]);
      RingUntouched(s.fields, s'.fields, c, s.rings[c]);
    }
  }

  predicate SamePlace(s: Store, s': Store, f: Field)
    requires f in s.fields && f in s'.fields
  {
    && s'.fields[f].link == s.fields[f].link && s'.fields[f].buf == s.fields[f].buf
    && s'.fields[f].dims == s.fields[f].dims
  }

  /** The ring facts depend only on link, buf and dims. */
  predicate SameRings(s: Store, s': Store)
  {
    && s'.dflt == s.dflt && s'.rings == s.rings && s'.gone == s.gone && s'.bufAllocs == s.bufAllocs
    && s'.fields.Keys == s.fields.Keys
    && forall f :: f in s.fields ==> SamePlace(s, s', f)
  }

  lemma RingsFrame(s: Store, s': Store)
    requires SameRings(s, s') && RingPart(s)
    ensures RingPart(s')
  {
    OtherRings(s, s', null);
    forall f | f in s'.fields ensures Placed(s', f) {
      assert Placed(s, f);
    }
  }

  lemma InvMem(s: Store, m: Mem)
    requires Inv(s) && MemOk(m) && m.pairs == s.mem.pairs
    ensures Inv(s.(mem := m))
  {
    TypesTransfer(s, s.(mem := m));
    RingsFrame(s, s.(mem := m));
    PairsTransfer(s, s.(mem := m));
  }

  // ---- Binding and detaching a type ----------------------------------------

  /** Giving `f` the type `t` moves one use from its old type to `t`. */
  lemma UsesRetarget(s: Store, s': Store, f: Field, r: FieldRec, t: FieldType)
    requires f in s.fields && s'.fields == s.fields[f := r]
    requires LeftUsers(s'.types, t) == LeftUsers(s.types, t) && RightUsers(s'.types, t) == RightUsers(s.types, t)
    ensures Uses(s', t) == Uses(s, t) - (if s.fields[f].typ == t then 1 else 0) + (if r.typ == t then 1 else 0)
  {
    HoldersUpdate(s.fields, f, r, t);
  }

  /** One field changes its type, and the type's count follows. */
  lemma TypesRetarget(s: Store, s': Store, f: Field, r: FieldRec, t: FieldType?, d: int)
    requires TypePart(s) && f in s.fields && LiveType(s.types, t)
    requires s'.fields == s.fields[f := r] && s'.types == Bump(s.types, t, d)
    requires (d == 1 && s.fields[f].typ == null && r.typ == t) || (d == -1 && s.fields[f].typ == t && r.typ == null)
    requires Fits(Tree(s.types, r.typ), r.arg)
    ensures TypePart(s')
  {
    BumpOk(s.types, t, d);
    FitsFrame(s.types, s'.types, r.typ, r.arg);
    forall g | g in s'.fields ensures HolderOk(s'.types, s'.fields, g) {
      if g != f {
        assert HolderOk(s.types, s.fields, g);
        HolderFrame(s, s', g);
      }
    }
    forall u | u in s'.types ensures RefOk(s', u) {
      assert RefOk(s, u);
      UsersBump(s.types, t, d, u);
      UsesRetarget(s, s', f, r, u);
    }
  }

  predicate OtherArgsSame(s: Store, s': Store, f: Field)
  {
    && s'.fields.Keys == s.fields.Keys
    && forall g :: g in s.fields && g != f ==> s'.fields[g].arg == s.fields[g].arg
  }

  lemma DisjointAfterChange(s: Store, s': Store, f: Field)
    requires NodesDisjoint(s.fields) && f in s.fields && OtherArgsSame(s, s', f)
    requires forall g :: g in s.fields && g != f ==> NodesOf(s'.fields, f) !! NodesOf(s.fields, g)
    ensures NodesDisjoint(s'.fields)
  {
    forall g, h | g in s'.fields && h in s'.fields && g != h
      ensures NodesOf(s'.fields, g) !! NodesOf(s'.fields, h)
    {
      assert NodesOf(s.fields, g) !! NodesOf(s.fields, h);
    }
  }

  lemma OwnedAfterChange(s: Store, s': Store, f: Field)
    requires f in s.fields && OtherArgsSame(s, s', f)
    requires forall k {:trigger NodeOwned(s.fields, k)} :: k in s.mem.pairs ==> NodeOwned(s.fields, k)
    requires forall k :: k in s'.mem.pairs ==>
               k in NodesOf(s'.fields, f) || (k in s.mem.pairs && k !in NodesOf(s.fields, f))
    ensures forall k {:trigger NodeOwned(s'.fields, k)} :: k in s'.mem.pairs ==> NodeOwned(s'.fields, k)
  {
    forall k | k in s'.mem.pairs ensures NodeOwned(s'.fields, k) {
      if k !in NodesOf(s'.fields, f) {
        assert NodeOwned(s.fields, k);
        var g :| g in s.fields && k in NodesOf(s.fields, g);
        assert k in NodesOf(s'.fields, g);
      }
    }
  }

  lemma PairsAfterBind(s: Store, s': Store, f: Field, a: Arg)
    requires PairsOwned(s) && f in s.fields && s.fields[f].arg == Null
    requires OtherArgsSame(s, s', f) && s'.fields[f].arg == a
    requires MemOk(s'.mem) && s'.mem.pairs == s.mem.pairs + Nodes(a)
    requires Distinct(a) && Nodes(a) !! s.mem.pairs
    ensures PairsOwned(s')
  {
    forall g | g in s.fields && g != f ensures ArgOk(s', g) && NodesOf(s'.fields, f) !! NodesOf(s.fields, g) {
      assert ArgOk(s, g);
      assert NodesOf(s'.fields, g) == NodesOf(s.fields, g);
    }
    assert ArgOk(s', f);
    DisjointAfterChange(s, s', f);
    OwnedAfterChange(s, s', f);
  }

  lemma PairsAfterDetach(s: Store, s': Store, f: Field)
    requires PairsOwned(s) && f in s.fields
    requires OtherArgsSame(s, s', f) && s'.fields[f].arg == Null
    requires MemOk(s'.mem) && s'.mem.pairs == s.mem.pairs - Nodes(s.fields[f].arg)
    ensures PairsOwned(s')
  {
    forall g | g in s.fields && g != f ensures ArgOk(s', g) {
      assert ArgOk(s, g);
      assert NodesOf(s.fields, g) !! NodesOf(s.fields, f);
      assert NodesOf(s'.fields, g) == NodesOf(s.fields, g);
    }
    assert NodesOf(s'.fields, f) == {};
    DisjointAfterChange(s, s', f);
    OwnedAfterChange(s, s', f);
  }

  lemma BindTypes(s: Store, f: Field, t: FieldType?, a: Arg, m: Mem)
    requires TypePart(s) && f in s.fields && s.fields[f].typ == null
    requires LiveType(s.types, t) && Fits(Tree(s.types, t), a)
    ensures TypePart(Bind(s, f, t, a, m))
  {
    TypesRetarget(s, Bind(s, f, t, a, m), f, s.fields[f].(typ := t, arg := a), t, 1);
  }

  lemma BindRings(s: Store, f: Field, t: FieldType?, a: Arg, m: Mem)
    requires RingPart(s) && f in s.fields && LiveType(s.types, t)
    ensures RingPart(Bind(s, f, t, a, m))
  {
    RingsFrame(s, Bind(s, f, t, a, m));
  }

  lemma BindPairs(s: Store, f: Field, t: FieldType?, a: Arg, m: Mem)
    requires PairsOwned(s) && f in s.fields && s.fields[f].arg == Null && LiveType(s.types, t)
    requires Distinct(a) && MemOk(m) && m.pairs == s.mem.pairs + Nodes(a) && Nodes(a) !! s.mem.pairs
    ensures PairsOwned(Bind(s, f, t, a, m))
  {
    PairsAfterBind(s, Bind(s, f, t, a, m), f, a);
  }

  lemma InvBind(s: Store, f: Field, t: FieldType?, a: Arg, m: Mem)
    requires Inv(s) && f in s.fields && s.fields[f].typ == null && s.fields[f].arg == Null
    requires LiveType(s.types, t) && Fits(Tree(s.types, t), a) && Distinct(a)
    requires MemOk(m) && m.pairs == s.mem.pairs + Nodes(a) && Nodes(a) !! s.mem.pairs
    ensures Inv(Bind(s, f, t, a, m))
  {
    BindTypes(s, f, t, a, m);
    BindRings(s, f, t, a, m);
    BindPairs(s, f, t, a, m);
  }

  lemma DetachTypes(s: Store, f: Field)
    requires TypePart(s) && f in s.fields
    ensures CanDetach(s, f) && TypePart(Detach(s, f))
  {
    assert HolderOk(s.types, s.fields, f);
    TypesRetarget(s, Detach(s, f), f, s.fields[f].(typ := null, arg := Null), s.fields[f].typ, -1);
  }

  lemma DetachRings(s: Store, f: Field)
    requires CanDetach(s, f) && RingPart(s)
    ensures RingPart(Detach(s, f))
  {
    RingsFrame(s, Detach(s, f));
  }

  lemma DetachPairs(s: Store, f: Field)
    requires CanDetach(s, f) && PairsOwned(s)
    ensures PairsOwned(Detach(s, f)) && Detach(s, f).mem.tick == s.mem.tick
  {
    FreeEffect(Tree(s.types, s.fields[f].typ), s.fields[f].arg, s.mem);
    PairsAfterDetach(s, Detach(s, f), f);
  }

  lemma InvDetach(s: Store, f: Field)
    requires Inv(s) && f in s.fields
    ensures CanDetach(s, f) && Inv(Detach(s, f)) && Detach(s, f).mem.tick == s.mem.tick
  {
    DetachTypes(s, f);
    DetachRings(s, f);
    DetachPairs(s, f);
  }

  // ---- Insert and GiveBuffer -----------------------------------------------

  lemma InsertRings(s: Store, nf: Field, d: Dims)
    requires RingPart(s) && nf !in s.fields
    ensures RingPart(Insert(s, nf, d))
  {
    var s' := Insert(s, nf, d);
    OtherRings(s, s', null);
    forall f | f in s'.fields ensures Placed(s', f) {
      assert f != nf ==> Placed(s, f);
    }
  }

  lemma InvInsert(s: Store, nf: Field, d: Dims)
    requires Inv(s) && nf !in s.fields
    ensures Inv(Insert(s, nf, d))
  {
    TypesTransfer(s, Insert(s, nf, d));
    InsertRings(s, nf, d);
    PairsTransfer(s, Insert(s, nf, d));
  }

  predicate NewBuffer(s: Store, b: array<char>)
  {
    b !in s.rings && b !in s.gone
  }

  lemma GiveBufferRings(s: Store, f: Field, b: array<char>)
    requires RingPart(s) && f in s.fields && f != s.dflt && s.fields[f].buf == null
    requires NewBuffer(s, b) && b.Length >= TotalSize(s.fields[f].dims)
    ensures RingPart(GiveBuffer(s, f, b))
  {
    var s' := GiveBuffer(s, f, b);
    OtherRings(s, s', b);
    assert Placed(s, f);
    assert Member(s'.fields, b, [f], 0);
    assert RingShape(s'.fields, b, s'.rings[b]);
    forall g | g in s'.fields ensures Placed(s', g) {
      assert g != f ==> Placed(s, g);
    }
    BufferAllocated(s, s', b, [f]);
  }

  lemma BufferAllocated(s: Store, s': Store, b: array<char>, ring: seq<Field>)
    requires BuffersOk(s) && NewBuffer(s, b) && s'.rings == s.rings[b := ring] && s'.gone == s.gone
    requires s'.bufAllocs == s.bufAllocs + 1
    ensures BuffersOk(s')
  {
    assert s'.rings.Keys == s.rings.Keys + {b};
  }

  lemma InvGiveBuffer(s: Store, f: Field, b: array<char>)
    requires Inv(s) && f in s.fields && f != s.dflt && s.fields[f].buf == null
    requires NewBuffer(s, b) && b.Length >= TotalSize(s.fields[f].dims)
    ensures Inv(GiveBuffer(s, f, b))
  {
    TypesTransfer(s, GiveBuffer(s, f, b));
    GiveBufferRings(s, f, b);
    PairsTransfer(s, GiveBuffer(s, f, b));
  }

  // ---- Splice --------------------------------------------------------------

  lemma InsertAfterFacts(r: seq<Field>, i: nat, f: Field)
    requires i < |r| && NoDup(r) && f !in r
    ensures var r' := InsertAfter(r, i, f);
            && |r'| == |r| + 1 && NoDup(r')
            && (forall j :: 0 <= j <= i ==> r'[j] == r[j])
            && r'[i + 1] == f
            && (forall j :: i + 1 < j <= |r| ==> r'[j] == r[j - 1])
            && (forall g :: g in r' <==> g in r || g == f)
  {
    var r' := InsertAfter(r, i, f);
    assert r == r[..i + 1] + r[i + 1..];
    forall j, k | 0 <= j < k < |r'| ensures r'[j] != r'[k] {
      var j' := if j <= i then j else j - 1;
      var k' := if k <= i then k else k - 1;
      if j != i + 1 && k != i + 1 {
        assert r'[j] == r[j'] && r'[k] == r[k'] && j' < k';
      }
    }
  }

  lemma SpliceShape(fields: Fields, fields': Fields, b: array<char>, ring: seq<Field>, i: nat, nf: Field)
    requires RingShape(fields, b, ring) && i < |ring| && nf !in fields
    requires ring[i] in fields
    requires var f := ring[i];
             fields' == fields[nf := FieldRec(fields[f].link, null, Null, b, fields[f].dims, false)]
                              [f := fields[f].(link := nf)]
    ensures RingShape(fields', b, InsertAfter(ring, i, nf))
  {
    var ring', n := InsertAfter(ring, i, nf), |ring|;
    forall j | 0 <= j < n ensures ring[j] != nf {
      assert Member(fields, b, ring, j);
    }
    InsertAfterFacts(ring, i, nf);
    assert Member(fields, b, ring, i);
    forall j | 0 <= j < |ring'| ensures Member(fields', b, ring', j) {
      if j < i {
        assert Member(fields, b, ring, j);
      } else if j > i + 1 {
        assert Member(fields, b, ring, j - 1);
        assert ring[j - 1] != ring[i];
      }
    }
  }

  lemma SplicePlaced(s: Store, f: Field, nf: Field, g: Field)
    requires InRing(s, f) && nf !in s.fields && g in Splice(s, f, nf).fields
    requires if g == nf then Placed(s, f) else Placed(s, g)
    ensures Placed(Splice(s, f, nf), g)
  {
    var ring := s.rings[s.fields[f].buf];
    var i := IndexOf(ring, f);
    assert ring == ring[..i + 1] + ring[i + 1..];
  }

  lemma SpliceRings(s: Store, f: Field, nf: Field)
    requires RingPart(s) && InRing(s, f) && nf !in s.fields
    ensures RingPart(Splice(s, f, nf))
  {
    var s' := Splice(s, f, nf);
    var b := s.fields[f].buf;
    var ring, i := s.rings[b], IndexOf(s.rings[b], f);
    assert RingShape(s.fields, b, ring) && Placed(s, f);
    SpliceShape(s.fields, s'.fields, b, ring, i, nf);
    OtherRings(s, s', b);
    forall g | g in s'.fields ensures Placed(s', g) {
      assert g != nf ==> Placed(s, g);
      SplicePlaced(s, f, nf, g);
    }
    assert s'.rings.Keys == s.rings.Keys;
  }

  lemma InvSplice(s: Store, f: Field, nf: Field)
    requires Inv(s) && InRing(s, f) && nf !in s.fields
    ensures Inv(Splice(s, f, nf))
  {
    TypesTransfer(s, Splice(s, f, nf));
    SpliceRings(s, f, nf);
    PairsTransfer(s, Splice(s, f, nf));
  }

  // ---- Remove --------------------------------------------------------------

  /** A field that is its own successor is alone in its ring, and otherwise its
      predecessor is another field that links to it. */
  lemma PredFacts(s: Store, f: Field)
    requires InRing(s, f) && RingShape(s.fields, s.fields[f].buf, s.rings[s.fields[f].buf])
    ensures s.fields[f].link == f <==> s.rings[s.fields[f].buf] == [f]
    ensures var g := Pred(s, f);
            && g in s.fields && s.fields[g].link == f && s.fields[g].buf == s.fields[f].buf
            && (s.fields[f].link != f ==> g != f)
  {
    var b := s.fields[f].buf;
    var ring := s.rings[b];
    var i, n := IndexOf(ring, f), |ring|;
    assert Member(s.fields, b, ring, i);
    assert Member(s.fields, b, ring, Prev(i, n));
    assert n == 1 ==> ring == [f];
  }

  lemma WithoutFacts(r: seq<Field>, i: nat)
    requires i < |r| && NoDup(r)
    ensures var r' := Without(r, i);
            && |r'| == |r| - 1 && NoDup(r')
            && (forall j :: 0 <= j < i ==> r'[j] == r[j])
            && (forall j :: i <= j < |r| - 1 ==> r'[j] == r[j + 1])
            && (forall g :: g in r' <==> g in r && g != r[i])
  {
    var r' := Without(r, i);
    assert r == r[..i] + [r[i]] + r[i + 1..];
    forall g | g in r' ensures g != r[i] {
      var j :| 0 <= j < |r'| && r'[j] == g;
      assert g == if j < i then r[j] else r[j + 1];
    }
  }

  lemma UnlinkShape(fields: Fields, fields': Fields, b: array<char>, ring: seq<Field>, i: nat)
    requires RingShape(fields, b, ring) && i < |ring| && |ring| > 1
    requires var f, g := ring[i], ring[Prev(i, |ring|)];
             && f in fields && g in fields
             && fields' == fields[g := fields[g].(link := fields[f].link)] - {f}
    ensures RingShape(fields', b, Without(ring, i))
  {
    var ring', n := Without(ring, i), |ring|;
    WithoutFacts(ring, i);
    assert Member(fields, b, ring, i);
    var p := Prev(i, n);
    forall j | 0 <= j < n - 1 ensures Member(fields', b, ring', j) {
      var k := if j < i then j else j + 1;
      assert Member(fields, b, ring, k);
      assert ring[k] != ring[i];
      if k != p {
        assert ring[k] != ring[p];
      }
    }
  }

  lemma UnlinkRings(s: Store, f: Field)
    requires RingPart(s) && f in s.fields && f != s.dflt && s.fields[f].link != f
    ensures CanUnlink(s, f) && RingPart(Remove(s, f))
  {
    assert Placed(s, f);
    var b := s.fields[f].buf;
    var ring, i := s.rings[b], IndexOf(s.rings[b], f);
    assert RingShape(s.fields, b, ring);
    PredFacts(s, f);
    var s' := Remove(s, f);
    assert |ring| == 1 ==> ring == [f];
    UnlinkShape(s.fields, s'.fields, b, ring, i);
    OtherRings(s, s', b);
    WithoutFacts(ring, i);
    forall g | g in s'.fields ensures Placed(s', g) {
      assert Placed(s, g);
    }
    assert s'.rings.Keys == s.rings.Keys;
  }

  /** The last field of a ring takes the buffer with it. */
  lemma LastRings(s: Store, f: Field)
    requires RingPart(s) && f in s.fields && f != s.dflt && s.fields[f].link == f
    ensures RingPart(Remove(s, f))
  {
    assert Placed(s, f);
    var s' := Remove(s, f);
    var b := s.fields[f].buf;
    if b != null {
      assert RingShape(s.fields, b, s.rings[b]);
      PredFacts(s, f);
      BufferFreed(s, s', b);
    }
    OtherRings(s, s', b);
    forall g | g in s'.fields ensures Placed(s', g) {
      assert Placed(s, g);
    }
  }

  lemma BufferFreed(s: Store, s': Store, b: array<char>)
    requires BuffersOk(s) && b in s.rings && s'.rings == s.rings - {b} && s'.gone == s.gone + [b]
    requires s'.bufAllocs == s.bufAllocs
    ensures BuffersOk(s')
  {
    assert s.rings.Keys == s'.rings.Keys + {b};
    NoDupConcat(s.gone, [b]);
  }

  lemma RemoveRings(s: Store, f: Field)
    requires RingPart(s) && f in s.fields && f != s.dflt
    ensures CanUnlink(s, f) && RingPart(Remove(s, f))
  {
    if s.fields[f].link == f {
      LastRings(s, f);
    } else {
      UnlinkRings(s, f);
    }
  }

  lemma InvRemove(s: Store, f: Field)
    requires Inv(s) && f in s.fields && f != s.dflt && s.fields[f].typ == null && s.fields[f].arg == Null
    ensures CanUnlink(s, f) && Inv(Remove(s, f))
  {
    RemoveRings(s, f);
    TypesTransfer(s, Remove(s, f));
    PairsTransfer(s, Remove(s, f));
  }

  lemma InsertedIndex(r: seq<Field>, i: nat, f: Field)
    requires i < |r| && NoDup(r) && f !in r
    ensures var r' := InsertAfter(r, i, f);
            f in r' && IndexOf(r', f) == i + 1 && Prev(i + 1, |r'|) == i && r'[i] == r[i] && Without(r', i + 1) == r
  {
    InsertAfterFacts(r, i, f);
    var r' := InsertAfter(r, i, f);
    assert r'[IndexOf(r', f)] == r'[i + 1];
    assert Without(r', i + 1) == r;
  }

  lemma NotInRing(fields: Fields, b: array<char>, ring: seq<Field>, f: Field)
    requires RingShape(fields, b, ring) && f !in fields
    ensures f !in ring
  {
    forall j | 0 <= j < |ring| ensures ring[j] != f {
      assert Member(fields, b, ring, j);
    }
  }

  /** Splicing a field in and taking it out again leaves everything as it was. */
  lemma RemoveUndoesSplice(s: Store, f: Field, nf: Field)
    requires RingPart(s) && InRing(s, f) && nf !in s.fields
    ensures var s' := Splice(s, f, nf); nf in s'.fields && CanUnlink(s', nf) && Remove(s', nf) == s
  {
    var s' := Splice(s, f, nf);
    var b := s.fields[f].buf;
    var ring := s.rings[b];
    var i := IndexOf(ring, f);
    assert RingShape(s.fields, b, ring);
    NotInRing(s.fields, b, ring, nf);
    InsertedIndex(ring, i, nf);
    assert Member(s.fields, b, ring, i) && Member(s.fields, b, ring, Next(i, |ring|));
    assert Pred(s', nf) == f;
    UnspliceFields(s, f, nf);
  }

  lemma UnspliceFields(s: Store, f: Field, nf: Field)
    requires InRing(s, f) && nf !in s.fields
    requires var s' := Splice(s, f, nf);
             && InRing(s', nf) && Pred(s', nf) == f && s'.fields[nf].link != nf && s.fields[f].buf in s'.rings
             && var r := s'.rings[s.fields[f].buf];
             nf in r && Without(r, IndexOf(r, nf)) == s.rings[s.fields[f].buf]
    ensures Remove(Splice(s, f, nf), nf) == s
  {
    var s2 := Remove(Splice(s, f, nf), nf);
    assert s2.fields == s.fields;
    assert s2.rings == s.rings;
  }
}
