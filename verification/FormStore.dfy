/**
  The form library's heap as a value: its elementary changes as functions on that
  value, and the invariant.  FormRoutines.dfy composes the changes to the
  routines of the library.
 */
module FormStore {
  import opened Collections
  import opened FieldTypes
  import opened ArgumentTrees

  datatype Dims = Dims(drows: int, dcols: int, nbuf: int)

  datatype FieldRec = FieldRec(link: Field?, typ: FieldType?, arg: Arg, buf: array?<char>, dims: Dims, connected: bool)

  datatype TypeRec = TypeRec(ref: int, linked: bool, hasArgs: bool, hasChoice: bool, resident: bool,
                             copyarg: bool, freearg: bool, left: FieldType?, right: FieldType?)

  type Fields = map<Field, FieldRec>
  type Types = map<FieldType, TypeRec>

  /** `fields` and `types` are the live objects; `dflt` is the default field.
      `rings` lists, for each live buffer, the fields that share it in `link`
      order; `gone` are the freed buffers in the order of freeing, and
      `bufAllocs` counts the buffers ever allocated. */
  datatype Store = Store(dflt: Field, fields: Fields, types: Types, rings: map<array<char>, seq<Field>>,
                         gone: seq<array<char>>, bufAllocs: nat, mem: Mem)

  datatype Status = Ok | BadArgument | SystemError | Connected

  /** `Faulted`: the call never returned (see ArgumentTrees.Copied). */
  datatype Outcome = Faulted | Ran(store: Store, status: Status)

  // ---- Sizes ---------------------------------------------------------------

  function BufferLength(d: Dims): int
  {
    d.drows * d.dcols
  }

  /** Total_Buffer_Size in cells; malloc refuses the wrapped size of a negative total. */
  function TotalSize(d: Dims): int
  {
    (BufferLength(d) + 1) * (1 + d.nbuf)
  }

  /** The conversion of an int to a short. */
  function ToShort(n: int): int
  {
    (n + 0x8000) % 0x1_0000 - 0x8000
  }

  lemma ToShortIs(n: int)
    ensures -0x8000 <= ToShort(n) < 0x8000 && (n - ToShort(n)) % 0x1_0000 == 0
    ensures -0x8000 <= n < 0x8000 ==> ToShort(n) == n
  {
  }

  // ---- Type trees ----------------------------------------------------------

  predicate TypeOk(types: Types, t: FieldType)
    requires t in types
  {
    types[t].linked ==>
      && types[t].left != null && types[t].left in types && types[t].left.birth < t.birth
      && types[t].right != null && types[t].right in types && types[t].right.birth < t.birth
  }

  /** Operands are live and older than the linked type that names them. */
  predicate TypesOk(types: Types)
  {
    forall t {:trigger TypeOk(types, t)} :: t in types ==> TypeOk(types, t)
  }

  predicate LiveType(types: Types, t: FieldType?)
  {
    t == null || t in types
  }

  function Tree(types: Types, t: FieldType?): TypeTree
    requires TypesOk(types) && LiveType(types, t)
    decreases if t == null then 0 else t.birth + 1
  {
    if t == null then Absent
    else
      assert TypeOk(types, t);
      var r := types[t];
      if r.linked then Linked(t, r.hasArgs, Tree(types, r.left), Tree(types, r.right))
      else Basic(t, r.hasArgs, r.copyarg, r.freearg)
  }

  // ---- Elementary changes --------------------------------------------------

  function Bump(types: Types, t: FieldType?, d: int): Types
    requires LiveType(types, t)
  {
    if t == null then types else types[t := types[t].(ref := types[t].ref + d)]
  }

  function Tick(s: Store): Store
  {
    s.(mem := s.mem.(tick := s.mem.tick + 1))
  }

  /** Field `f` takes the type `t` with argument `a`. */
  function Bind(s: Store, f: Field, t: FieldType?, a: Arg, m: Mem): Store
    requires f in s.fields && LiveType(s.types, t)
  {
    s.(fields := s.fields[f := s.fields[f].(typ := t, arg := a)], types := Bump(s.types, t, 1), mem := m)
  }

  /** The type of `f` is live and its argument can be released under that type. */
  predicate HolderOk(types: Types, fields: Fields, f: Field)
    requires TypesOk(types) && f in fields
  {
    LiveType(types, fields[f].typ) && Fits(Tree(types, fields[f].typ), fields[f].arg)
  }

  predicate CanDetach(s: Store, f: Field)
  {
    TypesOk(s.types) && f in s.fields && HolderOk(s.types, s.fields, f)
  }

  /** The effect of _nc_Free_Type, which leaves the pointers of the field. */
  function Loosen(s: Store, f: Field): Store
    requires CanDetach(s, f)
  {
    var r := s.fields[f];
    s.(types := Bump(s.types, r.typ, -1), mem := Free(Tree(s.types, r.typ), r.arg, s.mem))
  }

  /** The same with the dead pointers cleared. */
  function Detach(s: Store, f: Field): Store
    requires CanDetach(s, f)
  {
    Loosen(s, f).(fields := s.fields[f := s.fields[f].(typ := null, arg := Null)])
  }

  /** A new field outside every ring. */
  function Insert(s: Store, nf: Field, d: Dims): Store
  {
    s.(fields := s.fields[nf := FieldRec(nf, null, Null, null, d, false)])
  }

  function GiveBuffer(s: Store, f: Field, b: array<char>): Store
    requires f in s.fields
  {
    s.(fields := s.fields[f := s.fields[f].(buf := b)], rings := s.rings[b := [f]], bufAllocs := s.bufAllocs + 1)
  }

  // ---- Rings ---------------------------------------------------------------

  function Next(i: nat, n: nat): nat
  {
    if i + 1 == n then 0 else i + 1
  }

  function Prev(i: nat, n: nat): nat
    requires i < n
  {
    if i == 0 then n - 1 else i - 1
  }

  function IndexOf(r: seq<Field>, f: Field): (i: nat)
    requires f in r
    ensures i < |r| && r[i] == f
  {
    if r[0] == f then 0 else 1 + IndexOf(r[1..], f)
  }

  function InsertAfter(r: seq<Field>, i: nat, f: Field): seq<Field>
    requires i < |r|
  {
    r[..i + 1] + [f] + r[i + 1..]
  }

  function Without(r: seq<Field>, i: nat): seq<Field>
    requires i < |r|
  {
    r[..i] + r[i + 1..]
  }

  predicate InRing(s: Store, f: Field)
  {
    && f in s.fields
    && var b := s.fields[f].buf;
    && b != null && b in s.rings && f in s.rings[b]
  }

  /** A new field that shares the buffer of `f` and comes next in its ring. */
  function Splice(s: Store, f: Field, nf: Field): Store
    requires InRing(s, f)
  {
    var r := s.fields[f];
    var ring := s.rings[r.buf];
    s.(fields := s.fields[nf := FieldRec(r.link, null, Null, r.buf, r.dims, false)][f := r.(link := nf)],
       rings := s.rings[r.buf := InsertAfter(ring, IndexOf(ring, f), nf)])
  }

  /** The field before `f` in its ring. */
  function Pred(s: Store, f: Field): Field
    requires InRing(s, f)
  {
    var ring := s.rings[s.fields[f].buf];
    ring[Prev(IndexOf(ring, f), |ring|)]
  }

  /** What free_field does to the rings and to the field itself. */
  function Remove(s: Store, f: Field): Store
    requires f in s.fields && CanUnlink(s, f)
  {
    var r := s.fields[f];
    if r.link == f then
      if r.buf == null then s.(fields := s.fields - {f})
      else s.(fields := s.fields - {f}, rings := s.rings - {r.buf}, gone := s.gone + [r.buf])
    else
      var g := Pred(s, f);
      var ring := s.rings[r.buf];
      s.(fields := s.fields[g := s.fields[g].(link := r.link)] - {f},
         rings := s.rings[r.buf := Without(ring, IndexOf(ring, f))])
  }

  predicate CanUnlink(s: Store, f: Field)
    requires f in s.fields
  {
    s.fields[f].link != f ==> InRing(s, f) && Pred(s, f) in s.fields
  }

  predicate Member(fields: Fields, b: array<char>, ring: seq<Field>, i: nat)
    requires i < |ring|
  {
    && ring[i] in fields && fields[ring[i]].buf == b
    && fields[ring[i]].link == ring[Next(i, |ring|)]
  }

  /** The fields of `ring` share the buffer `b` and their links run once round the ring. */
  predicate RingShape(fields: Fields, b: array<char>, ring: seq<Field>)
  {
    && ring != [] && NoDup(ring)
    && forall i {:trigger Member(fields, b, ring, i)} :: 0 <= i < |ring| ==> Member(fields, b, ring, i)
  }

  // ---- The invariant -------------------------------------------------------

  /** No field has a dangling type, and every argument fits its type. */
  predicate HoldersOk(s: Store)
    requires TypesOk(s.types)
  {
    forall f {:trigger HolderOk(s.types, s.fields, f)} :: f in s.fields ==> HolderOk(s.types, s.fields, f)
  }

  function Holders(fields: Fields, t: FieldType): set<Field>
  {
    set f | f in fields && fields[f].typ == t
  }

  function LeftUsers(types: Types, t: FieldType): set<FieldType>
  {
    set u | u in types && types[u].linked && types[u].left == t
  }

  function RightUsers(types: Types, t: FieldType): set<FieldType>
  {
    set u | u in types && types[u].linked && types[u].right == t
  }

  /** The fields of type `t` and the operand slots that name `t`. */
  function Uses(s: Store, t: FieldType): nat
  {
    |Holders(s.fields, t)| + |LeftUsers(s.types, t)| + |RightUsers(s.types, t)|
  }

  predicate RefOk(s: Store, t: FieldType)
    requires t in s.types
  {
    s.types[t].ref == Uses(s, t)
  }

  predicate RefsExact(s: Store)
  {
    forall t {:trigger RefOk(s, t)} :: t in s.types ==> RefOk(s, t)
  }

  /** A field without a buffer is linked to itself; any other is in the ring of
      its buffer, and the buffer is large enough for it. */
  predicate Placed(s: Store, f: Field)
    requires f in s.fields
  {
    if s.fields[f].buf == null then f == s.dflt || s.fields[f].link == f
    else InRing(s, f) && s.fields[f].buf.Length >= TotalSize(s.fields[f].dims)
  }

  predicate RingsOk(s: Store)
  {
    && (forall b {:trigger RingShape(s.fields, b, s.rings[b])} :: b in s.rings ==> RingShape(s.fields, b, s.rings[b]))
    && (forall f {:trigger Placed(s, f)} :: f in s.fields ==> Placed(s, f))
  }

  /** A buffer is live or freed, never both, and freed at most once. */
  predicate BuffersOk(s: Store)
  {
    && NoDup(s.gone)
    && (forall b :: b in s.gone ==> b !in s.rings)
    && s.bufAllocs == |s.rings| + |s.gone|
  }

  predicate DefaultOk(s: Store)
  {
    s.dflt in s.fields && s.fields[s.dflt].buf == null && s.fields[s.dflt].link == null
  }

  function NodesOf(fields: Fields, f: Field): set<nat>
    requires f in fields
  {
    Nodes(fields[f].arg)
  }

  predicate NodesDisjoint(fields: Fields)
  {
    forall f, g {:trigger NodesOf(fields, f), NodesOf(fields, g)} ::
      f in fields && g in fields && f != g ==> NodesOf(fields, f) !! NodesOf(fields, g)
  }

  predicate NodeOwned(fields: Fields, k: nat)
  {
    exists f {:trigger NodesOf(fields, f)} :: f in fields && k in NodesOf(fields, f)
  }

  predicate ArgOk(s: Store, f: Field)
    requires f in s.fields
  {
    Distinct(s.fields[f].arg) && NodesOf(s.fields, f) <= s.mem.pairs
  }

  /** Each live pair node belongs to the argument of exactly one live field. */
  predicate PairsOwned(s: Store)
  {
    && MemOk(s.mem)
    && (forall f {:trigger ArgOk(s, f)} :: f in s.fields ==> ArgOk(s, f))
    && NodesDisjoint(s.fields)
    && (forall k {:trigger NodeOwned(s.fields, k)} :: k in s.mem.pairs ==> NodeOwned(s.fields, k))
  }

  predicate TypePart(s: Store)
  {
    TypesOk(s.types) && HoldersOk(s) && RefsExact(s)
  }

  predicate RingPart(s: Store)
  {
    RingsOk(s) && BuffersOk(s) && DefaultOk(s)
  }

  predicate Inv(s: Store)
  {
    TypePart(s) && RingPart(s) && PairsOwned(s)
  }

  /** Every field but the default field, and perhaps `except`, has a buffer. */
  predicate AllBuffered(s: Store, except: Field?)
  {
    forall f :: f in s.fields && f != s.dflt && f != except ==> s.fields[f].buf != null
  }
}
