/**
  The objects of the form library that the other modules share: field types,
  the argument trees that fields carry, and the memory the argument routines
  work on.
 */
module FieldTypes {

  /** FIELDTYPE.  `birth` orders types by creation: an operand of a linked type
      is always older than the linked type. */
  class FieldType {
    var ref: int
    var linked: bool
    var hasArgs: bool
    var hasChoice: bool
    var resident: bool
    var copyarg: bool
    var freearg: bool
    var left: FieldType?
    var right: FieldType?
    const birth: nat

    constructor (birth: nat)
      ensures this.birth == birth
      ensures ref == 0 && !linked && !hasArgs && !hasChoice && !resident && !copyarg && !freearg
      ensures left == null && right == null
    {
      this.birth := birth;
      ref := 0;
      linked, hasArgs, hasChoice, resident, copyarg, freearg := false, false, false, false, false, false;
      left, right := null, null;
    }
  }

  /** FIELD.  `drows`, `dcols` and `nbuf` size the buffer; `connected` says that
      the field belongs to a form. */
  class Field {
    var link: Field?
    var typ: FieldType?
    var arg: Arg
    var buf: array?<char>
    var drows: int
    var dcols: int
    var nbuf: int
    var connected: bool

    constructor ()
      ensures link == null && typ == null && arg == Null && buf == null
      ensures drows == 0 && dcols == 0 && nbuf == 0 && !connected
    {
      link, typ, arg, buf := null, null, Null, null;
      drows, dcols, nbuf, connected := 0, 0, 0, false;
    }
  }

  /** A `void *` argument: null, a pointer made by a user's makearg or copyarg,
      or a TypeArgument pair node allocated by the library at address `node`. */
  datatype Arg = Null | User(p: nat) | Pair(node: nat, left: Arg, right: Arg)

  /** The unfolding of a field type into the tree of its operands. */
  datatype TypeTree =
    | Absent
    | Basic(typ: FieldType, hasArgs: bool, hasCopy: bool, hasFree: bool)
    | Linked(typ: FieldType, hasArgs: bool, left: TypeTree, right: TypeTree)

  /** One call of a user's makearg, copyarg or freearg. */
  datatype Call = Call(leaf: TypeTree, arg: Arg)

  /** The n-th allocation request (malloc, makearg or copyarg) returns `Oracle(n)`;
      0 is NULL, that is, failure. */
  type Oracle = nat -> nat

  /** `tick` requests have been made so far; `pairs` are the live pair nodes.
      The rest logs, in order, makearg and copyarg results, arguments handed on
      uncopied, freearg calls, arguments released under a type without a freearg,
      and freed pair nodes. */
  datatype Mem = Mem(
    tick: nat, pairs: set<nat>,
    made: seq<Call>, shared: seq<Call>, freed: seq<Call>, dropped: seq<Call>, released: seq<nat>)

  predicate MemOk(m: Mem) {
    forall k :: k in m.pairs ==> k < m.tick
  }
}
