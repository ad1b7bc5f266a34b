/** The code that the macro for swappable contexts defines. */
module ContextMacro {
  import opened Collections
  import opened ContextSwitch

  /** The static variables and functions that the macro defines; `cur` is -1 for
      a null pointer. */
  class ContextTable<P, M> {
    const contexts: array<Context<P, M>>
    var cur: int
    var globals: M

    ghost predicate Valid()
      reads this, contexts
    {
      contexts.Length == CONTEXTS && -1 <= cur < CONTEXTS
    }

    ghost function Abs(): State<P, M>
      requires Valid()
      reads this, contexts
    {
      State(contexts[..], if cur == -1 then None else Some(cur), globals)
    }

    constructor (c: Context<P, M>, globals: M)
      ensures Valid() && fresh(contexts) && Abs() == State(seq(CONTEXTS, i => c), None, globals)
    {
      contexts := new Context<P, M>[CONTEXTS](i => c);
      cur, this.globals := -1, globals;
    }

    method InitContext(idx: nat, init: Context<P, M>)
      requires Valid() && idx < CONTEXTS && cur != idx
      modifies contexts
      ensures Valid() && Abs() == Init(old(Abs()), idx, init)
      ensures contexts[..] == old(contexts[..])[idx := init]
    {
      contexts[idx] := init;
    }

    method DeinitContext()
      requires Valid()
      modifies this`cur
      ensures Valid() && Abs() == Deinit(old(Abs())) && cur == -1
    {
      cur := -1;
    }

    method SaveContext()
      requires Valid() && cur != -1
      modifies contexts
      ensures Valid() && Abs() == Save(old(Abs()))
      ensures contexts[..] == old(contexts[..])[cur := old(contexts[cur]).(mirror := globals)]
    {
      contexts[cur] := contexts[cur].(mirror := globals);
    }

    method RestoreContext(idx: nat)
      requires Valid() && idx < CONTEXTS
      modifies this`cur, this`globals
      ensures Valid() && Abs() == Restore(old(Abs()), idx)
      ensures cur == idx && globals == if old(cur) == idx then old(globals) else contexts[idx].mirror
    {
      if cur == idx {
        return;
      }
      cur := idx;
      globals := contexts[idx].mirror;
    }
  }
}
