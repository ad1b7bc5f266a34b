/**
  Swappable contexts and the calls that swap them.  Each handle has a context of
  its own behind one shared pointer `cur`.  A context's `own` part is used in
  place; its `mirror` part lives in global variables while the context is
  current, and the hooks `pre` and `post` of the macro copy it back and forth.
 */
module ContextSwitch {
  import opened Collections

  const CONTEXTS: nat := 100

  datatype Context<P, M> = Context(own: P, mirror: M)

  datatype State<P, M> = State(ctx: seq<Context<P, M>>, cur: Option<nat>, globals: M)

  predicate StateOk<P, M>(s: State<P, M>)
  {
    |s.ctx| == CONTEXTS && (s.cur.Some? ==> s.cur.value < CONTEXTS)
  }

  // ---- The four functions that the macro defines ---------------------------

  /** The macro asserts that the context is not the current one. */
  function Init<P, M>(s: State<P, M>, idx: nat, init: Context<P, M>): State<P, M>
    requires StateOk(s) && idx < CONTEXTS && s.cur != Some(idx)
  {
    s.(ctx := s.ctx[idx := init])
  }

  function Deinit<P, M>(s: State<P, M>): State<P, M>
  {
    s.(cur := None)
  }

  function Save<P, M>(s: State<P, M>): State<P, M>
    requires StateOk(s) && s.cur.Some?
  {
    var i := s.cur.value;
    s.(ctx := s.ctx[i := s.ctx[i].(mirror := s.globals)])
  }

  function Restore<P, M>(s: State<P, M>, idx: nat): State<P, M>
    requires StateOk(s) && idx < CONTEXTS
  {
    if s.cur == Some(idx) then s else s.(cur := Some(idx), globals := s.ctx[idx].mirror)
  }

  /** What the running code can read and write. */
  function View<P, M>(s: State<P, M>): Context<P, M>
    requires StateOk(s) && s.cur.Some?
  {
    Context(s.ctx[s.cur.value].own, s.globals)
  }

  function SetView<P, M>(s: State<P, M>, v: Context<P, M>): State<P, M>
    requires StateOk(s) && s.cur.Some?
  {
    var i := s.cur.value;
    s.(ctx := s.ctx[i := s.ctx[i].(own := v.own)], globals := v.mirror)
  }

  // ---- Any interleaving: the own parts do not interfere --------------------

  datatype Op<!P, !M> =
    | OpInit(idx: nat, init: Context<P, M>)
    | OpDeinit
    | OpSave
    | OpRestore(idx: nat)
    | OpAccess(f: P -> P)

  predicate OpEnabled<P, M>(s: State<P, M>, op: Op<P, M>)
  {
    match op
    case OpInit(idx, _) => idx < CONTEXTS && s.cur != Some(idx)
    case OpRestore(idx) => idx < CONTEXTS
    case OpDeinit => true
    case OpSave => s.cur.Some?
    case OpAccess(_) => s.cur.Some?
  }

  function OpStep<P, M>(s: State<P, M>, op: Op<P, M>): (s': State<P, M>)
    requires StateOk(s) && OpEnabled(s, op)
    ensures StateOk(s')
  {
    match op
    case OpInit(idx, init) => Init(s, idx, init)
    case OpDeinit => Deinit(s)
    case OpSave => Save(s)
    case OpRestore(idx) => Restore(s, idx)
    case OpAccess(f) => SetView(s, View(s).(own := f(View(s).own)))
  }

  ghost predicate OpRuns<P, M>(s: State<P, M>, ops: seq<Op<P, M>>, s': State<P, M>)
    requires StateOk(s)
    decreases |ops|
  {
    if ops == [] then s' == s
    else OpEnabled(s, ops[0]) && OpRuns(OpStep(s, ops[0]), ops[1..], s')
  }

  /** Where the pointer is after `op`. */
  function CurAfter<P, M>(cur: Option<nat>, op: Op<P, M>): Option<nat>
  {
    if op.OpDeinit? then None else if op.OpRestore? then Some(op.idx) else cur
  }

  /** The value of context `i` after running only its own initialisations and the
      accesses made while it is current. */
  ghost function Alone<P, M>(p: P, cur: Option<nat>, ops: seq<Op<P, M>>, i: nat): P
    decreases |ops|
  {
    if ops == [] then p
    else
      var op := ops[0];
      var p' := if op.OpInit? && op.idx == i then op.init.own
                else if op.OpAccess? && cur == Some(i) then op.f(p)
                else p;
      Alone(p', CurAfter(cur, op), ops[1..], i)
  }

  /** In every interleaving, each context ends as if the others did not exist. */
  lemma {:induction false} OwnPartsDoNotInterfere<P, M>(s: State<P, M>, ops: seq<Op<P, M>>, s': State<P, M>, i: nat)
    requires StateOk(s) && OpRuns(s, ops, s') && i < CONTEXTS
    ensures StateOk(s') && s'.ctx[i].own == Alone(s.ctx[i].own, s.cur, ops, i)
    decreases |ops|
  {
    if ops != [] {
      OwnPartsDoNotInterfere(OpStep(s, ops[0]), ops[1..], s', i);
    }
  }

  // ---- Calls: the mirrored parts do not interfere either -------------------

  /** `stack` holds the handles of the calls in progress, the innermost last;
      `host` says that the host is running, not the code of the innermost call. */
  datatype Machine<P, M> = Machine(state: State<P, M>, stack: seq<nat>, host: bool)

  datatype Event<!P, !M> =
    | Enter(h: nat)                                   // dj64_call up to the dispatch
    | Compute(f: Context<P, M> -> Context<P, M>)      // the called code runs
    | AsmCall                                         // dj64_asm_call up to the host
    | AsmReturn                                       // and from the host back
    | Leave                                           // the call returns
    | Abandon                                         // the host aborts it, or it never returns
    | AbandonUnsaved                                  // a non-returning call without user thunks
    | Create(h: nat, init: Context<P, M>)             // a handle is initialised
    | Dispose                                         // a handle is disposed of

  predicate Enabled<P, M>(m: Machine<P, M>, e: Event<P, M>)
  {
    match e
    case Enter(h) => m.host && h < CONTEXTS
    case Compute(_) => !m.host
    case AsmCall => !m.host
    case AsmReturn => m.host && m.stack != []
    case Leave => !m.host
    case Abandon => m.host && m.stack != []
    case AbandonUnsaved => !m.host
    case Create(h, _) => m.host && h < CONTEXTS && m.state.cur != Some(h)
    case Dispose => m.host
  }

  predicate StackOk(stack: seq<nat>)
  {
    forall k :: 0 <= k < |stack| ==> stack[k] < CONTEXTS
  }

  /** The running code belongs to the innermost call. */
  predicate MachineOk<P, M>(m: Machine<P, M>)
  {
    && StateOk(m.state) && StackOk(m.stack)
    && (!m.host ==> m.stack != [] && m.state.cur == Some(Top(m.stack)))
  }

  function Top(stack: seq<nat>): nat
    requires stack != []
  {
    stack[|stack| - 1]
  }

  function Pop(stack: seq<nat>): seq<nat>
    requires stack != []
  {
    stack[..|stack| - 1]
  }

  function Step<P, M>(m: Machine<P, M>, e: Event<P, M>): (m': Machine<P, M>)
    requires MachineOk(m) && Enabled(m, e)
    ensures MachineOk(m')
  {
    match e
    case Enter(h) => Machine(Restore(m.state, h), m.stack + [h], false)
    case Compute(f) => m.(state := SetView(m.state, f(View(m.state))))
    case AsmCall => m.(state := Save(m.state), host := true)
    case AsmReturn => m.(state := Restore(m.state, Top(m.stack)), host := false)
    case Leave => Machine(Save(m.state), Pop(m.stack), true)
    case Abandon => Machine(Restore(m.state, Top(m.stack)), Pop(m.stack), true)
    case AbandonUnsaved => Machine(Restore(m.state, Top(m.stack)), Pop(m.stack), true)
    case Create(h, init) => m.(state := Init(m.state, h, init))
    case Dispose => m.(state := Deinit(m.state))
  }

  /** The ideal: every handle has a memory that nothing else touches. */
  datatype Ideal<P, M> = Ideal(mem: seq<Context<P, M>>, stack: seq<nat>, host: bool)

  function IdealStep<P, M>(i: Ideal<P, M>, e: Event<P, M>): Ideal<P, M>
    requires |i.mem| == CONTEXTS && StackOk(i.stack)
    requires (e.Enter? || e.Create? ==> e.h < CONTEXTS) && (e.Create? || e.Dispose? || e.Enter? || i.stack != [])
  {
    match e
    case Enter(h) => Ideal(i.mem, i.stack + [h], false)
    case Compute(f) => i.(mem := i.mem[Top(i.stack) := f(i.mem[Top(i.stack)])])
    case AsmCall => i.(host := true)
    case AsmReturn => i.(host := false)
    case Leave => Ideal(i.mem, Pop(i.stack), true)
    case Abandon => Ideal(i.mem, Pop(i.stack), true)
    case AbandonUnsaved => Ideal(i.mem, Pop(i.stack), true)
    case Create(h, init) => i.(mem := i.mem[h := init])
    case Dispose => i
  }

  /** The machine stands for the ideal: the running code sees the memory of its
      handle, and every other memory is in its context. */
  predicate Refines<P(==), M(==)>(m: Machine<P, M>, i: Ideal<P, M>)
  {
    && MachineOk(m) && |i.mem| == CONTEXTS && i.stack == m.stack && i.host == m.host
    && (forall j :: 0 <= j < CONTEXTS && (m.host || j != Top(m.stack)) ==> i.mem[j] == m.state.ctx[j])
    && (if m.host then m.state.cur.Some? ==> m.state.globals == m.state.ctx[m.state.cur.value].mirror
        else i.mem[Top(m.stack)] == View(m.state))
  }

  lemma StepRefines<P, M>(m: Machine<P, M>, i: Ideal<P, M>, e: Event<P, M>)
    requires Refines(m, i) && Enabled(m, e) && !e.AbandonUnsaved?
    ensures Refines(Step(m, e), IdealStep(i, e))
  {
  }

  /** Leaving a call without saving is harmless exactly when nothing has changed
      since the last save. */
  lemma UnsavedRefinesIff<P, M>(m: Machine<P, M>, i: Ideal<P, M>)
    requires Refines(m, i) && !m.host
    ensures Refines(Step(m, AbandonUnsaved), IdealStep(i, AbandonUnsaved)) <==>
            m.state.globals == m.state.ctx[Top(m.stack)].mirror
  {
    if m.state.globals != m.state.ctx[Top(m.stack)].mirror {
      assert i.mem[Top(m.stack)] != m.state.ctx[Top(m.stack)];
    }
  }

  ghost predicate Runs<P, M>(m: Machine<P, M>, es: seq<Event<P, M>>, m': Machine<P, M>)
    requires MachineOk(m)
    decreases |es|
  {
    if es == [] then m' == m
    else Enabled(m, es[0]) && Runs(Step(m, es[0]), es[1..], m')
  }

  ghost function IdealRun<P, M>(i: Ideal<P, M>, es: seq<Event<P, M>>): Option<Ideal<P, M>>
    decreases |es|
  {
    if es == [] then Some(i)
    else if |i.mem| == CONTEXTS && StackOk(i.stack)
         && (es[0].Enter? || es[0].Create? ==> es[0].h < CONTEXTS)
         && (es[0].Create? || es[0].Dispose? || es[0].Enter? || i.stack != [])
    then IdealRun(IdealStep(i, es[0]), es[1..])
    else None
  }

  /** When the handle that left unsaved is called next, it still finds its
      changes. */
  lemma UnsavedKeptOnReentry<P, M>(m: Machine<P, M>)
    requires MachineOk(m) && !m.host
    ensures View(Step(Step(m, AbandonUnsaved), Enter(Top(m.stack))).state) == View(m.state)
  {
  }

  /** A step before the events from `k` on. */
  lemma RunsFrom<P, M>(es: seq<Event<P, M>>, k: nat, m: Machine<P, M>, m1: Machine<P, M>, m': Machine<P, M>)
    requires k < |es| && MachineOk(m) && Enabled(m, es[k]) && Step(m, es[k]) == m1 && Runs(m1, es[k + 1..], m')
    ensures Runs(m, es[k..], m')
  {
    assert es[k..][1..] == es[k + 1..];
  }

  lemma IdealFrom<P, M>(es: seq<Event<P, M>>, k: nat, i: Ideal<P, M>, i1: Ideal<P, M>, i': Ideal<P, M>)
    requires k < |es| && |i.mem| == CONTEXTS && StackOk(i.stack)
    requires es[k].Enter? || es[k].Create? ==> es[k].h < CONTEXTS
    requires es[k].Create? || es[k].Dispose? || es[k].Enter? || i.stack != []
    requires IdealStep(i, es[k]) == i1 && IdealRun(i1, es[k + 1..]) == Some(i')
    ensures IdealRun(i, es[k..]) == Some(i')
  {
    assert es[k..][1..] == es[k + 1..];
  }

  const SET_ONE: Context<int, int> -> Context<int, int> := c => Context(0, 1)

  /** The code of handle 0 sets its global to 1 and leaves unsaved; handle 1 is
      called and returns; handle 0 is called again. */
  const LOSING_RUN: seq<Event<int, int>> :=
    [Enter(0), Compute(SET_ONE), AbandonUnsaved, Enter(1), Leave, Enter(0)]

  predicate AllZero(zero: seq<Context<int, int>>)
  {
    |zero| == CONTEXTS && forall k :: 0 <= k < CONTEXTS ==> zero[k] == Context(0, 0)
  }

  /** It finds 0, although its own memory would hold 1. */
  lemma UnsavedLosesUpdate(zero: seq<Context<int, int>>) returns (m': Machine<int, int>)
    requires AllZero(zero)
    ensures Runs(Machine(State(zero, None, 0), [], true), LOSING_RUN, m')
    ensures MachineOk(m') && !m'.host && View(m'.state).mirror == 0
    ensures IdealRun(Ideal(zero, [], true), LOSING_RUN) == Some(Ideal(zero[0 := Context(0, 1)], m'.stack, false))
    ensures m'.stack == [0]
  {
    m' := Machine(State(zero, Some(0), 0), [0], false);
    var left := Machine(State(zero, Some(0), 1), [], true);
    LosingEnd(zero, left, m');
    LosingStart(zero, left, m');
    var mem := zero[0 := Context(0, 1)];
    IdealEnd(mem, Ideal(mem, [0], false));
    IdealStart(zero, mem, Ideal(mem, [0], false));
    assert LOSING_RUN[0..] == LOSING_RUN;
  }

  lemma LosingStart(zero: seq<Context<int, int>>, left: Machine<int, int>, m': Machine<int, int>)
    requires AllZero(zero) && left == Machine(State(zero, Some(0), 1), [], true) && Runs(left, LOSING_RUN[3..], m')
    ensures Runs(Machine(State(zero, None, 0), [], true), LOSING_RUN[0..], m')
  {
    var m1 := Machine(State(zero, Some(0), 0), [0], false);
    LosingCall(zero, left, m1, m');
    RunsFrom(LOSING_RUN, 0, Machine(State(zero, None, 0), [], true), m1, m');
  }

  lemma LosingCall(zero: seq<Context<int, int>>, left: Machine<int, int>, m1: Machine<int, int>, m': Machine<int, int>)
    requires AllZero(zero) && left == Machine(State(zero, Some(0), 1), [], true) && Runs(left, LOSING_RUN[3..], m')
    requires m1 == Machine(State(zero, Some(0), 0), [0], false)
    ensures Runs(m1, LOSING_RUN[1..], m')
  {
    var m2 := Machine(State(zero, Some(0), 1), [0], false);
    assert zero[0 := zero[0].(own := 0)] == zero;
    RunsFrom(LOSING_RUN, 2, m2, left, m');
    RunsFrom(LOSING_RUN, 1, m1, m2, m');
  }

  lemma LosingEnd(zero: seq<Context<int, int>>, left: Machine<int, int>, m': Machine<int, int>)
    requires AllZero(zero) && left == Machine(State(zero, Some(0), 1), [], true)
    requires m' == Machine(State(zero, Some(0), 0), [0], false)
    ensures Runs(left, LOSING_RUN[3..], m')
  {
    var m4 := Machine(State(zero, Some(1), 0), [1], false);
    var m5 := Machine(State(zero, Some(1), 0), [], true);
    assert zero[1 := zero[1].(mirror := 0)] == zero;
    RunsFrom(LOSING_RUN, 5, m5, m', m');
    RunsFrom(LOSING_RUN, 4, m4, m5, m');
    RunsFrom(LOSING_RUN, 3, left, m4, m');
  }

  lemma IdealStart(zero: seq<Context<int, int>>, mem: seq<Context<int, int>>, i': Ideal<int, int>)
    requires AllZero(zero) && mem == zero[0 := Context(0, 1)]
    requires IdealRun(Ideal(mem, [], true), LOSING_RUN[3..]) == Some(i')
    ensures IdealRun(Ideal(zero, [], true), LOSING_RUN[0..]) == Some(i')
  {
    IdealFrom(LOSING_RUN, 2, Ideal(mem, [0], false), Ideal(mem, [], true), i');
    IdealFrom(LOSING_RUN, 1, Ideal(zero, [0], false), Ideal(mem, [0], false), i');
    IdealFrom(LOSING_RUN, 0, Ideal(zero, [], true), Ideal(zero, [0], false), i');
  }

  lemma IdealEnd(mem: seq<Context<int, int>>, i': Ideal<int, int>)
    requires |mem| == CONTEXTS && i' == Ideal(mem, [0], false)
    ensures IdealRun(Ideal(mem, [], true), LOSING_RUN[3..]) == Some(i')
  {
    IdealFrom(LOSING_RUN, 5, Ideal(mem, [], true), i', i');
    IdealFrom(LOSING_RUN, 4, Ideal(mem, [1], false), Ideal(mem, [], true), i');
    IdealFrom(LOSING_RUN, 3, Ideal(mem, [], true), Ideal(mem, [1], false), i');
  }

  /** Whenever a call is left unsaved, nothing has changed since the last save. */
  ghost predicate Harmless<P, M>(m: Machine<P, M>, es: seq<Event<P, M>>)
    requires MachineOk(m)
    decreases |es|
  {
    es != [] && Enabled(m, es[0]) ==>
      && (es[0].AbandonUnsaved? ==> m.state.globals == m.state.ctx[Top(m.stack)].mirror)
      && Harmless(Step(m, es[0]), es[1..])
  }

  /** Every handle owns its memory: over every nesting of calls, returns, aborts,
      creations and disposals in which unsaved exits are harmless, the machine does
      what the machine with private memories does. */
  lemma {:induction false} RunsRefine<P, M>(m: Machine<P, M>, i: Ideal<P, M>, es: seq<Event<P, M>>, m': Machine<P, M>)
    requires Refines(m, i) && Runs(m, es, m') && Harmless(m, es)
    ensures IdealRun(i, es).Some? && Refines(m', IdealRun(i, es).value)
    decreases |es|
  {
    if es != [] {
      if es[0].AbandonUnsaved? {
        UnsavedRefinesIff(m, i);
      } else {
        StepRefines(m, i, es[0]);
      }
      RunsRefine(Step(m, es[0]), IdealStep(i, es[0]), es[1..], m');
    }
  }

  /** A run without unsaved exits is harmless. */
  lemma {:induction false} SavedIsHarmless<P, M>(m: Machine<P, M>, es: seq<Event<P, M>>)
    requires MachineOk(m) && forall k :: 0 <= k < |es| ==> !es[k].AbandonUnsaved?
    ensures Harmless(m, es)
    decreases |es|
  {
    if es != [] && Enabled(m, es[0]) {
      SavedIsHarmless(Step(m, es[0]), es[1..]);
    }
  }

  /** The events `es` neither run code of handle `h` nor initialise it. */
  ghost predicate Untouched<P, M>(i: Ideal<P, M>, es: seq<Event<P, M>>, h: nat)
    decreases |es|
  {
    es != [] && IdealRun(i, es).Some? ==>
      && !(es[0].Create? && es[0].h == h)
      && !(es[0].Compute? && Top(i.stack) == h)
      && Untouched(IdealStep(i, es[0]), es[1..], h)
  }

  lemma {:induction false} UntouchedKeeps<P, M>(i: Ideal<P, M>, es: seq<Event<P, M>>, h: nat)
    requires |i.mem| == CONTEXTS && h < CONTEXTS && IdealRun(i, es).Some? && Untouched(i, es, h)
    ensures var i' := IdealRun(i, es).value; |i'.mem| == CONTEXTS && i'.mem[h] == i.mem[h]
    decreases |es|
  {
    if es != [] {
      UntouchedKeeps(IdealStep(i, es[0]), es[1..], h);
    }
  }

  /** Code that is suspended in one state and running again in a later one, with
      none of its own code run in between, finds exactly what it left, whatever
      the calls of other handles did. */
  lemma ResumedCodeFindsWhatItLeft<P, M>(m: Machine<P, M>, i: Ideal<P, M>, es: seq<Event<P, M>>, m': Machine<P, M>)
    requires Refines(m, i) && !m.host && Runs(m, es, m') && !m'.host && Harmless(m, es)
    requires MachineOk(m') && Top(m'.stack) == Top(m.stack) && Untouched(i, es, Top(m.stack))
    ensures View(m'.state) == View(m.state)
  {
    RunsRefine(m, i, es, m');
    UntouchedKeeps(i, es, Top(m.stack));
  }
}
