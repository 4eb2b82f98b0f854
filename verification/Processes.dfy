/** Processes that share one set of context registers: switching between them, and runs
    in which their steps are interleaved. */
module ProcessSpec {
  import opened Basics
  import C = ContextSpec

  // ---------- a switch ----------

  /** A machine seen as processes: the running one with the registers it has now,
      and each of the others with the registers it will resume with. */
  datatype View = View(running: Oop, registers: C.Registers, saved: map<Oop, C.Registers>)

  /** A process switch: nothing is lost, and nobody else is affected. */
  function Switched(v: View, p: Oop): View {
    if p == v.running || p !in v.saved then v
    else View(p, v.saved[p], v.saved[v.running := v.registers] - {p})
  }

  /** A context that can be made active. */
  predicate Resumable(memory: C.Memory, c: Oop) {
    C.Loadable(memory, c) && C.InStep(C.Machine(memory, C.Fetched(memory, c)))
  }

  /** Every process but the running one has a resumable context of its own. */
  ghost predicate SavedIn(machine: C.Machine, suspended: map<Oop, Oop>, running: Oop) {
    && C.InStep(machine) && running in suspended
    && (forall p | p in suspended && p != running ::
          Resumable(machine.memory, suspended[p]) && suspended[p] != machine.regs.activeContext)
    && (forall p, q | p in suspended && q in suspended && p != q && p != running && q != running ::
          suspended[p] != suspended[q])
  }

  ghost function ViewIn(machine: C.Machine, suspended: map<Oop, Oop>, running: Oop): View
    requires SavedIn(machine, suspended, running)
  {
    View(running, machine.regs,
         map p | p in suspended && p != running :: C.Fetched(machine.memory, suspended[p]))
  }

  /** What storing the registers means for each process. */
  lemma StoredProcesses(machine: C.Machine, suspended: map<Oop, Oop>, running: Oop, q: Oop)
    requires SavedIn(machine, suspended, running) && q in suspended
    ensures var c := if q == running then machine.regs.activeContext else suspended[q];
            && C.Loadable(machine.memory, c) && Resumable(C.Stored(machine), c)
            && C.Fetched(C.Stored(machine), c) == if q == running then machine.regs else C.Fetched(machine.memory, c)
  {
    if q == running {
      C.StoreThenFetch(machine);
    } else {
      C.StoreElsewhere(machine, suspended[q]);
    }
  }

  lemma AllStored(machine: C.Machine, suspended: map<Oop, Oop>, running: Oop)
    requires SavedIn(machine, suspended, running)
    ensures var after := suspended[running := machine.regs.activeContext];
            forall q | q in suspended ::
              && C.Loadable(machine.memory, after[q]) && Resumable(C.Stored(machine), after[q])
              && C.Fetched(C.Stored(machine), after[q]) ==
                 if q == running then machine.regs else C.Fetched(machine.memory, after[q])
  {
    var after := suspended[running := machine.regs.activeContext];
    forall q | q in suspended
      ensures C.Loadable(machine.memory, after[q]) && Resumable(C.Stored(machine), after[q])
      ensures C.Fetched(C.Stored(machine), after[q]) ==
              if q == running then machine.regs else C.Fetched(machine.memory, after[q])
    {
      StoredProcesses(machine, suspended, running, q);
    }
  }

  lemma SwitchKeepsSaved(machine: C.Machine, suspended: map<Oop, Oop>, running: Oop, p: Oop)
    requires SavedIn(machine, suspended, running) && p in suspended
    ensures C.InStep(machine) && running in suspended
    ensures var after := suspended[running := machine.regs.activeContext];
            C.Loadable(machine.memory, after[p]) && SavedIn(C.NewActive(machine, after[p]), after, p)
  {
    AllStored(machine, suspended, running);
    hide C.Stored, C.Fetched, C.Loadable;
  }

  /** What each process will resume with, after a switch. */
  lemma SavedAfterSwitch(machine: C.Machine, suspended: map<Oop, Oop>, running: Oop, p: Oop, q: Oop)
    requires SavedIn(machine, suspended, running) && p in suspended && q in suspended
    ensures var c := suspended[running := machine.regs.activeContext];
            && C.Loadable(machine.memory, c[p]) && C.Loadable(C.NewActive(machine, c[p]).memory, c[q])
            && (q != running ==> C.Loadable(machine.memory, suspended[q]))
            && C.Fetched(C.NewActive(machine, c[p]).memory, c[q]) ==
               if q == running then machine.regs else C.Fetched(machine.memory, suspended[q])
  {
    hide C.Fetched, C.Stored;
    StoredProcesses(machine, suspended, running, q);
    StoredProcesses(machine, suspended, running, p);
  }

  lemma SwitchIsLossless(machine: C.Machine, suspended: map<Oop, Oop>, running: Oop, p: Oop)
    requires SavedIn(machine, suspended, running) && p in suspended
    ensures C.InStep(machine) && running in suspended
    ensures var after := suspended[running := machine.regs.activeContext];
            && C.Loadable(machine.memory, after[p])
            && SavedIn(C.NewActive(machine, after[p]), after, p)
            && ViewIn(C.NewActive(machine, after[p]), after, p) == Switched(ViewIn(machine, suspended, running), p)
  {
    var after := suspended[running := machine.regs.activeContext];
    SwitchKeepsSaved(machine, suspended, running, p);
    SwitchedView(machine, suspended, running, p, C.NewActive(machine, after[p]));
  }

  lemma SwitchedView(machine: C.Machine, suspended: map<Oop, Oop>, running: Oop, p: Oop, m: C.Machine)
    requires SavedIn(machine, suspended, running) && p in suspended && running in suspended
    requires var after := suspended[running := machine.regs.activeContext];
             && C.InStep(machine) && C.Loadable(machine.memory, after[p])
             && m == C.NewActive(machine, after[p]) && SavedIn(m, after, p)
    ensures ViewIn(m, suspended[running := machine.regs.activeContext], p) ==
            Switched(ViewIn(machine, suspended, running), p)
  {
    hide C.NewActive, C.Fetched, C.Loadable, C.InStep, SavedIn;
    var after := suspended[running := machine.regs.activeContext];
    RegistersLoaded(machine, after[p]);
    SavedAfterSwitch(machine, suspended, running, p, p);
    forall q | q in suspended && q != p
      ensures C.Loadable(m.memory, after[q]) && (q != running ==> C.Loadable(machine.memory, suspended[q]))
      ensures C.Fetched(m.memory, after[q]) ==
              if q == running then machine.regs else C.Fetched(machine.memory, suspended[q])
    {
      SavedAfterSwitch(machine, suspended, running, p, q);
    }
    assert ViewIn(m, after, p).saved.Keys == Switched(ViewIn(machine, suspended, running), p).saved.Keys;
    assert ViewIn(m, after, p).saved == Switched(ViewIn(machine, suspended, running), p).saved;
  }

  lemma RegistersLoaded(machine: C.Machine, c: Oop)
    requires C.InStep(machine) && C.Loadable(machine.memory, c)
    ensures C.Loadable(C.NewActive(machine, c).memory, c)
    ensures C.NewActive(machine, c).regs == C.Fetched(C.NewActive(machine, c).memory, c)
  {
  }

  // ---------- one process by itself ----------

  /** A step of the running process: work in its active context, a send, or the return
      from a method. */
  datatype Op =
    | Work(a: C.Action)
    | Send(header: nat, theMethod: Oop, argumentCount: nat, newContext: Oop)
    | Answer(answer: C.Answer)

  function Alone(m: C.Machine, op: Op): (r: Option<C.Machine>)
    requires C.InStep(m)
    ensures r.Some? ==> C.InStep(r.value)
  {
    match op
    case Work(a) => if a.DoCall? then None else C.Exec(m, a)
    case Send(header, theMethod, argumentCount, newContext) =>
      if !C.CanActivate(m, header, argumentCount, newContext) then None
      else
        C.ActivatedInStep(m, header, theMethod, argumentCount, newContext);
        Some(C.Activate(m, header, theMethod, argumentCount, newContext))
    case Answer(answer) => C.Return(m, answer)
  }

  function RunAlone(m: C.Machine, ops: seq<Op>): (r: Option<C.Machine>)
    requires C.InStep(m)
    ensures r.Some? ==> C.InStep(r.value)
    decreases |ops|
  {
    if ops == [] then Some(m)
    else
      var next := Alone(m, ops[0]);
      if next.None? then None else RunAlone(next.value, ops[1..])
  }

  /** The steps of an action: those of a send, of everything in the method, and of its
      return, for a call. */
  function StepsOf(a: C.Action): seq<Op>
    decreases a, 0
  {
    if a.DoCall?
    then [Send(a.header, a.theMethod, a.argumentCount, a.newContext)] + StepsOfAll(a.body) + [Answer(a.answer)]
    else [Work(a)]
  }

  function StepsOfAll(actions: seq<C.Action>): seq<Op>
    decreases actions, 1
  {
    if actions == [] then [] else StepsOf(actions[0]) + StepsOfAll(actions[1..])
  }

  lemma {:induction false} RunInTwoParts(m: C.Machine, first: seq<Op>, second: seq<Op>)
    requires C.InStep(m)
    ensures RunAlone(m, first + second) ==
            if RunAlone(m, first).None? then None else RunAlone(RunAlone(m, first).value, second)
    decreases |first|
  {
    hide Alone;
    if first == [] {
      assert first + second == second;
    } else {
      assert (first + second)[0] == first[0] && (first + second)[1..] == first[1..] + second;
      if Alone(m, first[0]).Some? {
        RunInTwoParts(Alone(m, first[0]).value, first[1..], second);
      }
    }
  }

  lemma RunOne(m: C.Machine, op: Op)
    requires C.InStep(m)
    ensures RunAlone(m, [op]) == Alone(m, op)
  {
    hide Alone;
    if Alone(m, op).Some? {
      assert RunAlone(Alone(m, op).value, []) == Alone(m, op);
    }
  }

  /** Nested calls are such runs. */
  lemma {:induction false} CallIsRun(m: C.Machine, a: C.Action)
    requires C.InStep(m)
    ensures RunAlone(m, StepsOf(a)) == C.Exec(m, a)
    decreases a, 0
  {
    if a.DoCall? {
      var send, rest := Send(a.header, a.theMethod, a.argumentCount, a.newContext),
        StepsOfAll(a.body) + [Answer(a.answer)];
      assert StepsOf(a) == [send] + rest;
      RunInTwoParts(m, [send], rest);
      RunOne(m, send);
      if Alone(m, send).Some? {
        var started := Alone(m, send).value;
        ActionsAreRun(started, a.body);
        RunInTwoParts(started, StepsOfAll(a.body), [Answer(a.answer)]);
        if C.ExecAll(started, a.body).Some? {
          RunOne(C.ExecAll(started, a.body).value, Answer(a.answer));
        }
      }
    } else {
      RunOne(m, Work(a));
    }
  }

  lemma {:induction false} ActionsAreRun(m: C.Machine, actions: seq<C.Action>)
    requires C.InStep(m)
    ensures RunAlone(m, StepsOfAll(actions)) == C.ExecAll(m, actions)
    decreases actions, 1
  {
    if actions != [] {
      CallIsRun(m, actions[0]);
      RunInTwoParts(m, StepsOf(actions[0]), StepsOfAll(actions[1..]));
      if C.Exec(m, actions[0]).Some? {
        ActionsAreRun(C.Exec(m, actions[0]).value, actions[1..]);
      }
    }
  }

  // ---------- the same process among others ----------

  /** Two versions of a context that differ at most in what nobody reads: the saved
      registers of the active context, and the stack pointer of a finished one. */
  predicate SameFields(a: seq<C.Value>, b: seq<C.Value>, active: bool) {
    && |a| == |b| && C.TEMP_FRAME_START <= |a|
    && forall i | 0 <= i < |a| ::
         a[i] == b[i] || (active && (i == C.INSTRUCTION_POINTER_INDEX || i == C.STACK_POINTER_INDEX))
         || (i == C.STACK_POINTER_INDEX &&
             a[C.INSTRUCTION_POINTER_INDEX] == b[C.INSTRUCTION_POINTER_INDEX] == C.NIL_VALUE)
  }

  /** What never changes in a context. */
  predicate SameKind(a: seq<C.Value>, b: seq<C.Value>) {
    && |a| == |b| && C.TEMP_FRAME_START <= |a| && a[C.METHOD_INDEX] == b[C.METHOD_INDEX]
    && a[C.RECEIVER_INDEX] == b[C.RECEIVER_INDEX]
  }

  /** A context that its process can load, and whose sender is the process's too. */
  predicate Owned(memory: C.Memory, chain: set<Oop>, c: Oop) {
    && c != NIL && C.Loadable(memory, c)
    && (memory[c][C.SENDER_INDEX].Ref? && memory[c][C.SENDER_INDEX].oop != NIL ==>
        memory[c][C.SENDER_INDEX].oop in chain)
  }

  /** From one memory to a later one, contexts stay contexts of the same kind. */
  ghost predicate Stable(before: C.Memory, after: C.Memory) {
    && before.Keys <= after.Keys
    && forall c | c in before && C.IsContext(before, c) :: SameKind(after[c], before[c])
  }

  lemma StableOwned(before: C.Memory, after: C.Memory, chain: set<Oop>, longer: set<Oop>, c: Oop)
    requires Stable(before, after) && Owned(before, chain, c) && chain <= longer && c in after
    requires after[c][C.SENDER_INDEX] == before[c][C.SENDER_INDEX] || after[c][C.SENDER_INDEX] == C.NIL_VALUE
    ensures Owned(after, longer, c)
  {
    assert SameKind(after[c], before[c]);
    if C.IsBlockContext(before, c) {
      var home := before[c][C.HOME_INDEX].oop;
      assert SameKind(after[home], before[home]);
    }
  }

  /** Memory n is what memory m looks like to a process with these contexts. */
  ghost predicate LikeMemory(m: C.Memory, n: C.Memory, chain: set<Oop>, active: Oop) {
    && Stable(n, m) && chain <= n.Keys
    && (forall c | c in chain :: Owned(m, chain, c) && Owned(n, chain, c) && SameFields(m[c], n[c], c == active))
  }

  /** The same for machines. */
  ghost predicate Like(m: C.Machine, n: C.Machine, chain: set<Oop>) {
    && C.InStep(m) && C.InStep(n) && m.regs == n.regs && m.regs.activeContext in chain
    && LikeMemory(m.memory, n.memory, chain, m.regs.activeContext)
  }

  /** Stores to temporaries and returns go through the home context, which must be the
      process's own. */
  predicate Allowed(op: Op, home: Oop, chain: set<Oop>) {
    (op.Answer? || (op.Work? && op.a.DoStoreTemporary?)) ==> home in chain
  }

  function ChainAfter(op: Op, chain: set<Oop>): set<Oop> {
    if op.Send? then chain + {op.newContext} else chain
  }

  // ---------- work ----------

  function Put(memory: C.Memory, c: Oop, i: nat, v: C.Value): C.Memory
    requires c in memory && i < |memory[c]|
  {
    memory[c := memory[c][i := v]]
  }

  lemma PutIsStable(memory: C.Memory, c: Oop, i: nat, v: C.Value)
    requires C.IsContext(memory, c) && C.TEMP_FRAME_START <= i < |memory[c]|
    ensures Stable(memory, Put(memory, c, i, v))
    ensures Put(memory, c, i, v)[c][C.SENDER_INDEX] == memory[c][C.SENDER_INDEX]
  {
  }

  /** The same value stored above the header of the same context. */
  lemma PutIsLike(m: C.Memory, n: C.Memory, chain: set<Oop>, active: Oop, c: Oop, i: nat, v: C.Value)
    requires LikeMemory(m, n, chain, active) && c in chain && C.TEMP_FRAME_START <= i < |m[c]|
    ensures c in n && i < |n[c]| && LikeMemory(Put(m, c, i, v), Put(n, c, i, v), chain, active)
  {
    assert Owned(m, chain, c) && Owned(n, chain, c) && SameFields(m[c], n[c], c == active);
    PutIsStable(m, c, i, v);
    PutIsStable(n, c, i, v);
    var m', n' := Put(m, c, i, v), Put(n, c, i, v);
    forall e | e in chain
      ensures Owned(m', chain, e) && Owned(n', chain, e) && SameFields(m'[e], n'[e], e == active)
    {
      assert Owned(m, chain, e) && Owned(n, chain, e) && SameFields(m[e], n[e], e == active);
      StableOwned(m, m', chain, chain, e);
      StableOwned(n, n', chain, chain, e);
    }
    forall e | e in n' && C.IsContext(n', e)
      ensures SameKind(m'[e], n'[e])
    {
      assert C.IsContext(n, e) && SameKind(m[e], n[e]);
    }
  }

  /** What an action other than a call does. */
  lemma WorkIs(m: C.Machine, a: C.Action)
    requires C.InStep(m) && !a.DoCall? && C.Exec(m, a).Some?
    ensures var r, c, sp, home := C.Exec(m, a).value, m.regs.activeContext, m.regs.stackPointer, m.regs.homeContext;
            && c in m.memory && home in m.memory && r.regs.activeContext == c
            && match a
               case DoPush(v) => 0 <= sp + 1 < |m.memory[c]| && r.memory == Put(m.memory, c, sp + 1, v)
               case DoStoreTemporary(offset, v) =>
                 && offset + C.TEMP_FRAME_START < |m.memory[home]|
                 && r.memory == Put(m.memory, home, offset + C.TEMP_FRAME_START, v)
               case _ => r.memory == m.memory
  {
  }

  /** Whether an action can be done depends on the registers and the lengths of the
      contexts only, as do the registers afterwards. */
  lemma WorkAgrees(m: C.Machine, n: C.Machine, a: C.Action)
    requires C.InStep(m) && C.InStep(n) && m.regs == n.regs && !a.DoCall?
    requires |m.memory[m.regs.activeContext]| == |n.memory[m.regs.activeContext]|
    requires m.regs.homeContext in m.memory && m.regs.homeContext in n.memory
    requires |m.memory[m.regs.homeContext]| == |n.memory[m.regs.homeContext]|
    ensures C.Exec(m, a).Some? <==> C.Exec(n, a).Some?
    ensures C.Exec(m, a).Some? ==> C.Exec(m, a).value.regs == C.Exec(n, a).value.regs
  {
  }

  lemma LikeLengths(m: C.Machine, n: C.Machine, chain: set<Oop>)
    requires Like(m, n, chain)
    ensures var c, home := m.regs.activeContext, m.regs.homeContext;
            && c in m.memory && c in n.memory && |m.memory[c]| == |n.memory[c]|
            && home in m.memory && home in n.memory && |m.memory[home]| == |n.memory[home]|
  {
    assert SameFields(m.memory[m.regs.activeContext], n.memory[m.regs.activeContext], true);
    assert SameKind(m.memory[m.regs.homeContext], n.memory[m.regs.homeContext]);
  }

  lemma WorkIsLike(m: C.Machine, n: C.Machine, chain: set<Oop>, a: C.Action)
    requires Like(m, n, chain) && Allowed(Work(a), m.regs.homeContext, chain) && Alone(m, Work(a)).Some?
    ensures Alone(n, Work(a)).Some? && Like(Alone(m, Work(a)).value, Alone(n, Work(a)).value, chain)
  {
    hide C.Exec, LikeMemory, Put, SameFields, SameKind, Owned;
    var c, home := m.regs.activeContext, m.regs.homeContext;
    LikeLengths(m, n, chain);
    WorkAgrees(m, n, a);
    WorkIs(m, a);
    WorkIs(n, a);
    hide C.InStep;
    match a
    case DoPush(v) => PutIsLike(m.memory, n.memory, chain, c, c, m.regs.stackPointer + 1, v);
    case DoStoreTemporary(offset, v) => PutIsLike(m.memory, n.memory, chain, c, home, offset + C.TEMP_FRAME_START, v);
    case _ =>
  }

  // ---------- sends ----------

  /** The caller's fields and the new context's after a send. */
  function CallerFields(fields: seq<C.Value>, ip: int, sp: int, argumentCount: nat): seq<C.Value>
    requires C.TEMP_FRAME_START <= sp - argumentCount && sp < |fields|
  {
    C.StoredFields(C.Vacated(fields, sp - argumentCount, argumentCount + 1), ip, sp - argumentCount - 1)
  }

  lemma SendIs(m: C.Machine, op: Op)
    requires C.InStep(m) && op.Send? && Alone(m, op).Some?
    ensures var r, c, sp := Alone(m, op).value, m.regs.activeContext, m.regs.stackPointer;
            && c in m.memory && op.newContext !in m.memory && op.newContext != NIL
            && C.TEMP_FRAME_START <= sp - op.argumentCount && sp < |m.memory[c]|
            && C.RECEIVER_INDEX + op.argumentCount + 1 <= C.ContextSize(op.header)
            && r.memory == m.memory
                 [c := CallerFields(m.memory[c], m.regs.instructionPointer, sp, op.argumentCount)]
                 [op.newContext := C.NewFields(op.header, op.theMethod, c, m.memory[c], sp - op.argumentCount,
                                               op.argumentCount)]
            && C.Loadable(r.memory, op.newContext) && r.regs == C.Fetched(r.memory, op.newContext)
            && !C.IsBlockContext(r.memory, op.newContext)
            && r.memory[op.newContext][C.SENDER_INDEX] == C.Ref(c)
  {
  }

  /** The caller's saved registers make up for what may differ in its context, and only
      the stack is copied. */
  lemma SendAgrees(a: seq<C.Value>, b: seq<C.Value>, ip: int, sp: int, op: Op, sender: Oop)
    requires SameFields(a, b, true) && |a| <= 16384 && C.IsIntegerValue(ip + 1) && op.Send?
    requires C.TEMP_FRAME_START <= sp - op.argumentCount && sp < |a|
    requires C.RECEIVER_INDEX + op.argumentCount + 1 <= C.ContextSize(op.header)
    ensures CallerFields(a, ip, sp, op.argumentCount) == CallerFields(b, ip, sp, op.argumentCount)
    ensures C.NewFields(op.header, op.theMethod, sender, a, sp - op.argumentCount, op.argumentCount)
            == C.NewFields(op.header, op.theMethod, sender, b, sp - op.argumentCount, op.argumentCount)
  {
    hide C.EmptyFields;
  }

  lemma CallerIsKept(fields: seq<C.Value>, ip: int, sp: int, argumentCount: nat)
    requires C.TEMP_FRAME_START <= sp - argumentCount && sp < |fields|
    ensures var after := CallerFields(fields, ip, sp, argumentCount);
            SameKind(after, fields) && after[C.SENDER_INDEX] == fields[C.SENDER_INDEX]
  {
  }

  lemma CallIsLike(m: C.Memory, n: C.Memory, chain: set<Oop>, c: Oop, newContext: Oop, caller: seq<C.Value>,
                   fields: seq<C.Value>)
    requires LikeMemory(m, n, chain, c) && c in chain && newContext !in m && newContext != NIL
    requires SameKind(caller, m[c]) && caller[C.SENDER_INDEX] == m[c][C.SENDER_INDEX]
    requires |fields| >= C.TEMP_FRAME_START && fields[C.SENDER_INDEX] == C.Ref(c)
    requires C.Loadable(m[c := caller][newContext := fields], newContext)
    requires C.Loadable(n[c := caller][newContext := fields], newContext)
    ensures LikeMemory(m[c := caller][newContext := fields], n[c := caller][newContext := fields],
                       chain + {newContext}, newContext)
  {
    var m', n', longer := m[c := caller][newContext := fields], n[c := caller][newContext := fields],
      chain + {newContext};
    assert SameFields(m[c], n[c], true) && SameKind(m[c], n[c]);
    assert Stable(m, m') && Stable(n, n');
    forall e | e in longer
      ensures Owned(m', longer, e) && Owned(n', longer, e) && SameFields(m'[e], n'[e], e == newContext)
    {
      if e != newContext {
        assert Owned(m, chain, e) && Owned(n, chain, e) && SameFields(m[e], n[e], e == c);
        StableOwned(m, m', chain, longer, e);
        StableOwned(n, n', chain, longer, e);
      }
    }
    forall e | e in n' && C.IsContext(n', e)
      ensures SameKind(m'[e], n'[e])
    {
      assert e != c && e != newContext ==> C.IsContext(n, e) && SameKind(m[e], n[e]);
    }
  }

  lemma SendSucceeds(m: C.Machine, n: C.Machine, op: Op)
    requires C.InStep(m) && C.InStep(n) && m.regs == n.regs && n.memory.Keys <= m.memory.Keys
    requires op.Send? && Alone(m, op).Some?
    ensures Alone(n, op).Some?
  {
  }

  lemma SendIsLike(m: C.Machine, n: C.Machine, chain: set<Oop>, op: Op)
    requires Like(m, n, chain) && op.Send? && Alone(m, op).Some?
    ensures Alone(n, op).Some? && Like(Alone(m, op).value, Alone(n, op).value, ChainAfter(op, chain))
  {
    hide Alone, C.NewFields, CallerFields, C.Fetched;
    var c, ip, sp := m.regs.activeContext, m.regs.instructionPointer, m.regs.stackPointer;
    assert SameFields(m.memory[c], n.memory[c], true) && Owned(m.memory, chain, c);
    SendSucceeds(m, n, op);
    SendIs(m, op);
    SendIs(n, op);
    SendAgrees(m.memory[c], n.memory[c], ip, sp, op, c);
    CallerIsKept(m.memory[c], ip, sp, op.argumentCount);
    SendLikeFrom(m, n, chain, op, CallerFields(m.memory[c], ip, sp, op.argumentCount),
                 C.NewFields(op.header, op.theMethod, c, m.memory[c], sp - op.argumentCount, op.argumentCount),
                 Alone(m, op).value, Alone(n, op).value);
  }

  /** The rest of the proof, in terms of the new fields. */
  lemma SendLikeFrom(m: C.Machine, n: C.Machine, chain: set<Oop>, op: Op, caller: seq<C.Value>, fields: seq<C.Value>,
                     m': C.Machine, n': C.Machine)
    requires Like(m, n, chain) && op.Send? && C.InStep(m') && C.InStep(n')
    requires var c := m.regs.activeContext;
             && op.newContext !in m.memory && op.newContext != NIL && c in n.memory
             && SameKind(caller, m.memory[c]) && caller[C.SENDER_INDEX] == m.memory[c][C.SENDER_INDEX]
             && |fields| >= C.TEMP_FRAME_START && fields[C.SENDER_INDEX] == C.Ref(c)
             && m'.memory == m.memory[c := caller][op.newContext := fields]
             && n'.memory == n.memory[c := caller][op.newContext := fields]
    requires C.Loadable(m'.memory, op.newContext) && C.Loadable(n'.memory, op.newContext)
    requires !C.IsBlockContext(m'.memory, op.newContext)
    requires m'.regs == C.Fetched(m'.memory, op.newContext) && n'.regs == C.Fetched(n'.memory, op.newContext)
    ensures Like(m', n', ChainAfter(op, chain))
  {
    var c := m.regs.activeContext;
    assert m'.memory[op.newContext] == n'.memory[op.newContext];
    assert m'.regs == n'.regs;
    hide C.InStep, LikeMemory, SameFields, Owned, C.Fetched;
    CallIsLike(m.memory, n.memory, chain, c, op.newContext, caller, fields);
  }

  // ---------- returns ----------

  /** When a return succeeds. */
  predicate Returns(m: C.Machine, answer: C.Answer, target: Oop)
    requires C.InStep(m)
  {
    var c, sp := m.regs.activeContext, m.regs.stackPointer;
    && (answer.Top? ==> C.TEMP_FRAME_START <= sp)
    && m.memory[m.regs.homeContext][C.SENDER_INDEX] == C.Ref(target) && target != NIL && target != c
    && C.Loadable(m.memory, target) && !C.Finished(m.memory, target)
    && C.TEMP_FRAME_START <= C.Fetched(m.memory, target).stackPointer + 1 < |m.memory[target]|
  }

  function Value(m: C.Machine, answer: C.Answer): C.Value
    requires C.InStep(m) && (answer.Top? ==> C.TEMP_FRAME_START <= m.regs.stackPointer)
  {
    match answer
    case Self => m.regs.receiver
    case Constant(v) => v
    case Top => m.memory[m.regs.activeContext][m.regs.stackPointer]
  }

  lemma AnswerIs(m: C.Machine, answer: C.Answer)
    requires C.InStep(m)
    ensures C.Return(m, answer).Some? ==>
              && m.memory[m.regs.homeContext][C.SENDER_INDEX].Ref?
              && var target := m.memory[m.regs.homeContext][C.SENDER_INDEX].oop;
                 && Returns(m, answer, target)
                 && var r, sp := C.Return(m, answer).value, C.Fetched(m.memory, target).stackPointer + 1;
                    && r.memory == Put(C.NilContextFields(m.memory, m.regs.activeContext), target, sp, Value(m, answer))
                    && r.regs == C.Fetched(m.memory, target).(stackPointer := sp) && r.regs.activeContext == target
  {
    if C.Return(m, answer).Some? {
      var target := m.memory[m.regs.homeContext][C.SENDER_INDEX].oop;
      C.StillLoadable(m.memory, m.regs.activeContext, target);
    }
  }

  lemma AnswerSucceeds(m: C.Machine, answer: C.Answer, target: Oop)
    requires C.InStep(m) && Returns(m, answer, target)
    ensures C.Return(m, answer).Some?
  {
  }

  /** The target of a return is the process's, and loads alike. */
  lemma TargetIsLike(m: C.Machine, n: C.Machine, chain: set<Oop>, answer: C.Answer, target: Oop)
    requires Like(m, n, chain) && m.regs.homeContext in chain && Returns(m, answer, target)
    ensures target in chain && Returns(n, answer, target) && Value(n, answer) == Value(m, answer)
    ensures C.Fetched(n.memory, target) == C.Fetched(m.memory, target)
  {
    var c, home := m.regs.activeContext, m.regs.homeContext;
    assert Owned(m.memory, chain, home) && SameFields(m.memory[home], n.memory[home], home == c);
    assert SameFields(m.memory[c], n.memory[c], true);
    assert Owned(m.memory, chain, target) && Owned(n.memory, chain, target);
    assert SameFields(m.memory[target], n.memory[target], false);
    if C.IsBlockContext(n.memory, target) {
      var itsHome := n.memory[target][C.HOME_INDEX].oop;
      assert SameKind(m.memory[itsHome], n.memory[itsHome]);
    }
  }

  /** The context left behind is finished for both. */
  lemma FinishingIsLike(m: C.Memory, n: C.Memory, chain: set<Oop>, c: Oop, target: Oop)
    requires LikeMemory(m, n, chain, c) && c in chain && target in chain && target != c && C.IsContext(m, c)
             && C.IsContext(n, c)
    ensures LikeMemory(C.NilContextFields(m, c), C.NilContextFields(n, c), chain, target)
  {
    var m', n' := C.NilContextFields(m, c), C.NilContextFields(n, c);
    assert Stable(m, m') && Stable(n, n');
    forall e | e in chain
      ensures Owned(m', chain, e) && Owned(n', chain, e) && SameFields(m'[e], n'[e], e == target)
    {
      assert Owned(m, chain, e) && Owned(n, chain, e) && SameFields(m[e], n[e], e == c);
      StableOwned(m, m', chain, chain, e);
      StableOwned(n, n', chain, chain, e);
    }
    forall e | e in n' && C.IsContext(n', e)
      ensures SameKind(m'[e], n'[e])
    {
      assert C.IsContext(n, e) && SameKind(m[e], n[e]);
    }
  }

  lemma AnswerIsLike(m: C.Machine, n: C.Machine, chain: set<Oop>, answer: C.Answer)
    requires Like(m, n, chain) && m.regs.homeContext in chain && C.Return(m, answer).Some?
    ensures C.Return(n, answer).Some? && Like(C.Return(m, answer).value, C.Return(n, answer).value, chain)
  {
    hide C.Return, SameFields, Put, C.NilContextFields, Value, C.Fetched;
    AnswerIs(m, answer);
    var c, target := m.regs.activeContext, m.memory[m.regs.homeContext][C.SENDER_INDEX].oop;
    TargetIsLike(m, n, chain, answer, target);
    AnswerSucceeds(n, answer, target);
    AnswerIs(n, answer);
    FinishingIsLike(m.memory, n.memory, chain, c, target);
    var left, alike := C.NilContextFields(m.memory, c), C.NilContextFields(n.memory, c);
    TargetUntouched(m.memory, c, target);
    PushIsLike(left, alike, chain, target, C.Fetched(m.memory, target).stackPointer + 1, Value(m, answer),
               C.Return(m, answer).value, C.Return(n, answer).value);
  }

  lemma TargetUntouched(memory: C.Memory, c: Oop, target: Oop)
    requires C.IsContext(memory, c) && target in memory && target != c
    ensures target in C.NilContextFields(memory, c) && C.NilContextFields(memory, c)[target] == memory[target]
  {
  }

  /** The value pushed in the context returned to. */
  lemma PushIsLike(m: C.Memory, n: C.Memory, chain: set<Oop>, c: Oop, sp: nat, v: C.Value, m': C.Machine, n': C.Machine)
    requires LikeMemory(m, n, chain, c) && c in chain && c in n && C.TEMP_FRAME_START <= sp < |m[c]| && sp < |n[c]|
    requires m'.memory == Put(m, c, sp, v) && n'.memory == Put(n, c, sp, v)
    requires C.InStep(m') && C.InStep(n') && m'.regs == n'.regs && m'.regs.activeContext == c
    ensures Like(m', n', chain)
  {
    hide LikeMemory, Put, C.InStep;
    PutIsLike(m, n, chain, c, c, sp, v);
  }

  /** Whatever the process does, it does alike. */
  lemma StepIsLike(m: C.Machine, n: C.Machine, chain: set<Oop>, op: Op)
    requires Like(m, n, chain) && Allowed(op, m.regs.homeContext, chain) && Alone(m, op).Some?
    ensures Alone(n, op).Some? && Like(Alone(m, op).value, Alone(n, op).value, ChainAfter(op, chain))
  {
    match op
    case Work(a) => WorkIsLike(m, n, chain, a);
    case Send(_, _, _, _) => SendIsLike(m, n, chain, op);
    case Answer(answer) => AnswerIsLike(m, n, chain, answer);
  }

  // ---------- processes interleaved ----------

  /** The machine, the process that runs, the contexts the others are suspended in, and
      which contexts are whose. */
  datatype World = World(machine: C.Machine, running: Oop, suspended: map<Oop, Oop>, chains: map<Oop, set<Oop>>)

  /** The machine as a process sees it: with the registers it has or will resume with. */
  function MachineOf(w: World, p: Oop): C.Machine
    requires p in w.suspended && (p != w.running ==> C.Loadable(w.machine.memory, w.suspended[p]))
  {
    C.Machine(w.machine.memory, if p == w.running then w.machine.regs else C.Fetched(w.machine.memory, w.suspended[p]))
  }

  /** A process can run, and its senders are its own. */
  ghost predicate Ready(w: World, p: Oop)
    requires p in w.suspended && p in w.chains
  {
    && (p != w.running ==> C.Loadable(w.machine.memory, w.suspended[p]))
    && Like(MachineOf(w, p), MachineOf(w, p), w.chains[p])
  }

  /** No context belongs to two processes. */
  ghost predicate Inv(w: World) {
    && w.running in w.suspended && w.chains.Keys == w.suspended.Keys
    && (forall p | p in w.suspended :: Ready(w, p))
    && (forall p, q | p in w.suspended && q in w.suspended && p != q :: w.chains[p] !! w.chains[q])
  }

  /** Contexts that did not change are still what they look like. */
  lemma UnaffectedIsLike(m: C.Machine, after: C.Memory, n: C.Machine, chain: set<Oop>)
    requires Like(m, n, chain) && Stable(m.memory, after)
    requires forall c | c in chain && c in m.memory :: c in after && after[c] == m.memory[c]
    ensures Like(C.Machine(after, m.regs), n, chain)
  {
    forall c | c in chain
      ensures Owned(after, chain, c) && SameFields(after[c], n.memory[c], c == m.regs.activeContext)
    {
      assert Owned(m.memory, chain, c) && SameFields(m.memory[c], n.memory[c], c == m.regs.activeContext);
      StableOwned(m.memory, after, chain, chain, c);
    }
    forall c | c in n.memory && C.IsContext(n.memory, c)
      ensures SameKind(after[c], n.memory[c])
    {
      assert SameKind(m.memory[c], n.memory[c]);
    }
    assert SameKind(after[m.regs.homeContext], m.memory[m.regs.homeContext]);
  }

  lemma UnaffectedIsFetched(memory: C.Memory, after: C.Memory, c: Oop)
    requires Stable(memory, after) && C.Loadable(memory, c) && c in after && after[c] == memory[c]
    ensures C.Loadable(after, c) && C.Fetched(after, c) == C.Fetched(memory, c)
  {
    if C.IsBlockContext(memory, c) {
      assert SameKind(after[memory[c][C.HOME_INDEX].oop], memory[memory[c][C.HOME_INDEX].oop]);
    }
  }

  /** A step changes contexts of its own process only, and none in kind. */
  ghost predicate StaysHome(before: C.Memory, after: C.Memory, chain: set<Oop>) {
    Stable(before, after) && forall c | c in before && c !in chain :: after[c] == before[c]
  }

  lemma WorkStaysHome(m: C.Machine, chain: set<Oop>, a: C.Action)
    requires Like(m, m, chain) && Allowed(Work(a), m.regs.homeContext, chain) && Alone(m, Work(a)).Some?
    ensures StaysHome(m.memory, Alone(m, Work(a)).value.memory, chain)
  {
    WorkIs(m, a);
    assert Owned(m.memory, chain, m.regs.activeContext);
    hide C.Exec, LikeMemory, C.InStep;
  }

  lemma SendStaysHome(m: C.Machine, chain: set<Oop>, op: Op)
    requires Like(m, m, chain) && op.Send? && Alone(m, op).Some?
    ensures op.newContext !in m.memory && StaysHome(m.memory, Alone(m, op).value.memory, chain)
  {
    hide Alone, CallerFields, C.NewFields, LikeMemory;
    SendIs(m, op);
    CallerIsKept(m.memory[m.regs.activeContext], m.regs.instructionPointer, m.regs.stackPointer, op.argumentCount);
  }

  lemma AnswerStaysHome(m: C.Machine, chain: set<Oop>, answer: C.Answer)
    requires Like(m, m, chain) && m.regs.homeContext in chain && C.Return(m, answer).Some?
    ensures StaysHome(m.memory, C.Return(m, answer).value.memory, chain)
  {
    hide C.Return, Value, C.Fetched, LikeMemory;
    AnswerIs(m, answer);
    TargetIsLike(m, m, chain, answer, m.memory[m.regs.homeContext][C.SENDER_INDEX].oop);
  }

  lemma StepStaysHome(m: C.Machine, chain: set<Oop>, op: Op)
    requires Like(m, m, chain) && Allowed(op, m.regs.homeContext, chain) && Alone(m, op).Some?
    ensures StaysHome(m.memory, Alone(m, op).value.memory, chain)
    ensures op.Send? ==> op.newContext !in m.memory
  {
    hide StaysHome;
    match op
    case Work(a) => WorkStaysHome(m, chain, a);
    case Send(_, _, _, _) => SendStaysHome(m, chain, op);
    case Answer(answer) => AnswerStaysHome(m, chain, answer);
  }

  lemma LikeItself(m: C.Machine, n: C.Machine, chain: set<Oop>)
    requires Like(m, n, chain)
    ensures Like(m, m, chain)
  {
  }

  // ---------- steps of the world ----------

  datatype Step = Own(op: Op) | SwitchTo(p: Oop)

  function AfterOwn(w: World, op: Op): World
    requires C.InStep(w.machine) && Alone(w.machine, op).Some? && w.running in w.chains
  {
    w.(machine := Alone(w.machine, op).value, chains := w.chains[w.running := ChainAfter(op, w.chains[w.running])])
  }

  /** The running process steps on as it would by itself. */
  lemma OwnStepOfRunning(w: World, op: Op, n: C.Machine)
    requires Inv(w) && Allowed(op, w.machine.regs.homeContext, w.chains[w.running])
    requires C.InStep(w.machine) && Alone(w.machine, op).Some? && Like(w.machine, n, w.chains[w.running])
    ensures Alone(n, op).Some?
    ensures var v := AfterOwn(w, op);
            MachineOf(v, v.running) == v.machine && Like(v.machine, Alone(n, op).value, v.chains[v.running])
  {
    StepIsLike(w.machine, n, w.chains[w.running], op);
    hide Like, Alone;
  }

  /** The others do not notice. */
  lemma OwnStepOfOther(w: World, op: Op, p: Oop, n: C.Machine)
    requires Inv(w) && Allowed(op, w.machine.regs.homeContext, w.chains[w.running])
    requires C.InStep(w.machine) && Alone(w.machine, op).Some?
    requires p in w.suspended && p != w.running && Like(MachineOf(w, p), n, w.chains[p])
    ensures var v := AfterOwn(w, op);
            && C.Loadable(v.machine.memory, v.suspended[p]) && v.chains[p] == w.chains[p]
            && MachineOf(v, p).regs == MachineOf(w, p).regs && Like(MachineOf(v, p), n, v.chains[p])
  {
    assert Ready(w, w.running) && Ready(w, p);
    StepStaysHome(w.machine, w.chains[w.running], op);
    hide Alone, C.InStep, LikeMemory, C.Fetched, C.Loadable;
    var after := Alone(w.machine, op).value.memory;
    assert w.chains[p] !! w.chains[w.running];
    UnaffectedIsFetched(w.machine.memory, after, w.suspended[p]);
    UnaffectedIsLike(MachineOf(w, p), after, n, w.chains[p]);
  }

  lemma OwnStepReady(w: World, op: Op, p: Oop)
    requires Inv(w) && Allowed(op, w.machine.regs.homeContext, w.chains[w.running])
    requires C.InStep(w.machine) && Alone(w.machine, op).Some? && p in w.suspended
    ensures Ready(AfterOwn(w, op), p)
  {
    hide Alone, Like, C.InStep;
    var v := AfterOwn(w, op);
    assert Ready(w, w.running) && Ready(w, p);
    if p == w.running {
      OwnStepOfRunning(w, op, w.machine);
      LikeItself(v.machine, Alone(w.machine, op).value, v.chains[p]);
    } else {
      OwnStepOfOther(w, op, p, MachineOf(w, p));
      LikeItself(MachineOf(v, p), MachineOf(w, p), w.chains[p]);
    }
  }

  lemma ReadyInside(w: World, p: Oop)
    requires p in w.suspended && p in w.chains && Ready(w, p)
    ensures w.chains[p] <= w.machine.memory.Keys
  {
  }

  lemma NewIsFresh(w: World, op: Op)
    requires Inv(w) && Allowed(op, w.machine.regs.homeContext, w.chains[w.running])
    requires C.InStep(w.machine) && Alone(w.machine, op).Some?
    ensures op.Send? ==> op.newContext !in w.machine.memory
  {
    assert Ready(w, w.running);
    StepStaysHome(w.machine, w.chains[w.running], op);
  }

  lemma OwnStepKeeps(w: World, op: Op)
    requires Inv(w) && Allowed(op, w.machine.regs.homeContext, w.chains[w.running])
    requires C.InStep(w.machine) && Alone(w.machine, op).Some?
    ensures Inv(AfterOwn(w, op))
  {
    hide Alone, Ready, C.InStep, Allowed;
    var v := AfterOwn(w, op);
    NewIsFresh(w, op);
    forall p | p in w.suspended
      ensures Ready(v, p) && w.chains[p] <= w.machine.memory.Keys
    {
      OwnStepReady(w, op, p);
      ReadyInside(w, p);
    }
    forall p, q | p in w.suspended && q in w.suspended && p != q
      ensures v.chains[p] !! v.chains[q]
    {
      assert w.chains[p] !! w.chains[q];
    }
  }

  /** Storing the registers makes no difference to their process. */
  lemma StoredIsLike(m: C.Machine, n: C.Machine, chain: set<Oop>)
    requires Like(m, n, chain)
    ensures Like(C.Machine(C.Stored(m), m.regs), n, chain)
  {
    var c, after := m.regs.activeContext, C.Stored(m);
    assert Stable(m.memory, after) && after[c][C.SENDER_INDEX] == m.memory[c][C.SENDER_INDEX];
    forall e | e in chain
      ensures Owned(after, chain, e) && SameFields(after[e], n.memory[e], e == c)
    {
      assert Owned(m.memory, chain, e) && SameFields(m.memory[e], n.memory[e], e == c);
      StableOwned(m.memory, after, chain, chain, e);
    }
    forall e | e in n.memory && C.IsContext(n.memory, e)
      ensures SameKind(after[e], n.memory[e])
    {
      assert SameKind(m.memory[e], n.memory[e]);
    }
    assert SameKind(after[m.regs.homeContext], m.memory[m.regs.homeContext]);
  }

  lemma StoredStaysHome(m: C.Machine, chain: set<Oop>)
    requires C.InStep(m) && m.regs.activeContext in chain
    ensures StaysHome(m.memory, C.Stored(m), chain)
  {
  }

  function AfterSwitch(w: World, p: Oop): World
    requires Inv(w) && p in w.suspended
  {
    assert Ready(w, w.running) && Ready(w, p);
    var suspended := w.suspended[w.running := w.machine.regs.activeContext];
    World(C.NewActive(w.machine, suspended[p]), p, suspended, w.chains)
  }

  /** Any process has the registers it had, in the memory with the running one's
      registers stored. */
  lemma SwitchFor(w: World, p: Oop, q: Oop, n: C.Machine)
    requires Inv(w) && p in w.suspended && q in w.suspended
    requires q != w.running ==> C.Loadable(w.machine.memory, w.suspended[q])
    requires Like(MachineOf(w, q), n, w.chains[q])
    ensures var v := AfterSwitch(w, p);
            && (q != p ==> C.Loadable(v.machine.memory, v.suspended[q]))
            && MachineOf(v, q) == C.Machine(C.Stored(w.machine), MachineOf(w, q).regs)
            && Like(MachineOf(v, q), n, w.chains[q])
  {
    assert Ready(w, w.running) && Ready(w, q);
    var after := C.Stored(w.machine);
    C.StoreThenFetch(w.machine);
    StoredStaysHome(w.machine, w.chains[w.running]);
    hide C.Stored, C.Fetched, C.Loadable, LikeMemory, C.InStep;
    if q == w.running {
      StoredIsLike(w.machine, n, w.chains[q]);
    } else {
      assert w.chains[q] !! w.chains[w.running];
      UnaffectedIsFetched(w.machine.memory, after, w.suspended[q]);
      UnaffectedIsLike(MachineOf(w, q), after, n, w.chains[q]);
    }
  }

  lemma SwitchKeeps(w: World, p: Oop)
    requires Inv(w) && p in w.suspended
    ensures Inv(AfterSwitch(w, p))
  {
    var v := AfterSwitch(w, p);
    forall q | q in w.suspended
      ensures Ready(v, q)
    {
      assert Ready(w, q);
      SwitchFor(w, p, q, MachineOf(w, q));
      LikeItself(MachineOf(v, q), MachineOf(w, q), w.chains[q]);
    }
  }

  /** One step, if it can be done. */
  function Perform(w: World, step: Step): (r: Option<World>)
    requires Inv(w)
    ensures r.Some? ==> Inv(r.value)
  {
    assert Ready(w, w.running);
    match step
    case Own(op) =>
      if Allowed(op, w.machine.regs.homeContext, w.chains[w.running]) && Alone(w.machine, op).Some? then
        OwnStepKeeps(w, op);
        Some(AfterOwn(w, op))
      else None
    case SwitchTo(p) =>
      if p in w.suspended then
        SwitchKeeps(w, p);
        Some(AfterSwitch(w, p))
      else None
  }

  function Run(w: World, steps: seq<Step>): (r: Option<World>)
    requires Inv(w)
    ensures r.Some? ==> Inv(r.value)
    decreases |steps|
  {
    if steps == [] then Some(w)
    else
      var next := Perform(w, steps[0]);
      if next.None? then None else Run(next.value, steps[1..])
  }

  /** The steps of a run that are process p's, if `running` is the first to run. */
  function StepsFor(p: Oop, running: Oop, steps: seq<Step>): seq<Op>
    decreases |steps|
  {
    if steps == [] then []
    else
      match steps[0]
      case Own(op) => (if running == p then [op] else []) + StepsFor(p, running, steps[1..])
      case SwitchTo(q) => StepsFor(p, q, steps[1..])
  }

  /** Processes with contexts and senders of their own can be interleaved. */
  lemma SeparateProcesses(machine: C.Machine, suspended: map<Oop, Oop>, running: Oop, chains: map<Oop, set<Oop>>)
    requires SavedIn(machine, suspended, running) && chains.Keys == suspended.Keys
    requires machine.regs.activeContext in chains[running]
    requires forall p | p in suspended && p != running :: suspended[p] in chains[p]
    requires forall p, c | p in chains && c in chains[p] :: Owned(machine.memory, chains[p], c)
    requires forall p, q | p in suspended && q in suspended && p != q :: chains[p] !! chains[q]
    ensures Inv(World(machine, running, suspended, chains))
  {
    var w := World(machine, running, suspended, chains);
    forall p | p in suspended
      ensures Ready(w, p)
    {
      assert p != running ==> Resumable(machine.memory, suspended[p]);
      hide C.InStep;
      LikeAtFirst(MachineOf(w, p), chains[p]);
    }
  }

  lemma LikeAtFirst(m: C.Machine, chain: set<Oop>)
    requires C.InStep(m) && m.regs.activeContext in chain
    requires forall c | c in chain :: Owned(m.memory, chain, c)
    ensures Like(m, m, chain)
  {
    forall c | c in chain
      ensures SameFields(m.memory[c], m.memory[c], c == m.regs.activeContext)
    {
      assert Owned(m.memory, chain, c);
    }
  }

  // ---------- what a process sees of a run ----------

  /** One step: its own goes on as it would by itself, others do not touch it. */
  lemma StepProjected(w: World, step: Step, p: Oop, n: C.Machine)
    requires Inv(w) && Perform(w, step).Some? && p in w.suspended && Ready(w, p)
    requires Like(MachineOf(w, p), n, w.chains[p])
    ensures var v := Perform(w, step).value;
            && p in v.suspended && p in v.chains && (p != v.running ==> C.Loadable(v.machine.memory, v.suspended[p]))
            && if step.Own? && w.running == p
               then Alone(n, step.op).Some? && Like(MachineOf(v, p), Alone(n, step.op).value, v.chains[p])
               else Like(MachineOf(v, p), n, v.chains[p]) && MachineOf(v, p).regs == MachineOf(w, p).regs
                    && v.chains[p] == w.chains[p]
  {
    assert Ready(w, w.running);
    match step
    case Own(op) =>
      if p == w.running {
        OwnStepOfRunning(w, op, n);
      } else {
        OwnStepOfOther(w, op, p, n);
      }
    case SwitchTo(q) =>
      SwitchFor(w, q, p, n);
  }

  /** In any run, however its steps are interleaved with those of other processes, a
      process does what it would do by itself. */
  lemma {:induction false} Projection(w: World, steps: seq<Step>, p: Oop, n: C.Machine)
    requires Inv(w) && Run(w, steps).Some? && p in w.suspended && p in w.chains && Ready(w, p)
    requires C.InStep(n) && Like(MachineOf(w, p), n, w.chains[p])
    ensures RunAlone(n, StepsFor(p, w.running, steps)).Some?
    ensures var v := Run(w, steps).value;
            && p in v.suspended && p in v.chains && Ready(v, p)
            && Like(MachineOf(v, p), RunAlone(n, StepsFor(p, w.running, steps)).value, v.chains[p])
    decreases |steps|
  {
    hide Inv, Like, C.InStep;
    if steps != [] {
      var step, rest := steps[0], steps[1..];
      StepProjected(w, step, p, n);
      StillReady(w, step, p);
      var v := Perform(w, step).value;
      hide Perform, Alone, Ready;
      if step.Own? && w.running == p {
        Projection(v, rest, p, Alone(n, step.op).value);
        FirstStep(n, step.op, StepsFor(p, p, rest));
      } else {
        Projection(v, rest, p, n);
        assert [] + StepsFor(p, w.running, rest) == StepsFor(p, w.running, rest);
      }
    }
  }

  lemma StillReady(w: World, step: Step, p: Oop)
    requires Inv(w) && Perform(w, step).Some? && p in w.suspended
    ensures var v := Perform(w, step).value;
            && p in v.suspended && p in v.chains && Ready(v, p)
            && v.running == (if step.SwitchTo? then step.p else w.running)
            && (step.Own? && w.running == p ==> C.InStep(MachineOf(w, p)))
  {
  }

  lemma FirstStep(n: C.Machine, op: Op, ops: seq<Op>)
    requires C.InStep(n) && Alone(n, op).Some?
    ensures RunAlone(n, [op] + ops) == RunAlone(Alone(n, op).value, ops)
  {
    hide Alone;
    assert ([op] + ops)[1..] == ops;
  }

  /** A process that did no step of its own in a run, whether it was switched out and in
      or not, has the registers it had, and its contexts are as they were but for the
      registers saved in its active one. */
  lemma ResumesWhereItStopped(w: World, steps: seq<Step>, p: Oop)
    requires Inv(w) && Run(w, steps).Some? && p in w.suspended && Ready(w, p)
    requires StepsFor(p, w.running, steps) == []
    ensures var v, before := Run(w, steps).value, MachineOf(w, p);
            && p in v.suspended && p in v.chains && Ready(v, p) && MachineOf(v, p).regs == before.regs
            && forall c | c in w.chains[p] ::
                 && c in v.machine.memory && c in w.machine.memory
                 && SameFields(v.machine.memory[c], w.machine.memory[c], c == before.regs.activeContext)
  {
    Projection(w, steps, p, MachineOf(w, p));
    SameChain(w, steps, p);
  }

  lemma {:induction false} SameChain(w: World, steps: seq<Step>, p: Oop)
    requires Inv(w) && Run(w, steps).Some? && p in w.suspended && StepsFor(p, w.running, steps) == []
    ensures p in w.chains && p in Run(w, steps).value.chains && Run(w, steps).value.chains[p] == w.chains[p]
    decreases |steps|
  {
    if steps != [] {
      SameChain(Perform(w, steps[0]).value, steps[1..], p);
    }
  }

  /** A send gives the caller back its context even if other processes run in between,
      at any time and any number of times: registers, answer and stack are those after
      the call alone. */
  lemma InterruptedCall(w: World, steps: seq<Step>, call: C.Action)
    requires Inv(w) && C.InStep(w.machine) && Run(w, steps).Some? && call.DoCall?
    requires StepsFor(w.running, w.running, steps) == StepsOf(call)
    ensures C.Exec(w.machine, call).Some?
    ensures var v, p, m := Run(w, steps).value, w.running, w.machine;
            var c, sp := m.regs.activeContext, m.regs.stackPointer - call.argumentCount;
            && p in v.suspended && p in v.chains && Ready(v, p)
            && MachineOf(v, p).regs == m.regs.(stackPointer := sp)
            && c in v.machine.memory && c in m.memory && |v.machine.memory[c]| == |m.memory[c]|
            && 0 <= sp < |m.memory[c]|
            && forall i | 0 <= i < |m.memory[c]| && i != C.INSTRUCTION_POINTER_INDEX && i != C.STACK_POINTER_INDEX ::
                 v.machine.memory[c][i] == if i == sp then C.Answered(m, call)
                                           else if sp < i <= m.regs.stackPointer then C.NIL_VALUE else m.memory[c][i]
  {
    var p, m, c := w.running, w.machine, w.machine.regs.activeContext;
    assert Ready(w, p);
    CallIsRun(m, call);
    Projection(w, steps, p, m);
    var v, alone := Run(w, steps).value, C.Exec(m, call).value;
    C.CallGivesBack(m, call);
    hide Run, StepsFor, StepsOf, RunAlone, C.Exec, C.Answered, Inv, Ready, C.InStep;
    assert SameFields(v.machine.memory[c], alone.memory[c], true);
  }

  // ---------- contexts that have returned ----------

  /** A context that has returned, and that no process is in. */
  ghost predicate Gone(w: World, c: Oop) {
    && IsFinished(w.machine.memory, c) && c != w.machine.regs.activeContext
    && forall p | p in w.suspended && p != w.running :: w.suspended[p] != c
  }

  predicate IsFinished(memory: C.Memory, c: Oop) { C.IsContext(memory, c) && C.Finished(memory, c) }

  lemma WorkLeavesFinished(m: C.Machine, a: C.Action, c: Oop)
    requires C.InStep(m) && Alone(m, Work(a)).Some? && IsFinished(m.memory, c) && c != m.regs.activeContext
    ensures var r := Alone(m, Work(a)).value; IsFinished(r.memory, c) && c != r.regs.activeContext
  {
    hide C.Exec;
    WorkIs(m, a);
  }

  lemma SendLeavesFinished(m: C.Machine, op: Op, c: Oop)
    requires C.InStep(m) && op.Send? && Alone(m, op).Some? && IsFinished(m.memory, c) && c != m.regs.activeContext
    ensures IsFinished(Alone(m, op).value.memory, c) && c != Alone(m, op).value.regs.activeContext
  {
    hide Alone, CallerFields, C.NewFields, C.InStep;
    SendIs(m, op);
  }

  lemma AnswerLeavesFinished(m: C.Machine, answer: C.Answer, c: Oop)
    requires C.InStep(m) && C.Return(m, answer).Some? && IsFinished(m.memory, c) && c != m.regs.activeContext
    ensures IsFinished(C.Return(m, answer).value.memory, c) && c != C.Return(m, answer).value.regs.activeContext
  {
    hide C.Return, Value, C.Fetched;
    AnswerIs(m, answer);
  }

  /** Whatever a process does, it does not touch such a context or enter it. */
  lemma StepLeavesFinished(m: C.Machine, op: Op, c: Oop)
    requires C.InStep(m) && Alone(m, op).Some? && IsFinished(m.memory, c) && c != m.regs.activeContext
    ensures IsFinished(Alone(m, op).value.memory, c) && c != Alone(m, op).value.regs.activeContext
  {
    hide IsFinished, C.InStep, C.Exec, C.Return;
    match op
    case Work(a) => WorkLeavesFinished(m, a, c);
    case Send(_, _, _, _) => SendLeavesFinished(m, op, c);
    case Answer(answer) => AnswerLeavesFinished(m, answer, c);
  }

  lemma StaysGone(w: World, step: Step, c: Oop)
    requires Inv(w) && Perform(w, step).Some? && Gone(w, c)
    ensures Gone(Perform(w, step).value, c)
  {
    assert Ready(w, w.running);
    match step
    case Own(op) =>
      StepLeavesFinished(w.machine, op, c);
      hide Alone, Inv, Ready;
    case SwitchTo(p) =>
      hide C.Fetched, Ready;
  }

  lemma {:induction false} GoneForGood(w: World, steps: seq<Step>, c: Oop)
    requires Inv(w) && Run(w, steps).Some? && Gone(w, c)
    ensures Gone(Run(w, steps).value, c)
    decreases |steps|
  {
    if steps != [] {
      StaysGone(w, steps[0], c);
      GoneForGood(Perform(w, steps[0]).value, steps[1..], c);
    }
  }

  /** A return leaves its context that way. */
  lemma AnswerLeavesGone(w: World, answer: C.Answer)
    requires Inv(w) && Perform(w, Own(Answer(answer))).Some?
    ensures Gone(Perform(w, Own(Answer(answer))).value, w.machine.regs.activeContext)
  {
    assert Ready(w, w.running);
    AnswerIs(w.machine, answer);
    hide C.Return, Value, C.Fetched;
    forall p | p in w.suspended && p != w.running
      ensures w.suspended[p] != w.machine.regs.activeContext
    {
      assert Ready(w, p) && w.suspended[p] in w.chains[p];
    }
  }

  /** Once a context has returned, no process ever returns into it again, at whatever
      depth of calls and whichever processes run in between: such a return sends
      cannotReturn: to the active context, with the value. */
  lemma NoReturnToFinished(w: World, answer: C.Answer, steps: seq<Step>, result: C.Value)
    requires Inv(w) && Perform(w, Own(Answer(answer))).Some?
    requires Run(Perform(w, Own(Answer(answer))).value, steps).Some?
    ensures var c, u := w.machine.regs.activeContext, Run(Perform(w, Own(Answer(answer))).value, steps).value;
            && C.InStep(u.machine) && IsFinished(u.machine.memory, c) && c != u.machine.regs.activeContext
            && (u.machine.regs.stackPointer + 2 < |u.machine.memory[u.machine.regs.activeContext]| ==>
                  && C.CanReturn(u.machine, C.Ref(c))
                  && C.Refused(u.machine, result, C.ReturnValue(u.machine, result, C.Ref(c))))
            && forall later | u.machine.memory[u.machine.regs.homeContext][C.SENDER_INDEX] == C.Ref(c) ::
                 Perform(u, Own(Answer(later))).None?
  {
    var c, v := w.machine.regs.activeContext, Perform(w, Own(Answer(answer))).value;
    AnswerLeavesGone(w, answer);
    GoneForGood(v, steps, c);
    var u := Run(v, steps).value;
    assert Ready(u, u.running);
    forall later | u.machine.memory[u.machine.regs.homeContext][C.SENDER_INDEX] == C.Ref(c)
      ensures Perform(u, Own(Answer(later))).None?
    {
      AnswerIs(u.machine, later);
    }
    hide Perform, Run, Inv, Ready, C.InStep, C.Refused, C.CanReturn, C.ReturnValue;
    if u.machine.regs.stackPointer + 2 < |u.machine.memory[u.machine.regs.activeContext]| {
      C.ReturnRefused(u.machine, result, c);
    }
  }
}
