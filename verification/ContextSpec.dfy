/** Contexts, the registers that cache the active one, sends and returns. */
module ContextSpec {
  import opened Basics

  predicate IsIntegerValue(n: int) { -16384 <= n <= 16383 }

  type SmallInteger = n: int | IsIntegerValue(n)

  /** What a field of an object holds: a SmallInteger or a pointer. */
  datatype Value = Int(i: SmallInteger) | Ref(oop: Oop)

  const NIL_VALUE := Ref(NIL)

  // field indices of contexts
  const SENDER_INDEX := 0
  const INSTRUCTION_POINTER_INDEX := 1
  const STACK_POINTER_INDEX := 2
  const METHOD_INDEX := 3
  const RECEIVER_INDEX := 5
  const TEMP_FRAME_START := 6
  const HOME_INDEX := 5

  type Memory = map<Oop, seq<Value>>

  datatype Registers = Registers(activeContext: Oop, homeContext: Oop, activeMethod: Value, receiver: Value,
                                 instructionPointer: int, stackPointer: int)

  datatype Machine = Machine(memory: Memory, regs: Registers)

  // ---------- method headers ----------

  function Pow2(n: nat): (p: nat)
    ensures 0 < p
  {
    if n == 0 then 1 else 2 * Pow2(n - 1)
  }

  /** Bits first to last of a 16-bit number, bit 0 being the most significant. */
  function ExtractBits(first: nat, last: nat, n: nat): nat
    requires first <= last < 16
  {
    n / Pow2(15 - last) % Pow2(last - first + 1)
  }

  function TemporaryCount(header: nat): nat { ExtractBits(3, 7, header) }
  function LargeContextFlag(header: nat): nat { ExtractBits(8, 8, header) }
  function LiteralCount(header: nat): nat { ExtractBits(9, 14, header) }
  function InitialInstructionPointer(header: nat): nat { (LiteralCount(header) + 1) * 2 + 1 }
  function ContextSize(header: nat): nat { TEMP_FRAME_START + if LargeContextFlag(header) == 1 then 32 else 12 }

  // ---------- loading and storing the registers ----------

  /** `storeInteger:`: a number that is no SmallInteger is not stored. */
  function StoreInteger(fields: seq<Value>, index: nat, n: int): (r: seq<Value>)
    requires index < |fields|
    ensures |r| == |fields|
  {
    if IsIntegerValue(n) then fields[index := Int(n)] else fields
  }

  /** `fetchInteger:`: 0 if the field holds no SmallInteger. */
  function IntegerOf(v: Value): int { if v.Int? then v.i else 0 }

  /** Contexts have 18 or 38 fields; what matters is that there are at least six,
      and that every index is a SmallInteger. */
  predicate IsContext(memory: Memory, c: Oop) { c in memory && TEMP_FRAME_START <= |memory[c]| <= 16384 }

  predicate IsBlockContext(memory: Memory, c: Oop)
    requires IsContext(memory, c)
  {
    memory[c][METHOD_INDEX].Int?
  }

  /** A context whose registers can be loaded: a block's home is a context too. */
  predicate Loadable(memory: Memory, c: Oop) {
    IsContext(memory, c) &&
    (IsBlockContext(memory, c) ==> memory[c][HOME_INDEX].Ref? && IsContext(memory, memory[c][HOME_INDEX].oop))
  }

  function HomeOf(memory: Memory, c: Oop): Oop
    requires Loadable(memory, c)
  {
    if IsBlockContext(memory, c) then memory[c][HOME_INDEX].oop else c
  }

  function Fetched(memory: Memory, c: Oop): Registers
    requires Loadable(memory, c)
  {
    var home := HomeOf(memory, c);
    Registers(c, home, memory[home][METHOD_INDEX], memory[home][RECEIVER_INDEX],
              IntegerOf(memory[c][INSTRUCTION_POINTER_INDEX]) - 1,
              IntegerOf(memory[c][STACK_POINTER_INDEX]) + TEMP_FRAME_START - 1)
  }

  function StoredFields(fields: seq<Value>, ip: int, sp: int): (r: seq<Value>)
    requires TEMP_FRAME_START <= |fields|
    ensures |r| == |fields|
  {
    StoreInteger(StoreInteger(fields, INSTRUCTION_POINTER_INDEX, ip + 1),
                 STACK_POINTER_INDEX, sp - TEMP_FRAME_START + 1)
  }

  /** The memory after the registers are stored back. */
  function Stored(m: Machine): Memory
    requires IsContext(m.memory, m.regs.activeContext)
  {
    var c := m.regs.activeContext;
    m.memory[c := StoredFields(m.memory[c], m.regs.instructionPointer, m.regs.stackPointer)]
  }

  /** Registers that belong to the active context and fit into its fields. */
  predicate InStep(m: Machine) {
    && Loadable(m.memory, m.regs.activeContext)
    && m.regs.homeContext == HomeOf(m.memory, m.regs.activeContext)
    && m.regs.activeMethod == m.memory[m.regs.homeContext][METHOD_INDEX]
    && m.regs.receiver == m.memory[m.regs.homeContext][RECEIVER_INDEX]
    && IsIntegerValue(m.regs.instructionPointer + 1)
    && TEMP_FRAME_START - 1 <= m.regs.stackPointer < |m.memory[m.regs.activeContext]|
  }

  /** Storing the registers and fetching them again loses nothing. */
  lemma StoreThenFetch(m: Machine)
    requires InStep(m)
    ensures Loadable(Stored(m), m.regs.activeContext) && Fetched(Stored(m), m.regs.activeContext) == m.regs
  {
  }

  /** Storing the registers does not touch what any other context will load. */
  lemma StoreElsewhere(m: Machine, c: Oop)
    requires InStep(m) && Loadable(m.memory, c) && c != m.regs.activeContext
    ensures Loadable(Stored(m), c) && Fetched(Stored(m), c) == Fetched(m.memory, c)
  {
  }

  /** `newActiveContext:`. */
  function NewActive(m: Machine, c: Oop): Machine
    requires InStep(m) && Loadable(m.memory, c)
  {
    StoreElsewhereOrHere(m, c);
    Machine(Stored(m), Fetched(Stored(m), c))
  }

  lemma StoreElsewhereOrHere(m: Machine, c: Oop)
    requires InStep(m) && Loadable(m.memory, c)
    ensures Loadable(Stored(m), c)
  {
  }

  // ---------- the stack ----------

  function Push(m: Machine, v: Value): Machine
    requires m.regs.activeContext in m.memory
    requires 0 <= m.regs.stackPointer + 1 < |m.memory[m.regs.activeContext]|
  {
    var c, sp := m.regs.activeContext, m.regs.stackPointer + 1;
    m.(memory := m.memory[c := m.memory[c][sp := v]], regs := m.regs.(stackPointer := sp))
  }

  // ---------- sending ----------

  /** `count` fields from `firstFrom` on, moved: copied ... */
  function CopiedIn(to: seq<Value>, firstTo: int, from: seq<Value>, firstFrom: int, count: int): (r: seq<Value>)
    requires 0 <= count && 0 <= firstTo && firstTo + count <= |to|
    requires 0 <= firstFrom && firstFrom + count <= |from|
    ensures |r| == |to|
    ensures forall i | 0 <= i < |to| ::
              r[i] == if firstTo <= i < firstTo + count then from[firstFrom + i - firstTo] else to[i]
  {
    to[..firstTo] + from[firstFrom..firstFrom + count] + to[firstTo + count..]
  }

  /** ... and replaced by nil where they were. */
  function Vacated(from: seq<Value>, firstFrom: int, count: int): (r: seq<Value>)
    requires 0 <= count && 0 <= firstFrom && firstFrom + count <= |from|
    ensures |r| == |from|
    ensures forall i | 0 <= i < |from| :: r[i] == if firstFrom <= i < firstFrom + count then NIL_VALUE else from[i]
  {
    seq(|from|, i requires 0 <= i < |from| => if firstFrom <= i < firstFrom + count then NIL_VALUE else from[i])
  }

  /** Room for a send: the receiver and the arguments are on the stack, fit into
      the new context, and the new context is a new object. */
  predicate CanActivate(m: Machine, header: nat, argumentCount: nat, newContext: Oop) {
    && InStep(m)
    && newContext !in m.memory && newContext != NIL
    && TEMP_FRAME_START <= m.regs.stackPointer - argumentCount
    && RECEIVER_INDEX + argumentCount + 1 <= ContextSize(header)
    && m.regs.activeContext != NIL
    && TemporaryCount(header) + TEMP_FRAME_START <= ContextSize(header)
  }

  /** The fields of a context just created for a method. */
  function NewFields(header: nat, theMethod: Oop, sender: Oop, stack: seq<Value>, first: int,
                     argumentCount: nat): (r: seq<Value>)
    requires RECEIVER_INDEX + argumentCount + 1 <= ContextSize(header)
    requires 0 <= first && first + argumentCount + 1 <= |stack|
    ensures |r| == ContextSize(header)
  {
    CopiedIn(EmptyFields(header, theMethod, sender), RECEIVER_INDEX, stack, first, argumentCount + 1)
  }

  function EmptyFields(header: nat, theMethod: Oop, sender: Oop): (r: seq<Value>)
    ensures |r| == ContextSize(header)
  {
    var nils := seq(ContextSize(header), i => NIL_VALUE);
    var linked := nils[SENDER_INDEX := Ref(sender)];
    var started := StoreInteger(linked, INSTRUCTION_POINTER_INDEX, InitialInstructionPointer(header));
    var framed := StoreInteger(started, STACK_POINTER_INDEX, TemporaryCount(header));
    framed[METHOD_INDEX := Ref(theMethod)]
  }

  /** `activateNewMethod`. */
  function Activate(m: Machine, header: nat, theMethod: Oop, argumentCount: nat, newContext: Oop): (r: Machine)
    requires CanActivate(m, header, argumentCount, newContext)
    ensures r.regs.activeContext == newContext
  {
    var c, first := m.regs.activeContext, m.regs.stackPointer - argumentCount;
    var fields := m.memory[c];
    var popped := m.regs.(stackPointer := m.regs.stackPointer - argumentCount - 1);
    var memory := m.memory[c := Vacated(fields, first, argumentCount + 1)]
                          [newContext := NewFields(header, theMethod, c, fields, first, argumentCount)];
    ActivateInStep(m, header, theMethod, argumentCount, newContext);
    NewActive(Machine(memory, popped), newContext)
  }

  lemma ActivateInStep(m: Machine, header: nat, theMethod: Oop, argumentCount: nat, newContext: Oop)
    requires CanActivate(m, header, argumentCount, newContext)
    ensures var c, first := m.regs.activeContext, m.regs.stackPointer - argumentCount;
            var popped := m.regs.(stackPointer := m.regs.stackPointer - argumentCount - 1);
            var memory := m.memory[c := Vacated(m.memory[c], first, argumentCount + 1)]
                                  [newContext := NewFields(header, theMethod, c, m.memory[c], first, argumentCount)];
            InStep(Machine(memory, popped)) && Loadable(memory, newContext)
  {
  }

  // ---------- messages that are not understood ----------

  const MESSAGE_SELECTOR_INDEX := 0
  const MESSAGE_ARGUMENTS_INDEX := 1
  const MESSAGE_SIZE := 2

  /** Room for the message: the receiver and the arguments are on the stack, and the
      two objects are new. */
  predicate CanPack(m: Machine, argumentCount: nat, argumentArray: Oop, message: Oop) {
    && InStep(m) && argumentArray !in m.memory && message !in m.memory && argumentArray != message
    && TEMP_FRAME_START <= m.regs.stackPointer - argumentCount
    && m.regs.stackPointer - argumentCount + 1 < |m.memory[m.regs.activeContext]|
  }

  /** The arguments have moved from the stack into the message, in their order, and the
      message is on the stack above the receiver. */
  ghost predicate Packed(m: Machine, selector: Oop, argumentCount: nat, argumentArray: Oop, message: Oop, r: Machine)
    requires CanPack(m, argumentCount, argumentArray, message)
  {
    var c, sp := m.regs.activeContext, m.regs.stackPointer - argumentCount;
    && InStep(r) && r.regs == m.regs.(stackPointer := sp + 1)
    && r.memory.Keys == m.memory.Keys + {argumentArray, message}
    && r.memory[message] == [Ref(selector), Ref(argumentArray)]
    && r.memory[argumentArray] == m.memory[c][sp + 1..m.regs.stackPointer + 1]
    && |r.memory[c]| == |m.memory[c]|
    && (forall i | 0 <= i < |m.memory[c]| ::
          r.memory[c][i] == if i == sp + 1 then Ref(message)
                            else if sp + 1 < i <= m.regs.stackPointer then NIL_VALUE else m.memory[c][i])
    && forall d | d in m.memory && d != c :: r.memory[d] == m.memory[d]
  }

  function Nils(n: nat): (s: seq<Value>)
    ensures |s| == n && forall i | 0 <= i < n :: s[i] == NIL_VALUE
  {
    seq(n, i => NIL_VALUE)
  }

  lemma CanPackFits(m: Machine, argumentCount: nat, argumentArray: Oop, message: Oop)
    requires CanPack(m, argumentCount, argumentArray, message)
    ensures var c, first := m.regs.activeContext, m.regs.stackPointer - argumentCount + 1;
            && c in m.memory && 0 <= first < |m.memory[c]| && first + argumentCount <= |m.memory[c]|
            && argumentArray !in m.memory && message !in m.memory && argumentArray != message
  {
  }

  /** The message and its arguments as the interpreter leaves them. */
  lemma PackedAs(m: Machine, selector: Oop, argumentCount: nat, argumentArray: Oop, message: Oop, r: Machine)
    requires CanPack(m, argumentCount, argumentArray, message)
    requires var c, first := m.regs.activeContext, m.regs.stackPointer - argumentCount + 1;
             var vacated := Vacated(m.memory[c], first, argumentCount);
             && r.regs == m.regs.(stackPointer := first)
             && r.memory == m.memory[argumentArray := Nils(argumentCount)]
                              [message := [Ref(selector), Ref(argumentArray)]]
                              [c := vacated]
                              [argumentArray := CopiedIn(Nils(argumentCount), 0, m.memory[c], first, argumentCount)]
                              [c := vacated[first := Ref(message)]]
    ensures Packed(m, selector, argumentCount, argumentArray, message, r)
  {
  }

  /** The method for doesNotUnderstand: starts with the receiver of the send that was not
      understood and, as its argument, a message with selector and arguments of that send. */
  lemma MessageIsArgument(m: Machine, selector: Oop, argumentCount: nat, argumentArray: Oop, message: Oop, r: Machine,
                          header: nat, theMethod: Oop, newContext: Oop)
    requires CanPack(m, argumentCount, argumentArray, message)
    requires Packed(m, selector, argumentCount, argumentArray, message, r)
    requires CanActivate(r, header, 1, newContext)
    ensures var s, sp := Activate(r, header, theMethod, 1, newContext), m.regs.stackPointer - argumentCount;
            && InStep(s) && !IsBlockContext(s.memory, newContext)
            && s.regs.receiver == m.memory[m.regs.activeContext][sp]
            && s.memory[newContext][6] == Ref(message)
            && s.memory[message] == [Ref(selector), Ref(argumentArray)]
            && s.memory[argumentArray] == m.memory[m.regs.activeContext][sp + 1..sp + 1 + argumentCount]
  {
    ActivatedInStep(r, header, theMethod, 1, newContext);
  }

  // ---------- returning ----------

  /** Where a return ends: in the context returned to, or in a send of
      cannotReturn: with the active context and the value on the stack. */
  datatype Outcome = Resumed(m: Machine) | CannotReturn(m: Machine)

  /** A context that has returned has no instruction pointer any more. */
  predicate Finished(memory: Memory, c: Oop)
    requires IsContext(memory, c)
  {
    memory[c][INSTRUCTION_POINTER_INDEX] == NIL_VALUE
  }

  /** Only a return that is refused needs room in the active context; one that is not
      needs room for the value in the target. */
  predicate CanReturn(m: Machine, target: Value) {
    var c, sp := m.regs.activeContext, m.regs.stackPointer;
    && IsContext(m.memory, c) && TEMP_FRAME_START - 1 <= sp < |m.memory[c]|
    && target.Ref?
    && (target.oop != NIL ==> IsContext(m.memory, target.oop) && target.oop != c)
    && if target.oop == NIL || Finished(m.memory, target.oop) then sp + 2 < |m.memory[c]|
       else Loadable(m.memory, target.oop) &&
            TEMP_FRAME_START <= Fetched(m.memory, target.oop).stackPointer + 1 < |m.memory[target.oop]|
  }

  function NilContextFields(memory: Memory, c: Oop): Memory
    requires IsContext(memory, c)
  {
    memory[c := memory[c][SENDER_INDEX := NIL_VALUE][INSTRUCTION_POINTER_INDEX := NIL_VALUE]]
  }

  /** `returnValue:to:`. */
  function ReturnValue(m: Machine, result: Value, target: Value): Outcome
    requires CanReturn(m, target)
  {
    if target.oop == NIL || Finished(m.memory, target.oop) then
      CannotReturn(Push(Push(m, Ref(m.regs.activeContext)), result))
    else
      var memory := NilContextFields(m.memory, m.regs.activeContext);
      Resumed(Push(Machine(memory, Fetched(memory, target.oop)), result))
  }

  // ---------- runs of well-nested sends and returns ----------

  /** The value a method returns: the receiver, a constant, or the top of its stack. */
  datatype Answer = Self | Constant(v: Value) | Top

  /** What a method does: work on its own stack and temporaries, jump, and call. */
  datatype Action =
    | DoPush(v: Value)
    | DoPop
    | DoStoreTemporary(offset: nat, v: Value)
    | DoJump(distance: int)
    | DoCall(header: nat, theMethod: Oop, argumentCount: nat, newContext: Oop, body: seq<Action>, answer: Answer)

  /** The value answered, popped if it was the top of the stack. */
  function TakeAnswer(m: Machine, answer: Answer): Option<(Value, Machine)>
    requires m.regs.activeContext in m.memory
  {
    match answer
    case Self => Some((m.regs.receiver, m))
    case Constant(v) => Some((v, m))
    case Top =>
      var sp := m.regs.stackPointer;
      if TEMP_FRAME_START <= sp < |m.memory[m.regs.activeContext]|
      then Some((m.memory[m.regs.activeContext][sp], m.(regs := m.regs.(stackPointer := sp - 1))))
      else None
  }

  /** None if an action leaves the frame or the machine has no room for it. */
  function Exec(m: Machine, a: Action): Option<Machine>
    requires InStep(m)
    ensures Exec(m, a).Some? ==> InStep(Exec(m, a).value)
    decreases a, 0
  {
    var c, sp := m.regs.activeContext, m.regs.stackPointer;
    match a
    case DoPush(v) =>
      if sp + 1 < |m.memory[c]| then Some(Push(m, v)) else None
    case DoPop =>
      if TEMP_FRAME_START <= sp
      then Some(m.(regs := m.regs.(stackPointer := sp - 1))) else None
    case DoStoreTemporary(offset, v) =>
      var home := m.regs.homeContext;
      if offset + TEMP_FRAME_START < |m.memory[home]|
      then Some(m.(memory := m.memory[home := m.memory[home][offset + TEMP_FRAME_START := v]])) else None
    case DoJump(distance) =>
      if IsIntegerValue(m.regs.instructionPointer + distance + 1)
      then Some(m.(regs := m.regs.(instructionPointer := m.regs.instructionPointer + distance))) else None
    case DoCall(header, theMethod, argumentCount, newContext, body, answer) =>
      if !CanActivate(m, header, argumentCount, newContext) then None
      else
        ActivatedInStep(m, header, theMethod, argumentCount, newContext);
        var done := ExecAll(Activate(m, header, theMethod, argumentCount, newContext), body);
        if done.None? then None else Return(done.value, answer)
  }

  /** A return bytecode: the answer goes to the sender of the home context. */
  function Return(m: Machine, answer: Answer): Option<Machine>
    requires InStep(m)
    ensures Return(m, answer).Some? ==> InStep(Return(m, answer).value)
  {
    var taken := TakeAnswer(m, answer);
    if taken.None? then None
    else
      var (result, popped) := taken.value;
      var sender := popped.memory[m.regs.homeContext][SENDER_INDEX];
      if !CanReturn(popped, sender) then None
      else
        match ReturnValue(popped, result, sender)
        case Resumed(r) => Some(r)
        case CannotReturn(_) => None
  }

  function ExecAll(m: Machine, actions: seq<Action>): Option<Machine>
    requires InStep(m)
    ensures ExecAll(m, actions).Some? ==> InStep(ExecAll(m, actions).value)
    decreases actions, 1
  {
    if actions == [] then Some(m)
    else
      var first := Exec(m, actions[0]);
      if first.None? then None else ExecAll(first.value, actions[1..])
  }

  lemma ActivatedInStep(m: Machine, header: nat, theMethod: Oop, argumentCount: nat, newContext: Oop)
    requires CanActivate(m, header, argumentCount, newContext)
    ensures InStep(Activate(m, header, theMethod, argumentCount, newContext))
  {
  }

  // ---------- what a run leaves behind ----------

  /** Fields other than the saved registers, below the stack frame. */
  predicate SameHeader(before: seq<Value>, after: seq<Value>)
    requires TEMP_FRAME_START <= |before|
  {
    |after| == |before| &&
    forall i | 0 <= i < TEMP_FRAME_START && i != INSTRUCTION_POINTER_INDEX && i != STACK_POINTER_INDEX ::
      after[i] == before[i]
  }

  /** Contexts created on the way have returned. */
  ghost predicate NewOnesFinished(before: Memory, after: Memory) {
    && before.Keys <= after.Keys
    && forall c | c in after && c !in before :: IsContext(after, c) && Finished(after, c)
  }

  /** Running a method's own actions keeps its context active, its sender, method
      and receiver in place, and every context but its own (and its home) as it was. */
  ghost predicate Kept(m: Machine, r: Machine)
    requires InStep(m) && InStep(r)
  {
    && r.regs.activeContext == m.regs.activeContext && r.regs.homeContext == m.regs.homeContext
    && r.regs.activeMethod == m.regs.activeMethod && r.regs.receiver == m.regs.receiver
    && NewOnesFinished(m.memory, r.memory)
    && (forall c | c in m.memory && c != m.regs.activeContext && c != m.regs.homeContext :: r.memory[c] == m.memory[c])
    && SameHeader(m.memory[m.regs.activeContext], r.memory[m.regs.activeContext])
    && SameHeader(m.memory[m.regs.homeContext], r.memory[m.regs.homeContext])
  }

  /** The value a call answers, in terms of the caller's stack and the callee's run. */
  ghost function Answered(m: Machine, call: Action): Value
    requires InStep(m) && call.DoCall? && Exec(m, call).Some?
  {
    match call.answer
    case Self => m.memory[m.regs.activeContext][m.regs.stackPointer - call.argumentCount]
    case Constant(v) => v
    case Top =>
      ActivatedInStep(m, call.header, call.theMethod, call.argumentCount, call.newContext);
      var done := ExecAll(Activate(m, call.header, call.theMethod, call.argumentCount, call.newContext),
                          call.body).value;
      TakeAnswer(done, Top).value.0
  }

  /** A send and its return give the caller back its context: all registers but
      the stack pointer as they were when it sent, the stack pointer lower by the
      argument count, the answer where the receiver was, everything below it
      unchanged, the argument slots vacated; other contexts are untouched. */
  ghost predicate GivenBack(m: Machine, call: Action, r: Machine)
    requires InStep(m) && call.DoCall? && Exec(m, call).Some?
  {
    ComesBack(m, call.argumentCount, call.newContext, Answered(m, call), r)
  }

  ghost predicate ComesBack(m: Machine, argumentCount: nat, newContext: Oop, answer: Value, r: Machine)
    requires InStep(m)
  {
    var c, sp := m.regs.activeContext, m.regs.stackPointer - argumentCount;
    && r.regs == m.regs.(stackPointer := sp)
    && NewOnesFinished(m.memory, r.memory) && newContext in r.memory
    && (forall d | d in m.memory && d != c :: r.memory[d] == m.memory[d])
    && c in m.memory && c in r.memory && |r.memory[c]| == |m.memory[c]|
    && 0 <= sp <= m.regs.stackPointer < |m.memory[c]|
    && (forall i | 0 <= i < |m.memory[c]| && i != INSTRUCTION_POINTER_INDEX && i != STACK_POINTER_INDEX ::
          r.memory[c][i] == if i == sp then answer
                            else if sp < i <= m.regs.stackPointer then NIL_VALUE else m.memory[c][i])
  }

  lemma {:induction false} CallGivesBack(m: Machine, call: Action)
    requires InStep(m) && call.DoCall? && Exec(m, call).Some?
    ensures GivenBack(m, call, Exec(m, call).value)
    decreases call, 0
  {
    ActivatedInStep(m, call.header, call.theMethod, call.argumentCount, call.newContext);
    var started := Activate(m, call.header, call.theMethod, call.argumentCount, call.newContext);
    RunKeeps(started, call.body);
    var done := ExecAll(started, call.body).value;
    ReturnAfterRun(m, call, started, done);
  }

  /** What a send leaves in memory: the caller suspended, its receiver and
      arguments moved into the new context. */
  lemma Started(m: Machine, header: nat, theMethod: Oop, argumentCount: nat, newContext: Oop)
    requires CanActivate(m, header, argumentCount, newContext)
    ensures var r := Activate(m, header, theMethod, argumentCount, newContext);
            var c, first := m.regs.activeContext, m.regs.stackPointer - argumentCount;
            && InStep(r) && r.regs.activeContext == newContext == r.regs.homeContext
            && r.regs.receiver == m.memory[c][first] && r.regs.activeMethod == Ref(theMethod)
            && r.memory[newContext][SENDER_INDEX] == Ref(c)
            && r.memory.Keys == m.memory.Keys + {newContext}
            && (forall d | d in m.memory && d != c :: r.memory[d] == m.memory[d])
            && r.memory[c] == StoredFields(Vacated(m.memory[c], first, argumentCount + 1), m.regs.instructionPointer,
                                           first - 1)
  {
  }

  /** The registers a suspended caller comes back with. */
  lemma Suspended(m: Machine, argumentCount: nat, done: Memory)
    requires InStep(m) && TEMP_FRAME_START <= m.regs.stackPointer - argumentCount
    requires var c, first := m.regs.activeContext, m.regs.stackPointer - argumentCount;
             && c in done
             && done[c] == StoredFields(Vacated(m.memory[c], first, argumentCount + 1), m.regs.instructionPointer,
                                        first - 1)
    requires m.regs.homeContext != m.regs.activeContext ==>
               m.regs.homeContext in done && done[m.regs.homeContext] == m.memory[m.regs.homeContext]
    ensures var c := m.regs.activeContext;
            && Loadable(done, c) && !Finished(done, c)
            && Fetched(done, c) == m.regs.(stackPointer := m.regs.stackPointer - argumentCount - 1)
  {
  }

  /** A return to a suspended caller, from a context that is its own home. */
  lemma Returned(done: Machine, answer: Answer, c: Oop)
    requires InStep(done) && Return(done, answer).Some?
    requires done.regs.homeContext == done.regs.activeContext
    requires done.memory[done.regs.activeContext][SENDER_INDEX] == Ref(c)
    requires c != done.regs.activeContext && Loadable(done.memory, c) && !Finished(done.memory, c)
    requires c != NIL
    ensures TakeAnswer(done, answer).Some?
    ensures var r, nc := Return(done, answer).value, done.regs.activeContext;
            var back := Fetched(done.memory, c);
            && 0 <= back.stackPointer + 1 < |done.memory[c]|
            && r.regs == back.(stackPointer := back.stackPointer + 1)
            && nc in r.memory && Finished(NilContextFields(done.memory, nc), nc)
            && r.memory == NilContextFields(done.memory, nc)
                             [c := done.memory[c][back.stackPointer + 1 := TakeAnswer(done, answer).value.0]]
  {
    StillLoadable(done.memory, done.regs.activeContext, c);
  }

  lemma StillLoadable(memory: Memory, nc: Oop, c: Oop)
    requires IsContext(memory, nc) && Loadable(memory, c) && c != nc
    ensures Loadable(NilContextFields(memory, nc), c)
    ensures Fetched(NilContextFields(memory, nc), c) == Fetched(memory, c)
  {
  }

  /** Memory when the callee is about to return: the caller is suspended, all
      else is as before the send but for contexts that have finished. */
  ghost predicate BeforeReturn(m: Machine, argumentCount: nat, newContext: Oop, done: Machine)
    requires InStep(m) && TEMP_FRAME_START <= m.regs.stackPointer - argumentCount
  {
    var c, first := m.regs.activeContext, m.regs.stackPointer - argumentCount;
    && InStep(done) && done.regs.activeContext == newContext == done.regs.homeContext
    && newContext !in m.memory && newContext in done.memory
    && done.memory[newContext][SENDER_INDEX] == Ref(c)
    && m.memory.Keys <= done.memory.Keys
    && done.memory[c] == StoredFields(Vacated(m.memory[c], first, argumentCount + 1), m.regs.instructionPointer,
                                      first - 1)
    && (forall d | d in m.memory && d != c :: done.memory[d] == m.memory[d])
    && (forall d | d in done.memory && d !in m.memory && d != newContext ::
          IsContext(done.memory, d) && Finished(done.memory, d))
  }

  lemma RunIsBeforeReturn(m: Machine, call: Action, started: Machine, done: Machine)
    requires InStep(m) && call.DoCall?
    requires CanActivate(m, call.header, call.argumentCount, call.newContext) && InStep(started) && InStep(done)
    requires started == Activate(m, call.header, call.theMethod, call.argumentCount, call.newContext)
    requires Kept(started, done)
    ensures BeforeReturn(m, call.argumentCount, call.newContext, done)
  {
    Started(m, call.header, call.theMethod, call.argumentCount, call.newContext);
    hide Activate, StoredFields, Vacated;
  }

  lemma ReturnGivesBack(m: Machine, argumentCount: nat, newContext: Oop, done: Machine, answer: Answer)
    requires InStep(m) && TEMP_FRAME_START <= m.regs.stackPointer - argumentCount && m.regs.activeContext != NIL
    requires BeforeReturn(m, argumentCount, newContext, done) && Return(done, answer).Some?
    ensures var r, c, sp := Return(done, answer).value, m.regs.activeContext, m.regs.stackPointer - argumentCount;
            && TakeAnswer(done, answer).Some?
            && r.regs == m.regs.(stackPointer := sp)
            && 0 <= sp < |done.memory[c]|
            && r.memory == NilContextFields(done.memory, newContext)
                             [c := done.memory[c][sp := TakeAnswer(done, answer).value.0]]
  {
    Suspended(m, argumentCount, done.memory);
    hide StoredFields, Vacated;
    Returned(done, answer, m.regs.activeContext);
  }

  lemma ExecIsReturn(m: Machine, call: Action, started: Machine, done: Machine)
    requires InStep(m) && call.DoCall? && InStep(started) && InStep(done)
    requires CanActivate(m, call.header, call.argumentCount, call.newContext)
    requires started == Activate(m, call.header, call.theMethod, call.argumentCount, call.newContext)
    requires ExecAll(started, call.body) == Some(done)
    ensures Exec(m, call) == Return(done, call.answer)
  {
    hide InStep, CanActivate, Activate, Return;
  }

  lemma ReturnAfterRun(m: Machine, call: Action, started: Machine, done: Machine)
    requires InStep(m) && call.DoCall? && Exec(m, call).Some?
    requires CanActivate(m, call.header, call.argumentCount, call.newContext) && InStep(started) && InStep(done)
    requires started == Activate(m, call.header, call.theMethod, call.argumentCount, call.newContext)
    requires ExecAll(started, call.body) == Some(done)
    requires Kept(started, done)
    ensures GivenBack(m, call, Exec(m, call).value)
  {
    hide Exec, ExecAll, Return, TakeAnswer, BeforeReturn, ComesBack, Answered, InStep, NilContextFields, Kept;
    ActivatedFacts(m, call);
    ExecIsReturn(m, call, started, done);
    RunIsBeforeReturn(m, call, started, done);
    ReturnGivesBack(m, call.argumentCount, call.newContext, done, call.answer);
    AnswerIs(m, call, done);
    hide CanActivate;
    MemoryComesBack(m, call.argumentCount, call.newContext, done, Answered(m, call), Exec(m, call).value);
  }

  lemma ActivatedFacts(m: Machine, call: Action)
    requires call.DoCall? && CanActivate(m, call.header, call.argumentCount, call.newContext)
    ensures InStep(m) && m.regs.activeContext != NIL && TEMP_FRAME_START <= m.regs.stackPointer - call.argumentCount
  {
  }

  lemma MemoryComesBack(m: Machine, argumentCount: nat, newContext: Oop, done: Machine, answer: Value, r: Machine)
    requires InStep(m) && TEMP_FRAME_START <= m.regs.stackPointer - argumentCount
    requires BeforeReturn(m, argumentCount, newContext, done)
    requires var c, sp := m.regs.activeContext, m.regs.stackPointer - argumentCount;
             && 0 <= sp < |done.memory[c]| && r.regs == m.regs.(stackPointer := sp)
             && r.memory == NilContextFields(done.memory, newContext)[c := done.memory[c][sp := answer]]
    ensures ComesBack(m, argumentCount, newContext, answer, r)
  {
    CallerSlots(m, argumentCount, done.memory[m.regs.activeContext], answer);
    hide StoredFields, Vacated;
  }

  /** The caller's fields once the answer is pushed. */
  lemma CallerSlots(m: Machine, argumentCount: nat, suspended: seq<Value>, answer: Value)
    requires InStep(m) && TEMP_FRAME_START <= m.regs.stackPointer - argumentCount
    requires var c, sp := m.regs.activeContext, m.regs.stackPointer - argumentCount;
             suspended == StoredFields(Vacated(m.memory[c], sp, argumentCount + 1), m.regs.instructionPointer, sp - 1)
    ensures var c, sp := m.regs.activeContext, m.regs.stackPointer - argumentCount;
            && |suspended| == |m.memory[c]| && 0 <= sp < |suspended|
            && forall i | 0 <= i < |m.memory[c]| && i != INSTRUCTION_POINTER_INDEX && i != STACK_POINTER_INDEX ::
                 suspended[sp := answer][i] == if i == sp then answer
                                               else if sp < i <= m.regs.stackPointer then NIL_VALUE else m.memory[c][i]
  {
  }

  lemma AnswerIs(m: Machine, call: Action, done: Machine)
    requires InStep(m) && call.DoCall? && Exec(m, call).Some?
    requires CanActivate(m, call.header, call.argumentCount, call.newContext)
    requires InStep(Activate(m, call.header, call.theMethod, call.argumentCount, call.newContext))
    requires ExecAll(Activate(m, call.header, call.theMethod, call.argumentCount, call.newContext), call.body)
             == Some(done)
    requires InStep(done) && Kept(Activate(m, call.header, call.theMethod, call.argumentCount, call.newContext), done)
    requires TakeAnswer(done, call.answer).Some?
    ensures TakeAnswer(done, call.answer).value.0 == Answered(m, call)
  {
    Started(m, call.header, call.theMethod, call.argumentCount, call.newContext);
    hide Activate, ExecAll, Exec;
  }

  lemma {:induction false} RunKeeps(m: Machine, actions: seq<Action>)
    requires InStep(m) && ExecAll(m, actions).Some?
    ensures Kept(m, ExecAll(m, actions).value)
    decreases actions, 1
  {
    if actions != [] {
      StepKeeps(m, actions[0]);
      var next := Exec(m, actions[0]).value;
      RunKeeps(next, actions[1..]);
      KeptTwice(m, next, ExecAll(next, actions[1..]).value);
    }
  }

  lemma {:induction false} StepKeeps(m: Machine, a: Action)
    requires InStep(m) && Exec(m, a).Some?
    ensures Kept(m, Exec(m, a).value)
    decreases a, 1
  {
    if a.DoCall? {
      CallGivesBack(m, a);
    }
  }

  lemma KeptTwice(m: Machine, n: Machine, r: Machine)
    requires InStep(m) && InStep(n) && InStep(r) && Kept(m, n) && Kept(n, r)
    ensures Kept(m, r)
  {
  }

  /** Once a call is over, no context it ran in can be returned to any more: whatever
      the caller does next, a return into one of them sends cannotReturn: to the active
      context, with the value. */
  lemma ReturnToFinished(m: Machine, call: Action, actions: seq<Action>, result: Value, d: Oop)
    requires InStep(m) && call.DoCall? && Exec(m, call).Some?
    requires ExecAll(Exec(m, call).value, actions).Some?
    requires d in Exec(m, call).value.memory && d !in m.memory
    requires var s := ExecAll(Exec(m, call).value, actions).value;
             s.regs.stackPointer + 2 < |s.memory[s.regs.activeContext]|
    ensures call.newContext in Exec(m, call).value.memory && call.newContext !in m.memory
    ensures var s := ExecAll(Exec(m, call).value, actions).value;
            CanReturn(s, Ref(d)) && Refused(s, result, ReturnValue(s, result, Ref(d)))
  {
    var r := Exec(m, call).value;
    CallGivesBack(m, call);
    RunKeeps(r, actions);
    hide Exec, ExecAll, Refused;
    var s := ExecAll(r, actions).value;
    FinishedMeanwhile(m, r, s, d);
    ReturnRefused(s, result, d);
  }

  /** The return failed: the active context and the value are pushed, for cannotReturn:,
      and nothing else of that context's stack has changed. */
  ghost predicate Refused(s: Machine, result: Value, outcome: Outcome)
    requires InStep(s)
  {
    var c, sp, r := s.regs.activeContext, s.regs.stackPointer, outcome.m;
    && outcome.CannotReturn? && r.regs == s.regs.(stackPointer := sp + 2)
    && r.memory.Keys == s.memory.Keys && |r.memory[c]| == |s.memory[c]| && sp + 2 < |r.memory[c]|
    && r.memory[c][sp + 1] == Ref(c) && r.memory[c][sp + 2] == result
    && (forall i | 0 <= i <= sp :: r.memory[c][i] == s.memory[c][i])
    && forall e | e in s.memory && e != c :: r.memory[e] == s.memory[e]
  }

  lemma ReturnRefused(s: Machine, result: Value, d: Oop)
    requires InStep(s) && IsContext(s.memory, d) && Finished(s.memory, d) && d != s.regs.activeContext
    requires s.regs.stackPointer + 2 < |s.memory[s.regs.activeContext]|
    ensures CanReturn(s, Ref(d)) && Refused(s, result, ReturnValue(s, result, Ref(d)))
  {
  }

  lemma FinishedMeanwhile(m: Machine, r: Machine, s: Machine, d: Oop)
    requires InStep(m) && InStep(r) && InStep(s) && NewOnesFinished(m.memory, r.memory) && Kept(r, s)
    requires d in r.memory && d !in m.memory
    requires r.regs.activeContext == m.regs.activeContext && r.regs.homeContext == m.regs.homeContext
    ensures d in s.memory && s.memory[d] == r.memory[d] && IsContext(s.memory, d) && Finished(s.memory, d)
    ensures d != s.regs.activeContext
  {
  }
}
