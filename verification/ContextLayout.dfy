/** Contexts field by field: what a send, a switch of contexts and a return put where, as
    numbers. */
module ContextLayout {
  import opened Basics
  import opened ContextSpec

  /** The parts of a method header. */
  lemma HeaderByNumbers(header: nat)
    ensures TemporaryCount(header) == header / 256 % 32
    ensures LargeContextFlag(header) == header / 128 % 2
    ensures LiteralCount(header) == header / 2 % 64
    ensures ContextSize(header) == if header / 128 % 2 == 1 then 38 else 18
  {
    PowersOfTwo();
  }

  lemma PowersOfTwo()
    ensures Pow2(0) == 1 && Pow2(1) == 2 && Pow2(3) == 8 && Pow2(5) == 32 && Pow2(6) == 64
    ensures Pow2(7) == 128 && Pow2(8) == 256 && Pow2(13) == 8192
  {
    assert Pow2(4) == 16;
    assert Pow2(8) == 2 * Pow2(7);
    assert Pow2(10) == 2 * Pow2(9);
    assert Pow2(12) == 2 * Pow2(11);
  }

  /** The context a send makes active: its size, sender, method, receiver, arguments in
      order, and the registers it starts with, behind the literals and the temporaries. */
  lemma NewContextFields(m: Machine, header: nat, theMethod: Oop, argumentCount: nat, newContext: Oop)
    requires CanActivate(m, header, argumentCount, newContext)
    ensures var r := Activate(m, header, theMethod, argumentCount, newContext);
            var stack, first := m.memory[m.regs.activeContext], m.regs.stackPointer - argumentCount;
            && newContext in r.memory
            && var fields := r.memory[newContext];
               && |fields| == (if header / 128 % 2 == 1 then 38 else 18)
               && fields[0] == Ref(m.regs.activeContext) && fields[3] == Ref(theMethod) && fields[4] == Ref(2)
               && fields[1] == Int(2 * (header / 2 % 64 + 1) + 1) && fields[2] == Int(header / 256 % 32)
               && 0 <= first && first + argumentCount < |stack| && 6 + argumentCount <= |fields|
               && fields[5] == stack[first]
               && (forall i | 6 <= i < 6 + argumentCount :: fields[i] == stack[first + i - 5])
               && (forall i | 6 + argumentCount <= i < |fields| :: fields[i] == Ref(2))
               && r.regs.instructionPointer == 2 * (header / 2 % 64 + 1)
               && r.regs.stackPointer == 5 + header / 256 % 32
  {
    HeaderByNumbers(header);
    hide ExtractBits, Pow2;
  }

  /** The context left keeps its registers in its second and third field. */
  lemma CallerFields(m: Machine, header: nat, theMethod: Oop, argumentCount: nat, newContext: Oop)
    requires CanActivate(m, header, argumentCount, newContext)
    ensures var r, c := Activate(m, header, theMethod, argumentCount, newContext), m.regs.activeContext;
            var first := m.regs.stackPointer - argumentCount;
            && c in r.memory && |r.memory[c]| == |m.memory[c]| && 3 <= |m.memory[c]|
            && r.memory[c][1] == Int(m.regs.instructionPointer + 1) && r.memory[c][2] == Int(first - 6)
            && forall i | 0 <= i < |m.memory[c]| && i != 1 && i != 2 ::
                 r.memory[c][i] == if first <= i <= m.regs.stackPointer then Ref(2) else m.memory[c][i]
  {
    Started(m, header, theMethod, argumentCount, newContext);
    hide Activate;
  }

  /** A number goes into a field exactly if it is a SmallInteger. */
  lemma IntegerField(fields: seq<Value>, index: nat, n: int)
    requires index < |fields|
    ensures |StoreInteger(fields, index, n)| == |fields|
    ensures -16384 <= n <= 16383 ==> StoreInteger(fields, index, n)[index] == Int(n)
    ensures !(-16384 <= n <= 16383) ==> StoreInteger(fields, index, n)[index] == fields[index]
    ensures forall i | 0 <= i < |fields| && i != index :: StoreInteger(fields, index, n)[i] == fields[i]
  {
  }

  /** Storing the registers of the active context: its second and third field. */
  lemma StoredInFields(m: Machine)
    requires InStep(m)
    ensures var c := m.regs.activeContext;
            && c in m.memory && c in Stored(m) && |Stored(m)[c]| == |m.memory[c]| && 3 <= |m.memory[c]|
            && Stored(m)[c][1] == Int(m.regs.instructionPointer + 1)
            && Stored(m)[c][2] == Int(m.regs.stackPointer - 5)
            && (forall i | 0 <= i < |m.memory[c]| && i != 1 && i != 2 :: Stored(m)[c][i] == m.memory[c][i])
            && Stored(m).Keys == m.memory.Keys && forall d | d in m.memory && d != c :: Stored(m)[d] == m.memory[d]
  {
  }

  /** Loading them: a context with a number for its method is a block, whose home is in its
      last header field; method and receiver are the home's. */
  lemma LoadedFromFields(memory: Memory, c: Oop)
    requires c in memory && 6 <= |memory[c]| <= 16384
    requires memory[c][3].Int? ==>
               memory[c][5].Ref? && memory[c][5].oop in memory && 6 <= |memory[memory[c][5].oop]| <= 16384
    ensures Loadable(memory, c)
    ensures var home := if memory[c][3].Int? then memory[c][5].oop else c;
            var ip := if memory[c][1].Int? then memory[c][1].i else 0;
            var sp := if memory[c][2].Int? then memory[c][2].i else 0;
            Fetched(memory, c) == Registers(c, home, memory[home][3], memory[home][5], ip - 1, sp + 5)
  {
  }

  /** A return: the value is the receiver, a constant, or what was on top of the stack; it
      is pushed in the sender of the home context, and the context left loses its sender
      and its instruction pointer. */
  lemma ReturnByFields(m: Machine, answer: Answer)
    requires InStep(m) && Return(m, answer).Some?
    ensures var r, c := Return(m, answer).value, m.regs.activeContext;
            && c in m.memory && m.regs.homeContext in m.memory
            && 6 <= |m.memory[c]| && 6 <= |m.memory[m.regs.homeContext]|
            && m.memory[m.regs.homeContext][0].Ref?
            && var target := m.memory[m.regs.homeContext][0].oop;
               && target in m.memory && target != c && r.regs.activeContext == target && 6 <= |m.memory[target]|
               && var sp := (if m.memory[target][2].Int? then m.memory[target][2].i else 0) + 6;
                  && r.regs.stackPointer == sp && 6 <= sp < |m.memory[target]|
                  && r.regs.instructionPointer == (if m.memory[target][1].Int? then m.memory[target][1].i else 0) - 1
                  && (answer.Top? ==> 6 <= m.regs.stackPointer < |m.memory[c]|)
                  && r.memory.Keys == m.memory.Keys
                  && r.memory[target] == m.memory[target][sp := match answer
                                                                case Self => m.regs.receiver
                                                                case Constant(v) => v
                                                                case Top => m.memory[c][m.regs.stackPointer]]
                  && r.memory[c] == m.memory[c][0 := Ref(2)][1 := Ref(2)]
                  && forall d | d in m.memory && d != c && d != target :: r.memory[d] == m.memory[d]
  {
  }

  /** A return into nil, or into a context without an instruction pointer, is refused: the
      context that is active stays so, with itself and the value on top. Every other return
      makes its target active. */
  lemma ReturnDecides(m: Machine, result: Value, target: Value)
    requires CanReturn(m, target)
    ensures target.Ref? && (target.oop != 2 ==> target.oop in m.memory && 6 <= |m.memory[target.oop]|)
    ensures var c, sp, r := m.regs.activeContext, m.regs.stackPointer, ReturnValue(m, result, target).m;
            if target.oop == 2 || m.memory[target.oop][1] == Ref(2) then
              && ReturnValue(m, result, target).CannotReturn?
              && c in m.memory && 5 <= sp && sp + 2 < |m.memory[c]|
              && r.memory == m.memory[c := m.memory[c][sp + 1 := Ref(c)][sp + 2 := result]]
              && r.regs == m.regs.(stackPointer := sp + 2)
            else
              ReturnValue(m, result, target).Resumed? && r.regs.activeContext == target.oop
  {
    var c, sp := m.regs.activeContext, m.regs.stackPointer;
    if target.oop == 2 || m.memory[target.oop][1] == Ref(2) {
      var once := m.memory[c][sp + 1 := Ref(c)];
      assert m.memory[c := once][c := once[sp + 2 := result]] == m.memory[c := once[sp + 2 := result]];
    }
  }
}
