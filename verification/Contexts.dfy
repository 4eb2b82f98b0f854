/** The interpreter's context registers and the routines that change them. */
module Contexts {
  import opened Basics
  import opened ContextSpec

  class ContextRegisters {
    /** Object memory, as far as contexts go. */
    var memory: Memory

    // registers
    var activeContext: Oop
    var homeContext: Oop
    var activeMethod: Value
    var receiver: Value
    var instructionPointer: int
    var stackPointer: int

    constructor (memory: Memory, firstContext: Oop)
      requires Loadable(memory, firstContext)
      ensures State() == Machine(memory, Fetched(memory, firstContext))
    {
      this.memory := memory;
      var home := HomeOf(memory, firstContext);
      activeContext, homeContext := firstContext, home;
      activeMethod, receiver := memory[home][METHOD_INDEX], memory[home][RECEIVER_INDEX];
      instructionPointer := IntegerOf(memory[firstContext][INSTRUCTION_POINTER_INDEX]) - 1;
      stackPointer := IntegerOf(memory[firstContext][STACK_POINTER_INDEX]) + TEMP_FRAME_START - 1;
    }

    ghost function State(): Machine
      reads this
    {
      Machine(memory, Registers(activeContext, homeContext, activeMethod, receiver, instructionPointer, stackPointer))
    }

    method StorePointer(index: int, oop: Oop, v: Value)
      requires oop in memory && 0 <= index < |memory[oop]|
      modifies this`memory
      ensures memory == old(memory)[oop := old(memory)[oop][index := v]]
    {
      memory := memory[oop := memory[oop][index := v]];
    }

    /** Out of range numbers are not stored. */
    method StoreIntegerField(index: int, oop: Oop, n: int)
      requires oop in memory && 0 <= index < |memory[oop]|
      modifies this`memory
      ensures memory == old(memory)[oop := StoreInteger(old(memory)[oop], index, n)]
    {
      if IsIntegerValue(n) {
        StorePointer(index, oop, Int(n));
      } else {
        assert memory == memory[oop := memory[oop]];
      }
    }

    method StoreContextRegisters()
      requires IsContext(memory, activeContext)
      modifies this`memory
      ensures memory == Stored(old(State()))
    {
      StoreIntegerField(INSTRUCTION_POINTER_INDEX, activeContext, instructionPointer + 1);
      StoreIntegerField(STACK_POINTER_INDEX, activeContext, stackPointer - TEMP_FRAME_START + 1);
    }

    method FetchContextRegisters()
      requires Loadable(memory, activeContext)
      modifies this`homeContext, this`activeMethod, this`receiver, this`instructionPointer, this`stackPointer
      ensures State() == Machine(old(memory), Fetched(old(memory), old(activeContext)))
    {
      if IsBlockContext(memory, activeContext) {
        homeContext := memory[activeContext][HOME_INDEX].oop;
      } else {
        homeContext := activeContext;
      }
      receiver := memory[homeContext][RECEIVER_INDEX];
      activeMethod := memory[homeContext][METHOD_INDEX];
      instructionPointer := IntegerOf(memory[activeContext][INSTRUCTION_POINTER_INDEX]) - 1;
      stackPointer := IntegerOf(memory[activeContext][STACK_POINTER_INDEX]) + TEMP_FRAME_START - 1;
    }

    method NewActiveContext(aContext: Oop)
      requires InStep(State()) && Loadable(memory, aContext)
      modifies this
      ensures State() == NewActive(old(State()), aContext)
    {
      StoreElsewhereOrHere(State(), aContext);
      StoreContextRegisters();
      activeContext := aContext;
      FetchContextRegisters();
    }

    method PushValue(v: Value)
      requires activeContext in memory && 0 <= stackPointer + 1 < |memory[activeContext]|
      modifies this`stackPointer, this`memory
      ensures State() == Push(old(State()), v)
    {
      stackPointer := stackPointer + 1;
      StorePointer(stackPointer, activeContext, v);
    }

    function StackTop(): Value
      requires activeContext in memory && 0 <= stackPointer < |memory[activeContext]|
      reads this`activeContext, this`stackPointer, this`memory
    {
      memory[activeContext][stackPointer]
    }

    method PopStack() returns (v: Value)
      requires activeContext in memory && 0 <= stackPointer < |memory[activeContext]|
      modifies this`stackPointer
      ensures v == old(StackTop()) && stackPointer == old(stackPointer) - 1
    {
      v := StackTop();
      stackPointer := stackPointer - 1;
    }

    /** Moves `count` fields from one object to another, leaving nil behind. */
    method Transfer(count: int, firstFrom: int, fromOop: Oop, firstTo: int, toOop: Oop)
      requires fromOop in memory && toOop in memory && fromOop != toOop
      requires 0 <= count && 0 <= firstFrom && firstFrom + count <= |memory[fromOop]|
      requires 0 <= firstTo && firstTo + count <= |memory[toOop]|
      modifies this`memory
      ensures memory == old(memory)[fromOop := Vacated(old(memory)[fromOop], firstFrom, count)]
                                   [toOop := CopiedIn(old(memory)[toOop], firstTo, old(memory)[fromOop],
                                                       firstFrom, count)]
    {
      ghost var from, to := memory[fromOop], memory[toOop];
      var fromIndex := firstFrom;
      var lastFrom := firstFrom + count;
      var toIndex := firstTo;
      assert memory == memory[fromOop := Vacated(from, firstFrom, 0)]
                             [toOop := CopiedIn(to, firstTo, from, firstFrom, 0)] by {
        assert Vacated(from, firstFrom, 0) == from;
        assert CopiedIn(to, firstTo, from, firstFrom, 0) == to;
      }
      while fromIndex < lastFrom
        invariant firstFrom <= fromIndex <= lastFrom && toIndex == firstTo + (fromIndex - firstFrom)
        invariant memory == old(memory)[fromOop := Vacated(from, firstFrom, fromIndex - firstFrom)]
                                       [toOop := CopiedIn(to, firstTo, from, firstFrom, fromIndex - firstFrom)]
      {
        ghost var n := fromIndex - firstFrom;
        assert Vacated(from, firstFrom, n)[fromIndex := NIL_VALUE] == Vacated(from, firstFrom, n + 1);
        assert CopiedIn(to, firstTo, from, firstFrom, n)[toIndex := from[fromIndex]]
               == CopiedIn(to, firstTo, from, firstFrom, n + 1);
        var oop := memory[fromOop][fromIndex];
        StorePointer(toIndex, toOop, oop);
        StorePointer(fromIndex, fromOop, NIL_VALUE);
        fromIndex := fromIndex + 1;
        toIndex := toIndex + 1;
      }
    }

    /** `newContext` is the object the memory allocates for the context. */
    method CreateContext(header: nat, newMethod: Oop, newContext: Oop)
      requires newContext !in memory
      modifies this`memory
      ensures memory == old(memory)[newContext := EmptyFields(header, newMethod, activeContext)]
    {
      var contextSize := if LargeContextFlag(header) == 1 then 32 + TEMP_FRAME_START else 12 + TEMP_FRAME_START;
      memory := memory[newContext := seq(contextSize, i => NIL_VALUE)];
      StorePointer(SENDER_INDEX, newContext, Ref(activeContext));
      StoreIntegerField(INSTRUCTION_POINTER_INDEX, newContext, InitialInstructionPointer(header));
      StoreIntegerField(STACK_POINTER_INDEX, newContext, TemporaryCount(header));
      StorePointer(METHOD_INDEX, newContext, Ref(newMethod));
    }

    method ActivateNewMethod(header: nat, newMethod: Oop, argumentCount: nat, newContext: Oop)
      requires CanActivate(State(), header, argumentCount, newContext)
      modifies this
      ensures State() == Activate(old(State()), header, newMethod, argumentCount, newContext)
    {
      hide EmptyFields, NewActive;
      ActivateInStep(State(), header, newMethod, argumentCount, newContext);
      CreateContext(header, newMethod, newContext);
      Transfer(argumentCount + 1, stackPointer - argumentCount, activeContext, RECEIVER_INDEX, newContext);
      stackPointer := stackPointer - (argumentCount + 1);
      assert memory == old(memory)[activeContext := memory[activeContext]][newContext := memory[newContext]];
      NewActiveContext(newContext);
    }

    /** A message whose arguments are still missing. */
    method CreateMessage(selector: Oop, argumentCount: nat, argumentArray: Oop, message: Oop)
      requires argumentArray !in memory && message !in memory && argumentArray != message
      modifies this`memory
      ensures memory == old(memory)[argumentArray := Nils(argumentCount)]
                                   [message := [Ref(selector), Ref(argumentArray)]]
    {
      memory := memory[argumentArray := Nils(argumentCount)];
      ghost var before := memory;
      memory := memory[message := Nils(MESSAGE_SIZE)];
      StorePointer(MESSAGE_SELECTOR_INDEX, message, Ref(selector));
      StorePointer(MESSAGE_ARGUMENTS_INDEX, message, Ref(argumentArray));
      assert memory[message] == [Ref(selector), Ref(argumentArray)];
      assert memory == before[message := memory[message]];
    }

    /** Packs a message that is not understood; the two objects are those the memory
        allocates. */
    method CreateActualMessage(selector: Oop, argumentCount: nat, argumentArray: Oop, message: Oop)
      requires CanPack(State(), argumentCount, argumentArray, message)
      modifies this`memory, this`stackPointer
      ensures Packed(old(State()), selector, argumentCount, argumentArray, message, State())
    {
      hide Packed, CopiedIn, Vacated, Nils;
      CanPackFits(State(), argumentCount, argumentArray, message);
      hide CanPack;
      ghost var was := State();
      CreateMessage(selector, argumentCount, argumentArray, message);
      Transfer(argumentCount, stackPointer - (argumentCount - 1), activeContext, 0, argumentArray);
      stackPointer := stackPointer - argumentCount;
      PushValue(Ref(message));
      PackedAs(was, selector, argumentCount, argumentArray, message, State());
    }

    /** A method must not be left with its context still resumable. */
    method ReturnToActiveContext(aContext: Oop)
      requires IsContext(memory, activeContext) && Loadable(memory, aContext)
      modifies this
      ensures Loadable(NilContextFields(old(memory), old(activeContext)), aContext)
      ensures var nilled := NilContextFields(old(memory), old(activeContext));
              State() == Machine(nilled, Fetched(nilled, aContext))
    {
      StorePointer(SENDER_INDEX, activeContext, NIL_VALUE);
      StorePointer(INSTRUCTION_POINTER_INDEX, activeContext, NIL_VALUE);
      activeContext := aContext;
      FetchContextRegisters();
    }

    /** Returns whether the value could be returned; otherwise cannotReturn: is to
        be sent, with one argument, to what is now on the stack. */
    method ReturnValueTo(result: Value, contextPointer: Value) returns (returned: bool)
      requires CanReturn(State(), contextPointer)
      modifies this
      ensures ReturnValue(old(State()), result, contextPointer) ==
                if returned then Resumed(State()) else CannotReturn(State())
    {
      if contextPointer.oop == NIL {
        PushValue(Ref(activeContext));
        PushValue(result);
        return false;
      }
      var sendersIP := memory[contextPointer.oop][INSTRUCTION_POINTER_INDEX];
      if sendersIP == NIL_VALUE {
        PushValue(Ref(activeContext));
        PushValue(result);
        return false;
      }
      ReturnToActiveContext(contextPointer.oop);
      PushValue(result);
      return true;
    }
  }
}
