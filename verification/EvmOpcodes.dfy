/** Which opcodes the interpreter provides. */
module EvmOpcodes {
  import opened ByteStrings
  import opened EvmCode
  import opened EvmMemory
  import opened Evm
  import opened EvmInstructions
  import opened EvmCalls

  /** A context at an opcode, with zeros after it and on the stack, that may jump to its start. */
  function Prepared(op: byte): (c: Context)
    ensures At(c, op) && |c.stack| == 17 && forall i :: 0 <= i < |c.stack| ==> c.stack[i] == 0
  {
    Context([op] + Zeros(33), {0}, 0, false, [], seq(17, _ => 0), [], [], Top, false, 0, 0)
  }

  /** Nothing is refused, and there is no code at any address. */
  const ANSWER: Choice := Choice(0, false, [])

  predicate Works(op: byte)
  {
    !Instruction(Prepared(op), ANSWER).Raise?
  }

  lemma LowWorks(op: byte)
    requires Replaces(op) || PushesOnly(op)
    ensures Works(op)
  {
    var c := Prepared(op);
    if Replaces(op) {
      ReplacesMeans(c, ANSWER);
    } else {
      ReadersMean(c, ANSWER);
    }
  }

  lemma StackWorks(op: byte)
    requires PUSH0 <= op <= PUSH32 || op == 0x50 || 0x80 <= op <= 0x9f
    ensures Works(op)
  {
    var c := Prepared(op);
    if op <= PUSH32 && op != 0x50 {
      assert Instruction(c, ANSWER) == DoPush(c);
    } else {
      assert Instruction(c, ANSWER) == DoStack(c, op);
    }
  }

  lemma MemoryWorks(op: byte)
    requires 0x51 <= op <= 0x53 || op == 0x20 || 0xa0 <= op <= 0xa4
    ensures Works(op)
  {
    var c := Prepared(op);
    if op < 0xa0 {
      MemoryMeans(c, op, ANSWER, 0);
    } else {
      LogMeans(c, ANSWER, op - 0xa0);
    }
  }

  lemma InputWorks(op: byte)
    requires op == 0x35 || op == 0x37 || op == 0x39 || op == 0x3c || op == 0x3e
    ensures Works(op)
  {
    var c := Prepared(op);
    if op == 0x35 {
      CallDataLoadMeans(c, ANSWER);
    } else {
      CopyMeans(c, ANSWER);
    }
  }

  lemma JumpWorks(op: byte)
    requires op == 0x56 || op == 0x57 || op == JUMPDEST || op == 0x55
    ensures Works(op)
  {
    StoreOrJump(Prepared(op), op);
  }

  lemma StoreOrJump(c: Context, op: byte)
    requires At(c, op) && (op == 0x56 || op == 0x57 || op == JUMPDEST || op == 0x55) && !c.inStatic && 0 in c.dests
    requires |c.stack| == 17 && forall i :: 0 <= i < |c.stack| ==> c.stack[i] == 0
    ensures !Instruction(c, ANSWER).Raise?
  {
    PopAllIff(c.stack, [true]);
    PopAllIff(c.stack, [true, false]);
    if op == 0x55 {
      StoreMeans(c, ANSWER);
    }
  }

  lemma LeavingWorks(op: byte)
    requires 0xf0 <= op <= 0xf5 || op == 0xfa || op == 0xfe || op == 0xff || op == 0x00
    ensures Works(op)
  {
    var c := Prepared(op);
    if op == CREATE || op == CREATE2 {
      CreateMeans(c, op == CREATE2, ANSWER);
    } else if op == 0xf3 {
      ReturnMeans(c, ANSWER);
    } else if op == 0x00 || op >= 0xfe {
      HaltMeans(c, ANSWER);
    } else {
      CallMeans(c, op, ANSWER);
    }
  }

  /** The interpreter provides exactly the known opcodes: each of them does something in some context, and every other
      byte fails in every context, whatever the outside answers. */
  lemma ProvidesExactly(op: byte)
    ensures Known(op) <==> exists c, ch :: At(c, op) && !Instruction(c, ch).Raise?
  {
    if Known(op) {
      KnownWorks(op);
      var c := Prepared(op);
      assert At(c, op) && !Instruction(c, ANSWER).Raise?;
    } else {
      forall c, ch | At(c, op) ensures Instruction(c, ch).Raise? {
        UnknownFails(c, ch);
      }
    }
  }

  lemma KnownWorks(op: byte)
    requires Known(op)
    ensures Works(op)
  {
    if Replaces(op) || PushesOnly(op) {
      LowWorks(op);
    } else if PUSH0 <= op <= PUSH32 || op == 0x50 || 0x80 <= op <= 0x9f {
      StackWorks(op);
    } else if 0x51 <= op <= 0x53 || op == 0x20 || 0xa0 <= op <= 0xa4 {
      MemoryWorks(op);
    } else if op == 0x35 || op == 0x37 || op == 0x39 || op == 0x3c || op == 0x3e {
      InputWorks(op);
    } else if op == 0x56 || op == 0x57 || op == JUMPDEST || op == 0x55 {
      JumpWorks(op);
    } else {
      LeavingWorks(op);
    }
  }
}
