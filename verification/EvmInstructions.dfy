/** What single instructions do to the counter, the stack, the memory and the contexts, told by position. */
module EvmInstructions {
  import opened ByteStrings
  import opened EvmCode
  import opened EvmMemory
  import opened Evm
  import opened EvmRuns

  predicate At(c: Context, op: byte)
  {
    c.pc < |c.code| && c.code[c.pc] == op
  }

  /** The first n words can be taken for 64-bit numbers from position `from` on. */
  predicate Narrow(s: seq<nat>, from: nat, n: nat)
  {
    n <= |s| && forall i :: from <= i < n ==> s[i] < TWO64
  }

  // ---------------------------------------------------------------------------------------------- jumps and pushes

  const JUMP: byte := 0x56
  const JUMPI: byte := 0x57

  lemma JumpEffect(c: Context, ch: Choice)
    requires At(c, JUMP) && AtStart(c)
    ensures var target := if c.stack == [] then |c.code| else c.stack[0];
            Instruction(c, ch) == if target < TWO64 && IsJumpDest(c.code, target)
                                  then Goto(c.(stack := c.stack[1..]), target) else Raise
  {
    PopAllIff(c.stack, [true]);
    assert Instruction(c, ch) == DoJump(c, JUMP);
  }

  /** JUMP puts the counter on the word on top exactly when that is a jump destination of the code; otherwise it
      fails. */
  lemma JumpMeans(cs: seq<Context>, ch: Choice)
    requires Head(cs) && At(cs[|cs| - 1], JUMP)
    ensures var c, k := cs[|cs| - 1], |cs| - 1;
            if |c.stack| >= 1 && c.stack[0] < TWO64 && IsJumpDest(c.code, c.stack[0])
            then NextState(Continue(cs), ch) ==
                 Continue(cs[k := c.(pc := c.stack[0], pcChanged := false, stack := c.stack[1..])])
            else Instruction(c, ch).Raise?
  {
    JumpEffect(cs[|cs| - 1], ch);
    if Instruction(cs[|cs| - 1], ch).Goto? {
      GotoMoves(cs, ch);
    }
  }

  lemma JumpiEffect(c: Context, ch: Choice)
    requires At(c, JUMPI) && AtStart(c)
    ensures if |c.stack| < 2 || c.stack[0] >= TWO64 then Instruction(c, ch).Raise?
            else if c.stack[1] == 0 then Instruction(c, ch) == Stay(c.(stack := c.stack[2..]))
            else if IsJumpDest(c.code, c.stack[0]) then
              Instruction(c, ch) == Goto(c.(stack := c.stack[2..]), c.stack[0])
            else Instruction(c, ch).Raise?
  {
    PopAllIff(c.stack, [true, false]);
    assert Instruction(c, ch) == DoJump(c, JUMPI);
  }

  /** JUMPI goes on exactly when the condition, the second word, is zero; otherwise it jumps like JUMP, or fails. */
  lemma JumpiMeans(cs: seq<Context>, ch: Choice)
    requires Head(cs) && At(cs[|cs| - 1], JUMPI)
    ensures var c, k, p := cs[|cs| - 1], |cs| - 1, NextState(Continue(cs), ch);
            if |c.stack| < 2 || c.stack[0] >= TWO64 then Instruction(c, ch).Raise?
            else if c.stack[1] == 0 then p == Continue(cs[k := StepContext(c.(stack := c.stack[2..]))])
            else if IsJumpDest(c.code, c.stack[0]) then
              p == Continue(cs[k := c.(pc := c.stack[0], pcChanged := false, stack := c.stack[2..])])
            else Instruction(c, ch).Raise?
  {
    JumpiEffect(cs[|cs| - 1], ch);
    if Instruction(cs[|cs| - 1], ch).Goto? {
      GotoMoves(cs, ch);
    } else if Instruction(cs[|cs| - 1], ch).Stay? {
      StayAdvances(cs, ch);
    }
  }

  /** The word on top of d's stack has these bytes, the rest of the stack is c's. */
  predicate PushedBytes(c: Context, d: Context, bytes: seq<byte>)
  {
    d.stack != [] && d.stack[1..] == c.stack && d.stack[0] < Pow256(|bytes|) && Fixed(d.stack[0], |bytes|) == bytes
  }

  lemma PushedBe(c: Context, bytes: seq<byte>)
    ensures PushedBytes(c, c.(stack := [Be(bytes)] + c.stack), bytes)
  {
    FixedBe(bytes);
    BeBound(bytes);
  }

  lemma PushEffect(c: Context, ch: Choice, n: nat)
    requires n <= 32 && At(c, 0x5f + n)
    ensures var e := Instruction(c, ch);
            if c.pc + n < |c.code| && |c.stack| != MAX_STACK
            then e.Goto? && e.target == c.pc + 1 + n && e.c == c.(stack := e.c.stack) &&
                 PushedBytes(c, e.c, c.code[c.pc + 1..c.pc + 1 + n])
            else e.Raise?
  {
    assert Instruction(c, ch) == DoPush(c);
    if c.pc + n < |c.code| {
      PushedBe(c, c.code[c.pc + 1..c.pc + 1 + n]);
    }
  }

  /** PUSHn pushes the word whose n bytes follow the opcode, and goes on after them; it fails where they would reach
      the end of the code or the stack is full. */
  lemma PushMeans(cs: seq<Context>, ch: Choice, n: nat)
    requires n <= 32 && Head(cs) && At(cs[|cs| - 1], 0x5f + n)
    ensures var c, k, p := cs[|cs| - 1], |cs| - 1, NextState(Continue(cs), ch);
            if c.pc + n < |c.code| && |c.stack| != MAX_STACK
            then p.Continue? && |p.ctxts| == |cs| && p.ctxts[..k] == cs[..k] &&
                 p.ctxts[k] == c.(pc := c.pc + 1 + n, pcChanged := false, stack := p.ctxts[k].stack) &&
                 PushedBytes(c, p.ctxts[k], c.code[c.pc + 1..c.pc + 1 + n])
            else Instruction(c, ch).Raise?
  {
    PushEffect(cs[|cs| - 1], ch, n);
    if Instruction(cs[|cs| - 1], ch).Goto? {
      GotoMoves(cs, ch);
    }
  }

  // ----------------------------------------------------------------------------------------------------- the stack

  /** Only the stack changed. */
  predicate StackOnly(c: Context, e: Effect)
  {
    e.Stay? && e.c == c.(stack := e.c.stack)
  }

  /** DUPn puts the n-th word on top and moves every other word down by one; it fails where there is no n-th word. */
  lemma DupMeans(c: Context, ch: Choice, n: nat)
    requires 1 <= n <= 16 && At(c, 0x7f + n)
    ensures var e := Instruction(c, ch);
            if n <= |c.stack|
            then StackOnly(c, e) && |e.c.stack| == |c.stack| + 1 && e.c.stack[0] == c.stack[n - 1] &&
                 forall i :: 0 <= i < |c.stack| ==> e.c.stack[i + 1] == c.stack[i]
            else e.Raise?
  {
    assert Instruction(c, ch) == DoStack(c, 0x7f + n);
  }

  /** SWAPn exchanges the top with the word n below it and leaves every other position; it fails where there is no
      such word. */
  lemma SwapMeans(c: Context, ch: Choice, n: nat)
    requires 1 <= n <= 16 && At(c, 0x8f + n)
    ensures var e := Instruction(c, ch);
            if n < |c.stack|
            then StackOnly(c, e) && |e.c.stack| == |c.stack| &&
                 forall i :: 0 <= i < |c.stack| ==>
                   e.c.stack[i] == c.stack[if i == 0 then n else if i == n then 0 else i]
            else e.Raise?
  {
    assert Instruction(c, ch) == DoStack(c, 0x8f + n);
  }

  lemma PopMeans(c: Context, ch: Choice)
    requires At(c, 0x50)
    ensures var e := Instruction(c, ch);
            if c.stack == [] then e.Raise? else StackOnly(c, e) && [c.stack[0]] + e.c.stack == c.stack
  {
    assert Instruction(c, ch) == DoStack(c, 0x50);
  }

  // ---------------------------------------------------------------------------------------- memory, input and code

  /** The bytes of memory from an offset on; memory that was never touched is zero. */
  predicate BytesOf(mem: seq<byte>, offset: nat, bytes: seq<byte>)
  {
    forall i :: 0 <= i < |bytes| ==> bytes[i] == Source(mem, offset + i, 0)
  }

  /** Memory is as before, but reaches at least to the end, with zeros. */
  predicate Grown(before: seq<byte>, after: seq<byte>, end: nat)
  {
    && |after| == (if |before| < end then end else |before|)
    && forall i :: 0 <= i < |after| ==> after[i] == Source(before, i, 0)
  }

  lemma CopiedOut(mem: seq<byte>, offset: u64, size: u64)
    ensures var r := CopyFromMem(mem, offset, size);
            if offset + size <= MAX_MEM_SIZE
            then r.Some? && Grown(mem, r.value.0, offset + size) &&
                 |r.value.1| == size && BytesOf(mem, offset, r.value.1)
            else r.None?
  {
  }

  const RETURN: byte := 0xf3
  const REVERT: byte := 0xfd

  /** RETURN takes offset and size, in this order, and hands over the bytes of memory there; it fails with fewer words,
      with wider ones or beyond the memory limit. REVERT always fails. */
  lemma ReturnMeans(c: Context, ch: Choice)
    requires At(c, RETURN) || At(c, REVERT)
    ensures var e := Instruction(c, ch);
            if At(c, RETURN) && Narrow(c.stack, 0, 2) && c.stack[0] + c.stack[1] <= MAX_MEM_SIZE
            then e.Return? && |e.output| == c.stack[1] && BytesOf(c.mem, c.stack[0], e.output)
            else e.Raise?
  {
    PopAllIff(c.stack, [true, true]);
    assert Instruction(c, ch) == DoReturn(c, At(c, REVERT));
    if Narrow(c.stack, 0, 2) {
      CopiedOut(c.mem, c.stack[0], c.stack[1]);
    }
  }

  /** The range of memory from dst on holds the bytes of src from `from` on, past its end zero; the rest is as
      before. */
  predicate CopiedIn(before: seq<byte>, after: seq<byte>, dst: nat, from: nat, size: nat, src: seq<byte>)
  {
    && |after| == (if size > 0 && |before| < dst + size then dst + size else |before|)
    && forall i :: 0 <= i < |after| ==>
         after[i] == if dst <= i < dst + size then Source(src, from + (i - dst), 0) else Source(before, i, 0)
  }

  lemma CopyMemMeans(dst: u64, from: u64, size: u64, mem: seq<byte>, src: seq<byte>)
    ensures var r := CopyMem(dst, from, size, mem, src, 0);
            if size == 0 || dst + size <= MAX_MEM_SIZE then r.Some? && CopiedIn(mem, r.value, dst, from, size, src)
            else r.None?
  {
  }

  /** A copy takes where to, where from and how much from the stack after `skip` words. */
  predicate Copies(c: Context, e: Effect, skip: nat, src: seq<byte>)
  {
    if |c.stack| >= 3 + skip && Narrow(c.stack, skip, 3 + skip) &&
       (c.stack[skip + 2] == 0 || c.stack[skip] + c.stack[skip + 2] <= MAX_MEM_SIZE)
    then e.Stay? && e.c == c.(stack := c.stack[3 + skip..], mem := e.c.mem) &&
         CopiedIn(c.mem, e.c.mem, c.stack[skip], c.stack[skip + 1], c.stack[skip + 2], src)
    else e.Raise?
  }

  lemma CopyEffect(c: Context, op: byte, ch: Choice, skip: nat, src: seq<byte>)
    requires (op == 0x37 || op == 0x39 || op == 0x3c || op == 0x3e) && skip == (if op == 0x3c then 1 else 0)
    requires src == if op == 0x37 then c.input else if op == 0x39 then c.code
                    else if op == 0x3c then ch.target else c.returnData
    ensures Copies(c, DoCopy(c, op, ch), skip, src)
  {
    PopAllIff(c.stack, if op == 0x3c then [false, true, true, true] else [true, true, true]);
    if |c.stack| >= 3 + skip && Narrow(c.stack, skip, 3 + skip) {
      CopyMemMeans(c.stack[skip], c.stack[skip + 1], c.stack[skip + 2], c.mem, src);
    }
  }

  /** CALLDATACOPY copies the input, CODECOPY the code, RETURNDATACOPY the return data, EXTCODECOPY the code of the
      account that is addressed by the first word. */
  lemma CopyMeans(c: Context, ch: Choice)
    requires c.pc < |c.code| && c.code[c.pc] in [0x37, 0x39, 0x3c, 0x3e]
    ensures At(c, 0x37) ==> Copies(c, Instruction(c, ch), 0, c.input)
    ensures At(c, 0x39) ==> Copies(c, Instruction(c, ch), 0, c.code)
    ensures At(c, 0x3c) ==> Copies(c, Instruction(c, ch), 1, ch.target)
    ensures At(c, 0x3e) ==> Copies(c, Instruction(c, ch), 0, c.returnData)
  {
    var op := c.code[c.pc];
    assert Instruction(c, ch) == DoCopy(c, op, ch);
    CopyEffect(c, op, ch, if op == 0x3c then 1 else 0,
               if op == 0x37 then c.input else if op == 0x39 then c.code
               else if op == 0x3c then ch.target else c.returnData);
  }

  lemma InputWord(c: Context, d: Context, offset: nat)
    requires d == c.(stack := [WordAt(c.input, offset)] + c.stack)
    ensures PushedBytes(c, d, Window(c.input, offset))
  {
    PushedBe(c, Window(c.input, offset));
  }

  /** CALLDATALOAD puts in place of the offset the word whose 32 bytes are those of the input from there on, past its
      end zero. Where the end of those bytes wraps the interpreter is left by a foreign exception. */
  lemma CallDataLoadMeans(c: Context, ch: Choice)
    requires At(c, 0x35)
    ensures var e := Instruction(c, ch);
            if !Narrow(c.stack, 0, 1) then e.Raise?
            else if c.stack[0] + 32 >= TWO64 then e.Escape?
            else if |c.stack| == MAX_STACK + 1 then e.Raise?
            else StackOnly(c, e) && PushedBytes(c.(stack := c.stack[1..]), e.c, Window(c.input, c.stack[0]))
  {
    PopAllIff(c.stack, [true]);
    assert Instruction(c, ch) == DoCallDataLoad(c);
    var e := DoCallDataLoad(c);
    if e.Stay? {
      InputWord(c.(stack := c.stack[1..]), e.c, c.stack[0]);
    }
  }

  // ---------------------------------------------------------------------------------------- words that are read

  /** The word w was pushed and nothing else happened; or it did not fit. */
  predicate Pushes(c: Context, e: Effect, w: nat)
  {
    if |c.stack| == MAX_STACK then e.Raise? else e == Stay(c.(stack := [w] + c.stack))
  }

  /** The least multiple of 32 that is not below n. */
  predicate RoundedUp(n: nat, w: nat)
  {
    w % 32 == 0 && n <= w < n + 32
  }

  /** ADDRESS, ORIGIN, CALLER, CALLVALUE, CALLDATASIZE, CODESIZE, GASPRICE, RETURNDATASIZE, TIMESTAMP, SELFBALANCE, PC,
      MSIZE and GAS. */
  predicate PushesOnly(op: byte)
  {
    op in {0x30, 0x32, 0x33, 0x34, 0x36, 0x38, 0x3a, 0x3d, 0x42, 0x47, 0x58, 0x59, 0x5a}
  }

  lemma ReaderDoes(c: Context, ch: Choice)
    requires c.pc < |c.code| && Reads(c.code[c.pc])
    ensures Pushes(c, Instruction(c, ch), ResultWord(c, c.code[c.pc], ch))
  {
    ReaderIsValue(c, ch);
  }

  /** ADDRESS, CALLER, PC, CALLDATASIZE and RETURNDATASIZE push what the context says, MSIZE the memory in whole words;
      the other readers push a word from outside. */
  lemma ReadersMean(c: Context, ch: Choice)
    requires c.pc < |c.code| && PushesOnly(c.code[c.pc])
    ensures At(c, 0x30) ==> Pushes(c, Instruction(c, ch), c.address)
    ensures At(c, 0x33) ==> Pushes(c, Instruction(c, ch), c.caller)
    ensures At(c, 0x36) ==> Pushes(c, Instruction(c, ch), |c.input|)
    ensures At(c, 0x3d) ==> Pushes(c, Instruction(c, ch), |c.returnData|)
    ensures At(c, 0x58) ==> Pushes(c, Instruction(c, ch), c.pc)
    ensures At(c, 0x59) ==> exists w :: RoundedUp(|c.mem|, w) && Pushes(c, Instruction(c, ch), w)
    ensures c.code[c.pc] !in [0x30, 0x33, 0x36, 0x3d, 0x58, 0x59] ==> Pushes(c, Instruction(c, ch), ch.word)
  {
    ReaderDoes(c, ch);
    assert RoundedUp(|c.mem|, (|c.mem| + 31) / 32 * 32);
  }

  /** BALANCE, EXTCODESIZE, EXTCODEHASH, BLOCKHASH and SLOAD. */
  predicate ReadsAccount(op: byte)
  {
    op == 0x31 || op == 0x3b || op == 0x3f || op == 0x40 || op == 0x54
  }

  /** How many words an instruction takes that leaves one (Yellow Paper, appendix H); BYTE with an index of 32 or more
      takes only the index here. */
  function Taken(op: byte, s: seq<nat>): (n: nat)
  {
    if op == 0x08 || op == 0x09 then 3
    else if op == 0x15 || op == 0x19 || ReadsAccount(op) then 1
    else if op == 0x1a && s != [] && s[0] >= 32 then 1
    else 2
  }

  /** Arithmetic, comparisons, shifts and account reads. */
  predicate Replaces(op: byte)
  {
    0x01 <= op <= 0x0b || 0x10 <= op <= 0x1d || ReadsAccount(op)
  }

  /** Only EXP's exponent and BLOCKHASH's number must be narrow. */
  predicate OperandsFit(op: byte, s: seq<nat>)
  {
    && |s| >= Taken(op, s) && (op == 0x0a ==> |s| >= 2 && s[1] < TWO64) && (op == 0x40 ==> s != [] && s[0] < TWO64)
  }

  lemma OperandsPop(op: byte, s: seq<nat>)
    requires Replaces(op)
    ensures Operands(op, s).Some?
    ensures var narrow := Operands(op, s).value;
            && (PopAll(s, narrow).Some? <==> OperandsFit(op, s))
            && (PopAll(s, narrow).Some? ==> PopAll(s, narrow).value == (s[..Taken(op, s)], s[Taken(op, s)..]))
  {
    var narrow := Operands(op, s).value;
    PopAllIff(s, narrow);
    if s != [] || op != 0x1a {
      assert |narrow| == Taken(op, s);
    }
  }

  lemma HasOperands(op: byte, s: seq<nat>)
    requires Replaces(op)
    ensures Operands(op, s).Some?
  {
  }

  /** The instruction at the counter is a value instruction with the operands of the table. */
  predicate IsValue(c: Context, ch: Choice)
  {
    && c.pc < |c.code| && Operands(c.code[c.pc], c.stack).Some?
    && Instruction(c, ch) == DoValue(c, c.code[c.pc], Operands(c.code[c.pc], c.stack).value, ch)
  }

  lemma LowIsValue(c: Context, ch: Choice)
    requires c.pc < |c.code| && Replaces(c.code[c.pc]) && c.code[c.pc] < 0x20
    ensures IsValue(c, ch)
  {
    HasOperands(c.code[c.pc], c.stack);
  }

  lemma AccountIsValue(c: Context, ch: Choice)
    requires c.pc < |c.code| && ReadsAccount(c.code[c.pc])
    ensures IsValue(c, ch)
  {
    HasOperands(c.code[c.pc], c.stack);
  }

  /** Such an instruction takes its words, leaves one, and touches nothing else; it fails exactly when they are not
      there or do not fit, or one word more than the stack may hold was left. */
  lemma ReplacesMeans(c: Context, ch: Choice)
    requires c.pc < |c.code| && Replaces(c.code[c.pc])
    ensures var op, e := c.code[c.pc], Instruction(c, ch);
            if OperandsFit(op, c.stack)
            then Pushes(c.(stack := c.stack[Taken(op, c.stack)..]), e, ch.word)
            else e.Raise?
  {
    var op := c.code[c.pc];
    if op < 0x20 {
      LowIsValue(c, ch);
    } else {
      AccountIsValue(c, ch);
    }
    OperandsPop(op, c.stack);
    assert ResultWord(c, op, ch) == ch.word;
  }

  // ---------------------------------------------------------------------------------- writes, halts, and the rest

  /** SSTORE, LOGn, CREATE, CREATE2 and SELFDESTRUCT. */
  predicate Writes(op: byte)
  {
    op == 0x55 || 0xa0 <= op <= 0xa4 || op == 0xf0 || op == 0xf5 || op == 0xff
  }

  /** The effect with its own context in static mode. */
  function InStatic(e: Effect): (r: Effect)
  {
    match e
    case Stay(c) => Stay(c.(inStatic := true))
    case Goto(c, target) => Goto(c.(inStatic := true), target)
    case Enter(c, frames, input, call) => Enter(c.(inStatic := true), frames, input, call)
    case Return(c, output) => Return(c.(inStatic := true), output)
    case Halt(c) => Halt(c.(inStatic := true))
    case _ => e
  }

  lemma SimpleInStatic(c: Context, op: byte, d: Context)
    requires d == c.(inStatic := true)
    ensures c.pc < |c.code| && PUSH0 <= c.code[c.pc] <= PUSH32 ==> DoPush(d) == InStatic(DoPush(c))
    ensures op == 0x50 || 0x80 <= op <= 0x9f ==> DoStack(d, op) == InStatic(DoStack(c, op))
  {
  }

  lemma PoppingInStatic(c: Context, op: byte, d: Context)
    requires d == c.(inStatic := true)
    ensures op == 0x56 || op == 0x57 ==> DoJump(d, op) == InStatic(DoJump(c, op))
    ensures DoCallDataLoad(d) == InStatic(DoCallDataLoad(c))
  {
  }

  lemma ValueInStatic(c: Context, op: byte, narrow: seq<bool>, ch: Choice, d: Context)
    requires d == c.(inStatic := true)
    ensures DoValue(d, op, narrow, ch) == InStatic(DoValue(c, op, narrow, ch))
  {
  }

  lemma MemoryInStatic(c: Context, op: byte, ch: Choice, d: Context)
    requires d == c.(inStatic := true) && (0x51 <= op <= 0x53 || op == 0x20)
    ensures DoMemory(d, op, ch) == InStatic(DoMemory(c, op, ch))
  {
  }

  lemma RangesInStatic(c: Context, op: byte, revert: bool, ch: Choice, d: Context)
    requires d == c.(inStatic := true)
    ensures op == 0x37 || op == 0x39 || op == 0x3c || op == 0x3e ==> DoCopy(d, op, ch) == InStatic(DoCopy(c, op, ch))
    ensures DoReturn(d, revert) == InStatic(DoReturn(c, revert))
  {
  }

  lemma CallInStatic(c: Context, op: byte, ch: Choice, d: Context)
    requires d == c.(inStatic := true) && (op == CALL || op == CALLCODE || op == DELEGATECALL || op == STATICCALL)
    ensures DoCall(d, op, ch) == InStatic(DoCall(c, op, ch))
  {
  }

  lemma WritesRaise(c: Context, ch: Choice)
    requires c.pc < |c.code| && c.inStatic && Writes(c.code[c.pc])
    ensures Instruction(c, ch).Raise?
  {
  }

  /** Static mode matters for the instructions that write and for no others: those fail in it, and every other one does
      what it does outside of it, calls included. */
  lemma StaticMatters(c: Context, ch: Choice)
    requires c.pc < |c.code|
    ensures var d := c.(inStatic := true);
            if Writes(c.code[c.pc]) then Instruction(d, ch).Raise?
            else Instruction(d, ch) == InStatic(Instruction(c, ch))
  {
    var op, d := c.code[c.pc], c.(inStatic := true);
    if Writes(op) {
      WritesRaise(d, ch);
    } else if PUSH0 <= op <= PUSH32 || op == 0x50 || 0x80 <= op <= 0x9f {
      SimpleInStatic(c, op, d);
    } else if op == 0x56 || op == 0x57 || op == 0x35 {
      PoppingInStatic(c, op, d);
    } else if 0x51 <= op <= 0x53 || op == 0x20 {
      MemoryInStatic(c, op, ch, d);
    } else if op == 0x37 || op == 0x39 || op == 0x3c || op == 0x3e || op == 0xf3 || op == 0xfd {
      RangesInStatic(c, op, op == 0xfd, ch, d);
    } else if op == CALL || op == CALLCODE || op == DELEGATECALL || op == STATICCALL {
      CallInStatic(c, op, ch, d);
    } else if Operands(op, c.stack).Some? {
      ValueInStatic(c, op, Operands(op, c.stack).value, ch, d);
    }
  }

  /** SSTORE takes two words. */
  lemma StoreMeans(c: Context, ch: Choice)
    requires At(c, 0x55)
    ensures Instruction(c, ch) == if !c.inStatic && |c.stack| >= 2 then Stay(c.(stack := c.stack[2..])) else Raise
  {
    PopAllIff(c.stack, [false, false]);
    assert Instruction(c, ch) == DoStore(c);
  }

  /** MLOAD, MSTORE, MSTORE8 and SHA3 succeed exactly when their words are there, offset and size fit 64 bits, the range
      ends within the memory limit, and the word that is pushed finds room. */
  predicate Accesses(c: Context, op: byte)
  {
    && |c.stack| >= (if op == 0x51 then 1 else 2) && c.stack[0] < TWO64 && (op == 0x20 ==> c.stack[1] < TWO64)
    && c.stack[0] + Touched(op, c.stack) <= MAX_MEM_SIZE
    && (op == 0x51 ==> |c.stack| != MAX_STACK + 1) && (op == 0x20 ==> |c.stack| != MAX_STACK + 2)
  }

  /** The words that are left, and the memory: a load pushes the word it reads, a store leaves nothing, a hash comes
      from outside. */
  ghost predicate Accessed(c: Context, op: byte, ch: Choice, e: Effect, i: nat)
  {
    && e.Stay? && Touches(c, op, e.c, i) && e.c == c.(stack := e.c.stack, mem := e.c.mem)
    && (op == 0x52 || op == 0x53 ==> |c.stack| >= 2 && e.c.stack == c.stack[2..])
    && (op == 0x20 ==> |c.stack| >= 2 && e.c.stack == [ch.word] + c.stack[2..])
  }

  lemma MemoryDoes(c: Context, op: byte, ch: Choice)
    requires 0x51 <= op <= 0x53 || op == 0x20
    ensures var e := DoMemory(c, op, ch);
            if Accesses(c, op)
            then && e.Stay? && e.c == c.(stack := e.c.stack, mem := e.c.mem)
                 && (op == 0x52 || op == 0x53 ==> e.c.stack == c.stack[2..])
                 && (op == 0x20 ==> e.c.stack == [ch.word] + c.stack[2..])
            else e.Raise?
  {
    var narrow := if op == 0x51 then [true] else if op == 0x20 then [true, true] else [true, false];
    assert [true, true] + seq(0, _ => false) == [true, true];
    PopAllIff(c.stack, narrow);
  }

  lemma MemoryMeans(c: Context, op: byte, ch: Choice, i: nat)
    requires (0x51 <= op <= 0x53 || op == 0x20) && At(c, op)
    ensures if Accesses(c, op) then Accessed(c, op, ch, Instruction(c, ch), i) else Instruction(c, ch).Raise?
  {
    assert Instruction(c, ch) == DoMemory(c, op, ch);
    MemoryDoes(c, op, ch);
    if Accesses(c, op) {
      MemoryEffect(c, op, ch, i);
    }
  }

  /** LOGn takes offset, size and n topics, and the memory reaches to the end of the range. */
  lemma LogMeans(c: Context, ch: Choice, n: nat)
    requires n <= 4 && At(c, 0xa0 + n)
    ensures var e := Instruction(c, ch);
            if !c.inStatic && |c.stack| >= n + 2 && Narrow(c.stack, 0, 2) && c.stack[0] + c.stack[1] <= MAX_MEM_SIZE
            then e.Stay? && e.c == c.(stack := c.stack[n + 2..], mem := e.c.mem) &&
                 Grown(c.mem, e.c.mem, c.stack[0] + c.stack[1])
            else e.Raise?
  {
    var narrow := [true, true] + seq(n, _ => false);
    PopAllIff(c.stack, narrow);
    assert narrow[0] && narrow[1] && forall i :: 2 <= i < n + 2 ==> !narrow[i];
    assert Instruction(c, ch) == DoMemory(c, 0xa0 + n, ch);
  }

  /** STOP and INVALID halt; so does SELFDESTRUCT outside static mode with a word to take. */
  lemma HaltMeans(c: Context, ch: Choice)
    requires c.pc < |c.code| && c.code[c.pc] in [0x00, 0xfe, 0xff]
    ensures var e := Instruction(c, ch);
            if At(c, 0xff) && (c.inStatic || c.stack == [] || ch.refused) then e.Raise? else e.Halt?
  {
  }

  /** The opcodes that do something. REVERT and the block instructions, which only fail, are not among them. */
  predicate Known(op: byte)
  {
    || op <= 0x0b || 0x10 <= op <= 0x1d || op == 0x20 || 0x30 <= op <= 0x40 || op == 0x42 || op == 0x47
    || 0x50 <= op <= 0x5b || 0x5f <= op <= 0xa4 || 0xf0 <= op <= 0xf5 || op == 0xfa || 0xfe <= op
  }

  lemma UnknownFails(c: Context, ch: Choice)
    requires c.pc < |c.code| && !Known(c.code[c.pc])
    ensures Instruction(c, ch).Raise?
  {
  }
}
