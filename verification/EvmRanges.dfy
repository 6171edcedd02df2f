/** Words stay words: with answers that are words, every word on every stack of a run of the machine is below 2^256. */
module EvmRanges {
  import opened Arith
  import opened Bits
  import opened ByteStrings
  import opened EvmCode
  import opened EvmMemory
  import opened Evm
  import opened EvmInstructions
  import opened EvmCalls
  import opened EvmArithmetic
  import Bitwise
  import Words = EvmWords

  /** A bound that 32 bytes and all sizes stay below. */
  ghost predicate Roomy(m: nat)
  {
    Words.Size() <= m && TWO64 <= m
  }

  predicate AllBelow(s: seq<nat>, m: nat)
  {
    forall i :: 0 <= i < |s| ==> s[i] < m
  }

  /** The stack and the addresses of a context are words, and its byte strings have sizes of 64 bits. */
  predicate Wordy(m: nat, c: Context)
  {
    && AllBelow(c.stack, m) && c.address < m && c.caller < m
    && |c.code| < TWO64 && |c.input| < TWO64 && |c.returnData| < TWO64
  }

  predicate AnswerOk(m: nat, ch: Choice)
  {
    ch.word < m && |ch.target| < TWO64
  }

  predicate FrameOk(m: nat, f: Frame)
  {
    |f.code| < TWO64 && f.caller < m && f.address < m
  }

  predicate FramesOk(m: nat, frames: seq<Frame>)
  {
    forall i :: 0 <= i < |frames| ==> FrameOk(m, frames[i])
  }

  predicate EffectWordy(m: nat, e: Effect)
  {
    match e
    case Stay(c) => Wordy(m, c)
    case Goto(c, _) => Wordy(m, c)
    case Enter(c, frames, input, _) => Wordy(m, c) && FramesOk(m, frames) && |input| < TWO64
    case Return(c, output) => Wordy(m, c) && |output| < TWO64
    case _ => true
  }

  lemma {:induction false} BytesAndBits(k: nat)
    ensures Pow256(k) == Pow2(8 * k)
  {
    if k > 0 {
      BytesAndBits(k - 1);
      EightBits(8 * (k - 1));
    }
  }

  lemma EightBits(n: nat)
    ensures Pow2(n + 8) == 256 * Pow2(n)
  {
    assert Pow2(n + 4) == 16 * Pow2(n) by {
      assert Pow2(n + 2) == 4 * Pow2(n);
    }
    assert Pow2(n + 6) == 4 * Pow2(n + 4);
  }

  lemma BytesBelow(m: nat, s: seq<byte>)
    requires Roomy(m) && |s| <= 32
    ensures Be(s) < m
  {
    BeBound(s);
    BytesAndBits(|s|);
    Pow2Mono(8 * |s|, Words.Width());
  }

  lemma PoppedBelow(s: seq<nat>, narrow: seq<bool>, m: nat)
    requires AllBelow(s, m)
    ensures PopAll(s, narrow).Some? ==> AllBelow(PopAll(s, narrow).value.1, m)
  {
    PopAllIff(s, narrow);
  }

  lemma PushedWordy(m: nat, c: Context)
    requires Roomy(m) && Wordy(m, c) && c.pc < |c.code| && PUSH0 <= c.code[c.pc] <= PUSH32
    ensures EffectWordy(m, DoPush(c))
  {
    var bytes := c.code[c.pc] - PUSH1 + 1;
    if c.pc + bytes < |c.code| {
      BytesBelow(m, c.code[c.pc + 1..c.pc + 1 + bytes]);
    }
  }

  lemma StackWordy(m: nat, c: Context, op: byte)
    requires Wordy(m, c) && (op == 0x50 || 0x80 <= op <= 0x9f)
    ensures EffectWordy(m, DoStack(c, op))
  {
  }

  lemma JumpWordy(m: nat, c: Context, op: byte)
    requires Wordy(m, c) && (op == 0x56 || op == 0x57)
    ensures EffectWordy(m, DoJump(c, op))
  {
    PoppedBelow(c.stack, [true], m);
    PoppedBelow(c.stack, [true, false], m);
  }

  lemma ValueWordy(m: nat, c: Context, op: byte, narrow: seq<bool>, ch: Choice)
    requires Roomy(m) && Wordy(m, c) && AnswerOk(m, ch) && |c.mem| <= MAX_MEM_SIZE && c.pc < |c.code|
    ensures EffectWordy(m, DoValue(c, op, narrow, ch))
  {
    PoppedBelow(c.stack, narrow, m);
    assert ResultWord(c, op, ch) < m;
  }

  lemma InputWordy(m: nat, c: Context)
    requires Roomy(m) && Wordy(m, c)
    ensures EffectWordy(m, DoCallDataLoad(c))
  {
    PoppedBelow(c.stack, [true], m);
    match PopAll(c.stack, [true])
    case None =>
    case Some(p) => BytesBelow(m, Window(c.input, p.0[0]));
  }

  lemma StoreWordy(m: nat, c: Context)
    requires Wordy(m, c)
    ensures EffectWordy(m, DoStore(c))
  {
    PoppedBelow(c.stack, [false, false], m);
  }

  lemma LoadWordy(m: nat, c: Context, ch: Choice)
    requires Roomy(m) && Wordy(m, c)
    ensures EffectWordy(m, DoMemory(c, 0x51, ch))
  {
    PoppedBelow(c.stack, [true], m);
    match PopAll(c.stack, [true])
    case None =>
    case Some(p) =>
      match PrepareMemAccess(c.mem, p.0[0], 32)
      case None =>
      case Some(mem) => BytesBelow(m, mem[p.0[0]..p.0[0] + 32]);
  }

  lemma MemoryWordy(m: nat, c: Context, op: byte, ch: Choice)
    requires Wordy(m, c) && AnswerOk(m, ch) && (op == 0x52 || op == 0x53 || op == 0x20 || 0xa0 <= op <= 0xa4)
    ensures EffectWordy(m, DoMemory(c, op, ch))
  {
    var narrow := if op == 0x52 || op == 0x53 then [true, false]
                  else [true, true] + seq(if 0xa0 <= op then op - 0xa0 else 0, _ => false);
    PoppedBelow(c.stack, narrow, m);
  }

  lemma CopyWordy(m: nat, c: Context, op: byte, ch: Choice)
    requires Wordy(m, c) && (op == 0x37 || op == 0x39 || op == 0x3c || op == 0x3e)
    ensures EffectWordy(m, DoCopy(c, op, ch))
  {
    PoppedBelow(c.stack, if op == 0x3c then [false, true, true, true] else [true, true, true], m);
  }

  lemma ReturnWordy(m: nat, c: Context, revert: bool)
    requires Wordy(m, c)
    ensures EffectWordy(m, DoReturn(c, revert))
  {
    PoppedBelow(c.stack, [true, true], m);
  }

  lemma CreateWordy(m: nat, c: Context, two: bool, ch: Choice)
    requires Wordy(m, c) && AnswerOk(m, ch)
    ensures EffectWordy(m, DoCreate(c, two, ch))
  {
    PoppedBelow(c.stack, if two then [false, true, true, false] else [false, true, true], m);
  }

  lemma CallWithWordy(m: nat, c: Context, op: byte, callee: nat, offIn: u64, sizeIn: u64, offOut: u64, sizeOut: u64,
                      ch: Choice)
    requires Roomy(m) && Wordy(m, c) && AnswerOk(m, ch) && callee < m
    ensures EffectWordy(m, CallWith(c, op, callee, offIn, sizeIn, offOut, sizeOut, ch))
  {
  }

  lemma AddressBelow(m: nat, w: nat)
    requires w < m
    ensures AddressIn(w) < m
  {
  }

  lemma CallWordy(m: nat, c: Context, op: byte, ch: Choice)
    requires Roomy(m) && Wordy(m, c) && AnswerOk(m, ch)
    requires op == CALL || op == CALLCODE || op == DELEGATECALL || op == STATICCALL
    ensures EffectWordy(m, DoCall(c, op, ch))
  {
    var at := if op == DELEGATECALL || op == STATICCALL then 2 else 3;
    var narrow := (if at == 2 then [false, false] else [false, false, true]) + [true, true, true, true];
    PopAllIff(c.stack, narrow);
    match PopAll(c.stack, narrow)
    case None =>
    case Some(p) =>
      AddressBelow(m, p.0[1]);
      CallWithWordy(m, c.(stack := p.1), op, AddressIn(p.0[1]), p.0[at], p.0[at + 1], p.0[at + 2], p.0[at + 3], ch);
  }

  /** The instructions that none of the above is. */
  predicate IsRest(op: byte)
  {
    && !(PUSH0 <= op <= PUSH32) && !(0x50 <= op <= 0x57) && op != 0x35 && op != 0x20 && !(0x80 <= op <= 0xa4)
    && op != 0x37 && op != 0x39 && op != 0x3c && op != 0x3e && !(0xf0 <= op <= 0xfd)
  }

  lemma RestWordy(m: nat, c: Context, op: byte, ch: Choice)
    requires Roomy(m) && Wordy(m, c) && AnswerOk(m, ch) && |c.mem| <= MAX_MEM_SIZE && c.pc < |c.code|
    requires op == c.code[c.pc] && IsRest(op)
    ensures EffectWordy(m, Instruction(c, ch))
  {
    if Operands(op, c.stack).Some? {
      ValueWordy(m, c, op, Operands(op, c.stack).value, ch);
    }
  }

  lemma UnusedRaises(c: Context, op: byte, ch: Choice)
    requires At(c, op) && 0xf0 <= op <= 0xfd && op != 0xf0 && op != 0xf3 && op != 0xf5 && op != 0xfd
    requires op != CALL && op != CALLCODE && op != DELEGATECALL && op != STATICCALL
    ensures Instruction(c, ch).Raise?
  {
  }

  lemma CopyCase(m: nat, c: Context, op: byte, ch: Choice)
    requires Wordy(m, c) && At(c, op) && (op == 0x37 || op == 0x39 || op == 0x3c || op == 0x3e)
    ensures EffectWordy(m, Instruction(c, ch))
  {
    assert Instruction(c, ch) == DoCopy(c, op, ch);
    CopyWordy(m, c, op, ch);
  }

  lemma LeavingCase(m: nat, c: Context, op: byte, ch: Choice)
    requires Wordy(m, c) && AnswerOk(m, ch) && At(c, op) && (op == 0xf0 || op == 0xf3 || op == 0xf5 || op == 0xfd)
    ensures EffectWordy(m, Instruction(c, ch))
  {
    if op == 0xf3 || op == 0xfd {
      assert Instruction(c, ch) == DoReturn(c, op == 0xfd);
      ReturnWordy(m, c, op == 0xfd);
    } else {
      assert Instruction(c, ch) == DoCreate(c, op == 0xf5, ch);
      CreateWordy(m, c, op == 0xf5, ch);
    }
  }

  /** Every instruction keeps words words. */
  lemma InstructionWordy(m: nat, c: Context, ch: Choice)
    requires Roomy(m) && Wordy(m, c) && AnswerOk(m, ch) && |c.mem| <= MAX_MEM_SIZE && c.pc < |c.code|
    ensures EffectWordy(m, Instruction(c, ch))
  {
    var op := c.code[c.pc];
    if PUSH0 <= op <= PUSH32 {
      PushedWordy(m, c);
    } else if op == 0x50 || 0x80 <= op <= 0x9f {
      StackWordy(m, c, op);
    } else if op == 0x56 || op == 0x57 {
      JumpWordy(m, c, op);
    } else if op == 0x35 {
      InputWordy(m, c);
    } else if op == 0x55 {
      StoreWordy(m, c);
    } else if op == 0x51 {
      LoadWordy(m, c, ch);
    } else if op == 0x52 || op == 0x53 || op == 0x20 || 0xa0 <= op <= 0xa4 {
      MemoryWordy(m, c, op, ch);
    } else if op == 0x54 {
      ValueWordy(m, c, op, [false], ch);
    } else if op == 0x37 || op == 0x39 || op == 0x3c || op == 0x3e {
      CopyCase(m, c, op, ch);
    } else if op == 0xf0 || op == 0xf3 || op == 0xf5 || op == 0xfd {
      LeavingCase(m, c, op, ch);
    } else if op == CALL || op == CALLCODE || op == DELEGATECALL || op == STATICCALL {
      CallIs(c, op, ch);
      CallWordy(m, c, op, ch);
    } else if 0xf0 <= op <= 0xfd {
      UnusedRaises(c, op, ch);
    } else {
      RestWordy(m, c, op, ch);
    }
  }

  // -------------------------------------------------------------------------------------------------- computed words

  lemma {:induction false} OrFits(a: nat, b: nat, k: nat)
    requires a < Pow2(k) && b < Pow2(k)
    ensures Bitwise.Or(a, b) < Pow2(k)
    decreases k
  {
    if k > 0 {
      OrFits(a / 2, b / 2, k - 1);
    }
  }

  lemma ShlFits(k: nat, x: nat, s: nat)
    ensures Words.ShlWord(k, x, s) < Pow2(k)
  {
    if s < k {
      LowBound(Words.ShlNat(x, s), k);
    }
  }

  lemma ShrFits(k: nat, x: nat, s: nat)
    requires x < Pow2(k)
    ensures Words.ShrWord(k, x, s) < Pow2(k)
  {
    Words.ShrMeans(k, x, s);
  }

  lemma SignedFits(h: nat, x: nat, y: nat, minusOne: nat)
    requires h > 0 && x < 2 * h && y < 2 * h
    ensures Words.Sdiv(h, minusOne, x, y) < 2 * h && Words.Smod(h, x, y) < 2 * h
  {
  }

  lemma SarFits(k: nat, x: nat, s: nat)
    requires k > 0 && x < Pow2(k)
    ensures Words.Sar(k, x, s) < Pow2(k)
  {
    var fill := if s < k then k - s else 0;
    var ones := if x >= Pow2(k - 1) then Words.Ones(k) else 0;
    ShrFits(k, x, s);
    ShlFits(k, ones, fill);
    OrFits(Words.ShrWord(k, x, s), Words.ShlWord(k, ones, fill), k);
  }

  lemma ExtendFits(k: nat, x: nat, y: nat)
    requires y < Pow2(k)
    ensures Words.SignExtend(k, x, y) < Pow2(k)
  {
    if x < 32 && 8 * x + 7 < k {
      var idx := 8 * x + 7;
      var ones := if Words.Bit(y, idx) then Words.Ones(k) else 0;
      var mask := Words.ShrWord(k, Words.Ones(k), k - idx);
      ShlFits(k, ones, idx);
      Bitwise.AndBound(y, mask);
      OrFits(Words.ShlWord(k, ones, idx), Bitwise.And(y, mask), k);
    }
  }

  lemma ArithmeticFits(op: nat, x: nat, y: nat)
    requires Words.IsWord(x) && Words.IsWord(y)
    ensures Words.IsWord(Words.Arithmetic(op, x, y))
  {
    SignedFits(Words.Half(), x, y, Words.MINUS_ONE_64);
  }

  lemma FurtherFits(op: nat, x: nat, y: nat, n: nat)
    requires Words.IsWord(y)
    ensures Words.IsWord(Words.Further(op, x, y, n))
  {
    ExtendFits(Words.Width(), x, y);
  }

  lemma BitsFit(op: nat, x: nat, y: nat)
    requires Words.IsWord(x) && Words.IsWord(y)
    ensures Words.IsWord(Words.BitByBit(op, x, y))
  {
    Bitwise.AndBound(x, y);
    OrFits(x, y, Words.Width());
    Bitwise.XorAllOnes(x, y, Words.Width());
  }

  lemma ShiftsFit(op: nat, x: nat, y: nat)
    requires Words.IsWord(y)
    ensures Words.IsWord(Words.Shifts(op, x, y))
  {
    ShlFits(Words.Width(), y, x);
    ShrFits(Words.Width(), y, x);
    SarFits(Words.Width(), y, x);
    SmallIsWord();
    if x < 32 {
      Words.ByteMeans(32, x, y);
    }
  }

  lemma SmallIsWord()
    ensures 256 <= Words.Size()
  {
    Pow2Mono(8, Words.Width());
  }

  /** The computed word of words is one. */
  lemma ComputeIsWord(op: nat, args: seq<nat>)
    requires Words.Computes(op) && AllBelow(args, Words.Size())
    ensures Words.IsWord(Words.Compute(op, args))
  {
    var x, y, n := Words.Arg(args, 0), Words.Arg(args, 1), Words.Arg(args, 2);
    assert Words.IsWord(x) && Words.IsWord(y);
    SmallIsWord();
    if op < Words.ADDMOD {
      ArithmeticFits(op, x, y);
    } else if op < Words.LT {
      FurtherFits(op, x, y, n);
    } else if op < Words.AND {
    } else if op < Words.BYTE {
      BitsFit(op, x, y);
    } else {
      ShiftsFit(op, x, y);
    }
  }

  lemma ResolveOk(c: Context, ch: Choice)
    requires Wordy(Words.Size(), c) && AnswerOk(Words.Size(), ch)
    ensures AnswerOk(Words.Size(), Resolve(c, ch))
  {
    if c.pc < |c.code| && Words.Computes(c.code[c.pc]) && Operands(c.code[c.pc], c.stack).Some? {
      var narrow := Operands(c.code[c.pc], c.stack).value;
      PopAllIff(c.stack, narrow);
      match PopAll(c.stack, narrow)
      case None =>
      case Some(p) => ComputeIsWord(c.code[c.pc], p.0);
    }
  }

  lemma SizeIsRoomy()
    ensures Roomy(Words.Size())
  {
    Pow2Literals();
    Pow2Mono(64, Words.Width());
  }

  // ------------------------------------------------------------------------------------------------------ whole runs

  predicate AllWordy(m: nat, cs: seq<Context>)
  {
    forall i :: 0 <= i < |cs| ==> Wordy(m, cs[i])
  }

  lemma {:induction false} EnterWordy(m: nat, cs: seq<Context>, frames: seq<Frame>, input: seq<byte>, h: Handler)
    requires AllWordy(m, cs) && FramesOk(m, frames) && |input| < TWO64
    ensures var o := EnterAll(cs, frames, input, h); !o.Escaped? && AllWordy(m, o.ctxts)
    decreases |frames|
  {
    if frames != [] && |cs| < MAX_CALL_DEPTH {
      assert FrameOk(m, frames[0]);
      assert Wordy(m, Fresh(frames[0], input, h));
      EnterWordy(m, cs + [Fresh(frames[0], input, h)], frames[1..], input, h);
    }
  }

  lemma ReplaceWordy(m: nat, cs: seq<Context>, k: nat, c: Context)
    requires AllWordy(m, cs) && k < |cs| && Wordy(m, c)
    ensures AllWordy(m, cs[k := c])
  {
  }

  lemma PushOnWordy(m: nat, cs: seq<Context>, i: nat, w: nat)
    requires AllWordy(m, cs) && i < |cs| && w < m
    ensures PushOn(cs, i, w).Some? ==> AllWordy(m, PushOn(cs, i, w).value)
  {
    var c := cs[i];
    assert Wordy(m, c.(stack := [w] + c.stack));
  }

  lemma ReturnToWordy(m: nat, cs: seq<Context>, h: Handler, output: seq<byte>, address: nat)
    requires AllWordy(m, cs) && (h.Top? || h.parent < |cs|) && |output| < TWO64 && address < m && 1 < m
    ensures ReturnTo(cs, h, output, address).Some? ==> AllWordy(m, ReturnTo(cs, h, output, address).value)
  {
    match h
    case Top =>
    case CallReturn(parent, offOut, sizeOut) =>
      var c := cs[parent].(returnData := output);
      assert Wordy(m, cs[parent]);
      match CopyMem(offOut, 0, sizeOut, c.mem, output, 0) {
        case None =>
        case Some(mem) =>
          ReplaceWordy(m, cs, parent, c.(mem := mem));
          PushOnWordy(m, cs[parent := c.(mem := mem)], parent, 1);
      }
    case CreateReturn(parent) =>
      var c := cs[parent].(returnData := output);
      assert Wordy(m, cs[parent]);
      ReplaceWordy(m, cs, parent, c);
      PushOnWordy(m, cs[parent := c], parent, address);
  }

  lemma HaltToWordy(m: nat, cs: seq<Context>, h: Handler)
    requires AllWordy(m, cs) && (h.Top? || h.parent < |cs|) && 1 < m
    ensures HaltTo(cs, h).Some? ==> AllWordy(m, HaltTo(cs, h).value)
  {
    if !h.Top? {
      PushOnWordy(m, cs, h.parent, 0);
      PushOnWordy(m, cs, h.parent, 1);
    }
  }

  lemma PerformWordy(m: nat, cs: seq<Context>, effect: Effect)
    requires cs != [] && Linked(cs) && AllWordy(m, cs) && EffectWordy(m, effect) && 1 < m
    ensures var o := Perform(cs, effect); !o.Escaped? ==> AllWordy(m, o.ctxts)
  {
    var k := |cs| - 1;
    assert LinkAt(cs, k) && Wordy(m, cs[k]);
    match effect
    case Enter(c, frames, input, call) =>
      ReplaceWordy(m, cs, k, c);
      EnterWordy(m, cs[k := c], frames, input, CallHandler(k, call));
    case Return(c, output) =>
      ReplaceWordy(m, cs, k, c);
      ReturnToWordy(m, cs[k := c], cs[k].handler, output, cs[k].address);
    case Halt(c) =>
      HaltToWordy(m, cs[..k], cs[k].handler);
    case _ =>
  }

  lemma CatchWordy(m: nat, cs: seq<Context>)
    requires cs != [] && Linked(cs) && AllWordy(m, cs) && 1 < m
    ensures Catch(cs).Running? ==> AllWordy(m, Catch(cs).ctxts)
  {
    var h := cs[|cs| - 1].handler;
    assert LinkAt(cs, |cs| - 1);
    if !h.Top? {
      PushOnWordy(m, cs, h.parent, 0);
    }
  }

  lemma IterateWordy(m: nat, isa: Isa, cs: seq<Context>, ch: Choice)
    requires SafeIsa(isa) && Head(cs) && cs[|cs| - 1].pc < |cs[|cs| - 1].code| && AllWordy(m, cs) && 1 < m
    requires EffectWordy(m, isa(cs[|cs| - 1], ch))
    ensures var p := Iterate(isa, cs, ch); p.Continue? ==> AllWordy(m, p.ctxts)
  {
    DispatchKeeps(isa, cs, ch);
    PerformWordy(m, cs, isa(cs[|cs| - 1], ch));
    var o := Dispatch(isa, cs, ch);
    if o.Threw? {
      CatchWordy(m, o.ctxts);
    }
  }

  /** One turn of the machine keeps words words. */
  lemma TurnWordy(cs: seq<Context>, ch: Choice)
    requires SafeIsa(Machine()) && Head(cs) && AllWordy(Words.Size(), cs) && AnswerOk(Words.Size(), ch)
    ensures var p := TurnOf(Machine())(cs, ch); p.Continue? ==> AllWordy(Words.Size(), p.ctxts)
  {
    var c := cs[|cs| - 1];
    if c.pc < |c.code| {
      SizeIsRoomy();
      ResolveOk(c, ch);
      MachineIs(c, ch);
      InstructionWordy(Words.Size(), c, Resolve(c, ch));
      IterateWordy(Words.Size(), Machine(), cs, ch);
      assert TurnOf(Machine())(cs, ch) == Iterate(Machine(), cs, ch);
    } else {
      assert TurnOf(Machine())(cs, ch) == Finish(cs);
    }
  }

  ghost predicate KeepsWords(turn: Turn, m: nat)
  {
    forall cs, ch :: Head(cs) && AllWordy(m, cs) && AnswerOk(m, ch) ==> StaysWordy(turn(cs, ch), m)
  }

  predicate StaysWordy(p: Progress, m: nat)
  {
    p.Continue? ==> AllWordy(m, p.ctxts)
  }

  lemma {:induction false} RunWordy(turn: Turn, m: nat, cs: seq<Context>, choices: seq<Choice>)
    requires KeepsHead(turn) && KeepsWords(turn, m) && Head(cs) && AllWordy(m, cs)
    requires forall i :: 0 <= i < |choices| ==> AnswerOk(m, choices[i])
    ensures StaysWordy(Run(turn, cs, choices), m)
    decreases |choices|
  {
    if choices != [] {
      assert AnswerOk(m, choices[0]);
      assert StaysWordy(turn(cs, choices[0]), m);
      match turn(cs, choices[0])
      case Continue(ds) => RunWordy(turn, m, ds, choices[1..]);
      case _ =>
    }
  }

  predicate MessageOk(m: nat, code: seq<byte>, msg: Message)
  {
    |code| < TWO64 && |msg.input| < TWO64 && msg.caller < m && msg.address < m
  }

  /** In every state of every run of the machine every word on every stack is below 2^256, if the message and the
      answers from outside are words and their byte strings have sizes of 64 bits. */
  lemma EveryWordIsOne(code: seq<byte>, msg: Message, choices: seq<Choice>)
    requires MessageOk(Words.Size(), code, msg)
    requires forall i :: 0 <= i < |choices| ==> AnswerOk(Words.Size(), choices[i])
    ensures SafeIsa(Machine())
    ensures var p := RunOf(Machine(), code, msg, choices);
            p.Continue? ==> forall k, i :: 0 <= k < |p.ctxts| && 0 <= i < |p.ctxts[k].stack| ==>
                                           Words.IsWord(p.ctxts[k].stack[i])
  {
    MachineSafe();
    TurnKeepsHead(Machine());
    var turn := TurnOf(Machine());
    forall cs, ch | Head(cs) && AllWordy(Words.Size(), cs) && AnswerOk(Words.Size(), ch)
      ensures StaysWordy(turn(cs, ch), Words.Size())
    {
      TurnWordy(cs, ch);
    }
    RunWordy(turn, Words.Size(), Start(code, msg), choices);
    var p := Run(turn, Start(code, msg), choices);
    if p.Continue? {
      forall k, i | 0 <= k < |p.ctxts| && 0 <= i < |p.ctxts[k].stack| ensures Words.IsWord(p.ctxts[k].stack[i]) {
        assert Wordy(Words.Size(), p.ctxts[k]);
      }
    }
  }
}
