/** The interpreter: nested contexts, the program counter, jumps, memory, calls, returns and exceptions. */
module Evm {
  import opened Wrappers
  import opened ByteStrings
  import opened EvmCode
  import opened EvmMemory

  const MAX_CALL_DEPTH: nat := 1024
  const MAX_STACK: nat := 1024

  /** Where the outcome of a context goes: out of the run, or to the context that made the call. */
  datatype Handler = Top | CallReturn(parent: nat, offOut: u64, sizeOut: u64) | CreateReturn(parent: nat)

  datatype Context = Context(
    code: seq<byte>, dests: set<nat>, pc: nat, pcChanged: bool, mem: seq<byte>, stack: seq<nat>,
    input: seq<byte>, returnData: seq<byte>, handler: Handler, inStatic: bool, caller: nat, address: nat)

  /** What a context is opened with: code, mode, the address that CALLER reads and the one that ADDRESS reads. */
  datatype Frame = Frame(code: seq<byte>, inStatic: bool, caller: nat, address: nat)

  /** The call that starts a run. */
  datatype Message = Message(input: seq<byte>, caller: nat, address: nat)

  /** What a dispatch learns from outside: the word an instruction computes or reads, whether the account
      interface refuses, and the code of the account that is addressed. */
  datatype Choice = Choice(word: nat, refused: bool, target: seq<byte>)

  /** Pop one word for each entry of `narrow`; where it is true the word must fit 64 bits. */
  function PopAll(s: seq<nat>, narrow: seq<bool>): (r: Option<(seq<nat>, seq<nat>)>)
    ensures r.Some? ==> |r.value.0| == |narrow| && forall i :: 0 <= i < |narrow| && narrow[i] ==> r.value.0[i] < TWO64
    ensures r.Some? ==> |r.value.1| + |narrow| == |s|
  {
    if narrow == [] then Some(([], s))
    else if s == [] || (narrow[0] && s[0] >= TWO64) then None
    else match PopAll(s[1..], narrow[1..])
      case None => None
      case Some(p) => Some(([s[0]] + p.0, p.1))
  }

  /** Popping succeeds exactly when there are enough words and the narrow ones fit, and takes the first ones. */
  lemma {:induction false} PopAllIff(s: seq<nat>, narrow: seq<bool>)
    ensures PopAll(s, narrow).Some? <==>
            |narrow| <= |s| && forall i :: 0 <= i < |narrow| && narrow[i] ==> s[i] < TWO64
    ensures PopAll(s, narrow).Some? ==> PopAll(s, narrow).value == (s[..|narrow|], s[|narrow|..])
    decreases |narrow|
  {
    if narrow == [] {
      assert s[..0] == [] && s[0..] == s;
    } else if s != [] {
      PopAllIff(s[1..], narrow[1..]);
      forall i | 0 <= i < |narrow| && narrow[i] && |narrow| <= |s|
        ensures i > 0 ==> narrow[1..][i - 1] && s[1..][i - 1] == s[i]
      {
      }
      if PopAll(s, narrow).Some? {
        assert [s[0]] + s[1..][..|narrow| - 1] == s[..|narrow|];
        assert s[1..][|narrow| - 1..] == s[|narrow|..];
      }
    }
  }

  type Isa = (Context, Choice) -> Effect

  /** What an instruction does to its own context, and what it asks of the interpreter. */
  datatype Effect =
    | Stay(c: Context)
    | Goto(c: Context, target: nat)
    | Raise
    | Escape
    | Enter(c: Context, frames: seq<Frame>, input: seq<byte>, call: Option<(u64, u64)>)
    | Return(c: Context, output: seq<byte>)
    | Halt(c: Context)

  /** The parts of a context that instructions leave alone. */
  ghost predicate Kept(c: Context, d: Context)
  {
    && d.code == c.code && d.dests == c.dests && d.pc == c.pc && d.pcChanged == c.pcChanged && d.handler == c.handler
    && |d.mem| <= MAX_MEM_SIZE
  }

  /** Instructions other than pushes keep the counter, or send it to a jump destination. */
  ghost predicate Quiet(c: Context, e: Effect)
  {
    |c.mem| <= MAX_MEM_SIZE ==>
      match e
      case Stay(d) => Kept(c, d)
      case Goto(d, target) => Kept(c, d) && target in c.dests
      case Enter(d, _, _, _) => Kept(c, d)
      case Return(d, _) => Kept(c, d)
      case _ => true
  }

  /** An effect whose context, if any, has a stack within the limit. */
  ghost predicate EffectWithin(e: Effect)
  {
    match e
    case Stay(c) => |c.stack| <= MAX_STACK
    case Goto(c, _) => |c.stack| <= MAX_STACK
    case Enter(c, _, _, _) => |c.stack| <= MAX_STACK
    case Return(c, _) => |c.stack| <= MAX_STACK
    case _ => true
  }

  /** The stack does not outgrow its limit. */
  ghost predicate StackBounded(c: Context, e: Effect)
  {
    |c.stack| <= MAX_STACK ==> EffectWithin(e)
  }

  function PushWord(c: Context, w: nat): (e: Effect)
    ensures Quiet(c, e) && StackBounded(c, e)
  {
    if |c.stack| == MAX_STACK then Raise else Stay(c.(stack := [w] + c.stack))
  }

  function DoPush(c: Context): (e: Effect)
    requires c.pc < |c.code| && PUSH0 <= c.code[c.pc] <= PUSH32
    ensures StackBounded(c, e)
  {
    var bytes := c.code[c.pc] - PUSH1 + 1;
    if c.pc + bytes >= |c.code| || |c.stack| == MAX_STACK then Raise
    else Goto(c.(stack := [Be(c.code[c.pc + 1..c.pc + 1 + bytes])] + c.stack), c.pc + 1 + bytes)
  }

  function DoStack(c: Context, op: byte): (e: Effect)
    requires op == 0x50 || 0x80 <= op <= 0x9f
    ensures Quiet(c, e) && (StackBounded(c, e) || (0x80 <= op <= 0x8f && |c.stack| == MAX_STACK))
  {
    if op == 0x50 then if c.stack == [] then Raise else Stay(c.(stack := c.stack[1..]))
    else if op <= 0x8f then
      var a := op - 0x80;
      if a >= |c.stack| then Raise else Stay(c.(stack := [c.stack[a]] + c.stack))
    else
      var i := op - 0x90 + 1;
      if i >= |c.stack| then Raise else Stay(c.(stack := c.stack[0 := c.stack[i]][i := c.stack[0]]))
  }

  function JumpTo(c: Context, target: nat): (e: Effect)
    ensures Quiet(c, e) && StackBounded(c, e)
  {
    if target in c.dests then Goto(c, target) else Raise
  }

  function DoJump(c: Context, op: byte): (e: Effect)
    requires op == 0x56 || op == 0x57
    ensures Quiet(c, e) && StackBounded(c, e)
  {
    if op == 0x56 then
      match PopAll(c.stack, [true])
      case None => Raise
      case Some(p) => JumpTo(c.(stack := p.1), p.0[0])
    else
      match PopAll(c.stack, [true, false])
      case None => Raise
      case Some(p) => if p.0[1] != 0 then JumpTo(c.(stack := p.1), p.0[0]) else Stay(c.(stack := p.1))
  }

  /** Instructions that only push a word they read. */
  predicate Reads(op: byte)
  {
    || op == 0x30 || 0x32 <= op <= 0x34 || op == 0x36 || op == 0x38 || op == 0x3a || op == 0x3d
    || op == 0x42 || op == 0x47 || 0x58 <= op <= 0x5a
  }

  /** Instructions that pop words and push one. */
  function Operands(op: byte, s: seq<nat>): (r: Option<seq<bool>>)
  {
    if op == 0x0a then Some([false, true])
    else if op == 0x08 || op == 0x09 then Some([false, false, false])
    else if op == 0x1a then Some(if s != [] && s[0] >= 32 then [false] else [false, false])
    else if op == 0x15 || op == 0x19 || op == 0x31 || op == 0x3b || op == 0x3f || op == 0x54 then Some([false])
    else if 0x01 <= op <= 0x0b || 0x10 <= op <= 0x1d then Some([false, false])
    else if op == 0x40 then Some([true])
    else if Reads(op) then Some([])
    else None
  }

  function ResultWord(c: Context, op: byte, ch: Choice): (w: nat)
  {
    if op == 0x30 then c.address
    else if op == 0x33 then c.caller
    else if op == 0x58 then c.pc
    else if op == 0x59 then (|c.mem| + 31) / 32 * 32
    else if op == 0x36 then |c.input|
    else if op == 0x3d then |c.returnData|
    else ch.word
  }

  function DoValue(c: Context, op: byte, narrow: seq<bool>, ch: Choice): (e: Effect)
    ensures Quiet(c, e) && StackBounded(c, e)
  {
    match PopAll(c.stack, narrow)
    case None => Raise
    case Some(p) => PushWord(c.(stack := p.1), ResultWord(c, op, ch))
  }

  /** The word of input at an offset: an offset whose end wraps leaves the interpreter with a foreign exception. */
  function DoCallDataLoad(c: Context): (e: Effect)
    ensures Quiet(c, e) && StackBounded(c, e)
  {
    match PopAll(c.stack, [true])
    case None => Raise
    case Some(p) => if p.0[0] + 32 >= TWO64 then Escape else PushWord(c.(stack := p.1), WordAt(c.input, p.0[0]))
  }

  function DoStore(c: Context): (e: Effect)
    ensures Quiet(c, e) && StackBounded(c, e)
  {
    if c.inStatic then Raise
    else match PopAll(c.stack, [false, false])
      case None => Raise
      case Some(p) => Stay(c.(stack := p.1))
  }

  /** Loads, stores, hashes and logs: they touch a memory range after popping. */
  function DoMemory(c: Context, op: byte, ch: Choice): (e: Effect)
    requires 0x51 <= op <= 0x53 || op == 0x20 || 0xa0 <= op <= 0xa4
    ensures Quiet(c, e) && StackBounded(c, e)
  {
    if 0xa0 <= op && c.inStatic then Raise
    else
      var narrow := if op == 0x51 then [true] else if op == 0x52 || op == 0x53 then [true, false]
                    else [true, true] + seq(if 0xa0 <= op then op - 0xa0 else 0, _ => false);
      match PopAll(c.stack, narrow)
      case None => Raise
      case Some(p) =>
        var size := if op == 0x51 || op == 0x52 then 32 else if op == 0x53 then 1 else p.0[1];
        match PrepareMemAccess(c.mem, p.0[0], size)
        case None => Raise
        case Some(mem) =>
          var d := c.(stack := p.1, mem := mem);
          if op == 0x51 then PushWord(d, Be(mem[p.0[0]..p.0[0] + 32]))
          else if op == 0x52 then Stay(d.(mem := Overwrite(mem, p.0[0], Fixed(p.0[1], 32))))
          else if op == 0x53 then Stay(d.(mem := Overwrite(mem, p.0[0], [p.0[1] % 256])))
          else if op == 0x20 then PushWord(d, ch.word)
          else Stay(d)
  }

  /** Copies of input, code, foreign code and return data into memory. */
  function DoCopy(c: Context, op: byte, ch: Choice): (e: Effect)
    requires op == 0x37 || op == 0x39 || op == 0x3c || op == 0x3e
    ensures Quiet(c, e) && StackBounded(c, e)
  {
    var first := if op == 0x3c then 1 else 0;
    var src := if op == 0x37 then c.input else if op == 0x39 then c.code
               else if op == 0x3c then ch.target else c.returnData;
    match PopAll(c.stack, if op == 0x3c then [false, true, true, true] else [true, true, true])
    case None => Raise
    case Some(p) =>
      match CopyMem(p.0[first], p.0[first + 1], p.0[first + 2], c.mem, src, 0)
      case None => Raise
      case Some(mem) => Stay(c.(stack := p.1, mem := mem))
  }

  /** A range of memory, after growing it. */
  function CopyFromMem(mem: seq<byte>, offset: u64, size: u64): (r: Option<(seq<byte>, seq<byte>)>)
    ensures r.Some? ==> |r.value.0| <= MAX_MEM_SIZE || |r.value.0| == |mem|
  {
    match PrepareMemAccess(mem, offset, size)
    case None => None
    case Some(m) => Some((m, m[offset..offset + size]))
  }

  function DoReturn(c: Context, revert: bool): (e: Effect)
    ensures Quiet(c, e) && StackBounded(c, e)
  {
    match PopAll(c.stack, [true, true])
    case None => Raise
    case Some(p) =>
      match CopyFromMem(c.mem, p.0[0], p.0[1])
      case None => Raise
      case Some(m) => if revert then Raise else Return(c.(stack := p.1, mem := m.0), m.1)
  }

  function DoSelfDestruct(c: Context, ch: Choice): (e: Effect)
    ensures Quiet(c, e) && StackBounded(c, e)
  {
    if c.inStatic || c.stack == [] || ch.refused then Raise else Halt(c.(stack := c.stack[1..]))
  }

  function DoCreate(c: Context, two: bool, ch: Choice): (e: Effect)
    ensures Quiet(c, e) && StackBounded(c, e)
  {
    if c.inStatic then Raise
    else match PopAll(c.stack, if two then [false, true, true, false] else [false, true, true])
      case None => Raise
      case Some(p) =>
        match CopyFromMem(c.mem, p.0[1], p.0[2])
        case None => Raise
        case Some(m) =>
          if ch.refused then Raise
          else Enter(c.(stack := p.1, mem := m.0), [Frame(m.1, false, c.address, ch.word)], [], None)
  }

  const CALL: byte := 0xf1
  const CALLCODE: byte := 0xf2
  const DELEGATECALL: byte := 0xf4
  const STATICCALL: byte := 0xfa

  /** The address in a word: its low 160 bits. */
  function AddressIn(w: nat): (a: nat)
  {
    w % 0x10000000000_0000000000_0000000000_0000000000
  }

  /** The contexts a call opens. STATICCALL falls through to CALL: a static context and on top of it an ordinary one,
      which takes the caller's address from the context that is current by then, the static one. */
  function CallFrames(c: Context, op: byte, callee: nat, code: seq<byte>): (frames: seq<Frame>)
  {
    if op == STATICCALL then [Frame(code, true, c.address, callee), Frame(code, false, callee, callee)]
    else if op == CALL then [Frame(code, false, c.address, callee)]
    else if op == CALLCODE then [Frame(code, false, c.address, c.address)]
    else [Frame(code, false, c.caller, c.address)]
  }

  /** A call whose operands are popped: the callee, the range for its input and the range for its output. */
  function CallWith(c: Context, op: byte, callee: nat, offIn: u64, sizeIn: u64, offOut: u64, sizeOut: u64,
                    ch: Choice): (e: Effect)
    ensures Quiet(c, e) && StackBounded(c, e)
  {
    if 1 <= callee <= 8 || ch.refused then Raise
    else if ch.target == [] then PushWord(c, 1)
    else match PrepareMemAccess(c.mem, offOut, sizeOut)
      case None => Raise
      case Some(mem) =>
        match CopyFromMem(mem, offIn, sizeIn)
        case None => Raise
        case Some(m) =>
          Enter(c.(mem := m.0), CallFrames(c, op, callee, ch.target), m.1, Some((offOut, sizeOut)))
  }

  function DoCall(c: Context, op: byte, ch: Choice): (e: Effect)
    requires op == CALL || op == CALLCODE || op == DELEGATECALL || op == STATICCALL
    ensures Quiet(c, e) && StackBounded(c, e)
  {
    var at := if op == DELEGATECALL || op == STATICCALL then 2 else 3;
    match PopAll(c.stack, (if at == 2 then [false, false] else [false, false, true]) + [true, true, true, true])
    case None => Raise
    case Some(p) =>
      CallWith(c.(stack := p.1), op, AddressIn(p.0[1]), p.0[at], p.0[at + 1], p.0[at + 2], p.0[at + 3], ch)
  }

  /** One instruction of the current context. */
  function Instruction(c: Context, ch: Choice): (e: Effect)
    requires c.pc < |c.code|
  {
    var op := c.code[c.pc];
    if PUSH0 <= op <= PUSH32 then DoPush(c)
    else if op == 0x50 || 0x80 <= op <= 0x9f then DoStack(c, op)
    else if op == 0x56 || op == 0x57 then DoJump(c, op)
    else if op == JUMPDEST then Stay(c)
    else if op == 0x35 then DoCallDataLoad(c)
    else if op == 0x55 then DoStore(c)
    else if 0x51 <= op <= 0x53 || op == 0x20 || 0xa0 <= op <= 0xa4 then DoMemory(c, op, ch)
    else if op == 0x37 || op == 0x39 || op == 0x3c || op == 0x3e then DoCopy(c, op, ch)
    else if op == 0x00 || op == 0xfe then Halt(c)
    else if op == 0xf3 || op == 0xfd then DoReturn(c, op == 0xfd)
    else if op == 0xff then DoSelfDestruct(c, ch)
    else if op == 0xf0 || op == 0xf5 then DoCreate(c, op == 0xf5, ch)
    else if op == CALL || op == CALLCODE || op == DELEGATECALL || op == STATICCALL then DoCall(c, op, ch)
    else match Operands(op, c.stack)
      case Some(narrow) => DoValue(c, op, narrow, ch)
      case None => Raise
  }

  /** The list of contexts after an instruction; the exception, if any, is still to be handled. */
  datatype Outcome = Running(ctxts: seq<Context>) | Threw(ctxts: seq<Context>) | Escaped

  /** No context moved, and none outgrew its memory. */
  ghost predicate AllKept(cs: seq<Context>, ds: seq<Context>)
  {
    |cs| == |ds| && forall i :: 0 <= i < |cs| && |cs[i].mem| <= MAX_MEM_SIZE ==> Kept(cs[i], ds[i])
  }

  /** Push a word on the stack of an outer context. */
  function PushOn(ctxts: seq<Context>, i: nat, w: nat): (r: Option<seq<Context>>)
    requires i < |ctxts|
    ensures r.Some? ==> AllKept(ctxts, r.value)
  {
    if |ctxts[i].stack| == MAX_STACK then None else Some(ctxts[i := ctxts[i].(stack := [w] + ctxts[i].stack)])
  }

  /** Deliver the output of a finished context to its caller. */
  function ReturnTo(ctxts: seq<Context>, h: Handler, output: seq<byte>, address: nat): (r: Option<seq<Context>>)
    requires h.Top? || h.parent < |ctxts|
    ensures r.Some? ==> AllKept(ctxts, r.value)
  {
    match h
    case Top => Some(ctxts)
    case CallReturn(parent, offOut, sizeOut) =>
      var c := ctxts[parent].(returnData := output);
      (match CopyMem(offOut, 0, sizeOut, c.mem, output, 0)
       case None => None
       case Some(mem) => PushOn(ctxts[parent := c.(mem := mem)], parent, 1))
    case CreateReturn(parent) => PushOn(ctxts[parent := ctxts[parent].(returnData := output)], parent, address)
  }

  function HaltTo(ctxts: seq<Context>, h: Handler): (r: Option<seq<Context>>)
    requires h.Top? || h.parent < |ctxts|
    ensures r.Some? ==> AllKept(ctxts, r.value)
  {
    match h
    case Top => Some(ctxts)
    case CallReturn(parent, _, _) => PushOn(ctxts, parent, 1)
    case CreateReturn(parent) => PushOn(ctxts, parent, 0)
  }

  function FailTo(ctxts: seq<Context>, h: Handler): (r: Option<seq<Context>>)
    requires h.Top? || h.parent < |ctxts|
    ensures r.Some? ==> AllKept(ctxts, r.value)
  {
    if h.Top? then Some(ctxts) else PushOn(ctxts, h.parent, 0)
  }

  ghost function Fresh(f: Frame, input: seq<byte>, h: Handler): (c: Context)
  {
    Context(f.code, JumpDests(f.code), 0, true, [], [], input, [], h, f.inStatic, f.caller, f.address)
  }

  /** Push contexts one after the other, each with its own copy of the input; the depth is checked each time. */
  ghost function EnterAll(ctxts: seq<Context>, frames: seq<Frame>, input: seq<byte>,
                          h: Handler): (o: Outcome)
    decreases |frames|
  {
    if frames == [] then Running(ctxts)
    else if |ctxts| >= MAX_CALL_DEPTH then Threw(ctxts)
    else EnterAll(ctxts + [Fresh(frames[0], input, h)], frames[1..], input, h)
  }

  /** Where a call or a creation made in context k reports. */
  function CallHandler(k: nat, call: Option<(u64, u64)>): (h: Handler)
  {
    if call.Some? then CallReturn(k, call.value.0, call.value.1) else CreateReturn(k)
  }

  /** Every context but the outermost has a caller further out. */
  predicate Linked(ctxts: seq<Context>)
  {
    forall i :: 0 <= i < |ctxts| ==> LinkAt(ctxts, i)
  }

  predicate LinkAt(ctxts: seq<Context>, i: nat)
    requires i < |ctxts|
  {
    if i == 0 then ctxts[i].handler.Top? else !ctxts[i].handler.Top? && ctxts[i].handler.parent < i
  }

  /** Carry out the effect of an instruction of the innermost context. */
  ghost function Perform(ctxts: seq<Context>, effect: Effect): (o: Outcome)
    requires ctxts != [] && Linked(ctxts)
  {
    var k := |ctxts| - 1;
    assert LinkAt(ctxts, k);
    var h := ctxts[k].handler;
    match effect
    case Stay(c) => Running(ctxts[k := c])
    case Goto(c, target) => Running(ctxts[k := c.(pc := target, pcChanged := true)])
    case Raise => Threw(ctxts)
    case Escape => Escaped
    case Enter(c, frames, input, call) =>
      EnterAll(ctxts[k := c], frames, input, CallHandler(k, call))
    case Return(c, output) =>
      (match ReturnTo(ctxts[k := c], h, output, ctxts[k].address)
       case None => Threw(ctxts[k := c])
       case Some(cs) => Running(cs[..k]))
    case Halt(c) =>
      (match HaltTo(ctxts[..k], h)
       case None => Threw(ctxts[..k])
       case Some(cs) => Running(cs))
  }

  /** One dispatch in the innermost context. */
  ghost function Dispatch(isa: Isa, ctxts: seq<Context>, ch: Choice): (o: Outcome)
    requires ctxts != [] && Linked(ctxts)
    requires ctxts[|ctxts| - 1].pc < |ctxts[|ctxts| - 1].code|
  {
    Perform(ctxts, isa(ctxts[|ctxts| - 1], ch))
  }

  /** The catch block: tell the caller of the current context, then drop the context. */
  ghost function Catch(ctxts: seq<Context>): (o: Outcome)
    requires ctxts != [] && Linked(ctxts)
  {
    var k := |ctxts| - 1;
    assert LinkAt(ctxts, k);
    match FailTo(ctxts, ctxts[k].handler)
    case None => Escaped
    case Some(cs) => Running(cs[..k])
  }

  /** Advance the counter unless it was just set. */
  function StepContext(c: Context): (r: Context)
  {
    if c.pcChanged then c.(pcChanged := false) else c.(pc := c.pc + 1)
  }

  /** The counter is on an instruction boundary of the code, or its next step puts it there. */
  ghost predicate Ready(c: Context)
  {
    && c.dests == JumpDests(c.code) && |c.mem| <= MAX_MEM_SIZE && IsStart(c.code, c.pc)
    && (!c.pcChanged ==> c.pc < |c.code| && Immediates(c.code[c.pc]) == 0)
  }

  /** The counter is on an instruction boundary. */
  ghost predicate AtStart(c: Context)
  {
    c.dests == JumpDests(c.code) && |c.mem| <= MAX_MEM_SIZE && IsStart(c.code, c.pc)
  }

  lemma StepReady(c: Context)
    requires Ready(c)
    ensures AtStart(StepContext(c)) && !StepContext(c).pcChanged
  {
    if !c.pcChanged {
      ReachesNext(c.code, 0, c.pc);
    }
  }

  /** What the effect of an instruction may be, for the counter to stay on boundaries. */
  ghost predicate Safe(c: Context, e: Effect)
    requires c.pc < |c.code|
  {
    match e
    case Stay(d) => Kept(c, d) && Immediates(c.code[c.pc]) == 0
    case Goto(d, target) => Kept(c, d) && IsStart(c.code, target)
    case Enter(d, frames, _, _) => Kept(c, d) && Immediates(c.code[c.pc]) == 0
    case Return(d, _) => Kept(c, d)
    case _ => true
  }

  lemma PushSafe(c: Context)
    requires AtStart(c) && c.pc < |c.code| && PUSH0 <= c.code[c.pc] <= PUSH32
    ensures Safe(c, DoPush(c))
  {
    ReachesNext(c.code, 0, c.pc);
  }

  /** Every instruction is safe. */
  lemma InstructionSafe(c: Context, ch: Choice)
    requires AtStart(c) && c.pc < |c.code|
    ensures Safe(c, Instruction(c, ch))
  {
    var op := c.code[c.pc];
    if PUSH0 <= op <= PUSH32 {
      PushSafe(c);
    }
  }

  /** The instructions as a value. What follows holds for every set of instructions that is safe. */
  function Instructions(): (isa: Isa)
  {
    (c: Context, ch: Choice) => if c.pc < |c.code| then Instruction(c, ch) else Raise
  }

  ghost predicate SafeAt(isa: Isa, c: Context, ch: Choice)
  {
    AtStart(c) && c.pc < |c.code| ==> Safe(c, isa(c, ch))
  }

  ghost predicate SafeIsa(isa: Isa)
  {
    forall c, ch :: SafeAt(isa, c, ch)
  }

  lemma InstructionsSafe()
    ensures SafeIsa(Instructions())
  {
    forall c, ch ensures SafeAt(Instructions(), c, ch) {
      if AtStart(c) && c.pc < |c.code| {
        InstructionSafe(c, ch);
      }
    }
  }

  /** Between instructions: every context is ready to go on. */
  ghost predicate Between(cs: seq<Context>)
  {
    |cs| <= MAX_CALL_DEPTH && Linked(cs) && forall i :: 0 <= i < |cs| ==> Ready(cs[i])
  }

  /** Before a dispatch: the innermost context is at an instruction, the others wait. */
  ghost predicate Head(cs: seq<Context>)
  {
    && 0 < |cs| <= MAX_CALL_DEPTH && Linked(cs) && AtStart(cs[|cs| - 1])
    && forall i :: 0 <= i < |cs| - 1 ==> Ready(cs[i])
  }

  /** The innermost context is about to be dropped, the others are ready. */
  ghost predicate Catchable(cs: seq<Context>)
  {
    0 < |cs| <= MAX_CALL_DEPTH && Linked(cs) && forall i :: 0 <= i < |cs| - 1 ==> Ready(cs[i])
  }

  lemma LinkedKept(cs: seq<Context>, ds: seq<Context>)
    requires Linked(cs) && |cs| == |ds| && forall i :: 0 <= i < |cs| ==> ds[i].handler == cs[i].handler
    ensures Linked(ds)
  {
    forall i | 0 <= i < |ds| ensures LinkAt(ds, i) {
      assert LinkAt(cs, i);
    }
  }

  lemma LinkedPrefix(cs: seq<Context>, k: nat)
    requires Linked(cs) && k <= |cs|
    ensures Linked(cs[..k])
  {
    forall i | 0 <= i < k ensures LinkAt(cs[..k], i) {
      assert LinkAt(cs, i);
    }
  }

  lemma LinkedPush(cs: seq<Context>, c: Context)
    requires Linked(cs) && cs != [] && !c.handler.Top? && c.handler.parent < |cs|
    ensures Linked(cs + [c])
  {
    forall i | 0 <= i < |cs| + 1 ensures LinkAt(cs + [c], i) {
      if i < |cs| {
        assert LinkAt(cs, i);
      }
    }
  }

  /** Dropping the innermost context after telling its caller leaves the others ready. */
  lemma DropKeeps(cs: seq<Context>, ds: seq<Context>, k: nat)
    requires Catchable(cs) && k == |cs| - 1 && |ds| >= k && AllKept(cs[..k], ds[..k])
    ensures Between(ds[..k])
  {
    LinkedPrefix(cs, k);
    LinkedKept(cs[..k], ds[..k]);
    forall i | 0 <= i < k ensures Ready(ds[..k][i]) {
      assert Ready(cs[i]) && Kept(cs[..k][i], ds[..k][i]);
    }
  }

  lemma CatchKeeps(cs: seq<Context>)
    requires Catchable(cs)
    ensures Catch(cs).Running? ==> Between(Catch(cs).ctxts)
    ensures !Catch(cs).Threw?
  {
    var k := |cs| - 1;
    assert LinkAt(cs, k);
    match FailTo(cs, cs[k].handler)
    case None =>
    case Some(ds) =>
      assert AllKept(cs[..k], ds[..k]) by { PrefixKept(cs, ds, k); }
      DropKeeps(cs, ds, k);
  }

  lemma PrefixKept(cs: seq<Context>, ds: seq<Context>, k: nat)
    requires AllKept(cs, ds) && k <= |cs|
    ensures AllKept(cs[..k], ds[..k])
  {
    forall i | 0 <= i < k && |cs[..k][i].mem| <= MAX_MEM_SIZE ensures Kept(cs[..k][i], ds[..k][i]) {
      assert Kept(cs[i], ds[i]);
    }
  }

  ghost predicate OutcomeOk(o: Outcome)
  {
    match o
    case Running(cs) => Between(cs)
    case Threw(cs) => Catchable(cs)
    case Escaped => true
  }

  /** Entering contexts keeps the depth within its limit and the callers ready. */
  lemma {:induction false} EnterKeeps(cs: seq<Context>, frames: seq<Frame>, input: seq<byte>, h: Handler)
    requires Between(cs) && cs != [] && !h.Top? && h.parent < |cs|
    ensures OutcomeOk(EnterAll(cs, frames, input, h))
    decreases |frames|
  {
    if frames != [] && |cs| < MAX_CALL_DEPTH {
      var c := Fresh(frames[0], input, h);
      LinkedPush(cs, c);
      EnterKeeps(cs + [c], frames[1..], input, h);
    }
  }

  lemma ReplaceLast(cs: seq<Context>, c: Context)
    requires Head(cs) && c.handler == cs[|cs| - 1].handler
    ensures Catchable(cs[|cs| - 1 := c])
    ensures Ready(c) ==> Between(cs[|cs| - 1 := c])
  {
    LinkedKept(cs, cs[|cs| - 1 := c]);
  }

  lemma PerformKeeps(cs: seq<Context>, effect: Effect)
    requires Head(cs) && cs[|cs| - 1].pc < |cs[|cs| - 1].code| && Safe(cs[|cs| - 1], effect)
    ensures OutcomeOk(Perform(cs, effect))
  {
    var k := |cs| - 1;
    assert LinkAt(cs, k);
    match effect
    case Stay(c) => ReplaceLast(cs, c);
    case Goto(c, target) => ReplaceLast(cs, c.(pc := target, pcChanged := true));
    case Raise =>
    case Escape =>
    case Enter(c, frames, input, call) =>
      ReplaceLast(cs, c);
      EnterKeeps(cs[k := c], frames, input, CallHandler(k, call));
    case Return(c, output) =>
      ReplaceLast(cs, c);
      ReturnKeeps(cs[k := c], cs[k].handler, output, cs[k].address);
    case Halt(c) => HaltKeeps(cs);
  }

  /** Every dispatch keeps the invariant, whatever the instruction and the outside world do. */
  lemma DispatchKeeps(isa: Isa, cs: seq<Context>, ch: Choice)
    requires SafeIsa(isa) && Head(cs) && cs[|cs| - 1].pc < |cs[|cs| - 1].code|
    ensures OutcomeOk(Dispatch(isa, cs, ch))
  {
    assert SafeAt(isa, cs[|cs| - 1], ch);
    PerformKeeps(cs, isa(cs[|cs| - 1], ch));
  }

  lemma ReturnKeeps(cs: seq<Context>, h: Handler, output: seq<byte>, address: nat)
    requires Catchable(cs) && (h.Top? || h.parent < |cs| - 1)
    ensures var r := ReturnTo(cs, h, output, address); r.Some? ==> Between(r.value[..|cs| - 1])
  {
    match ReturnTo(cs, h, output, address)
    case None =>
    case Some(ds) =>
      PrefixKept(cs, ds, |cs| - 1);
      DropKeeps(cs, ds, |cs| - 1);
  }

  lemma HaltKeeps(cs: seq<Context>)
    requires Head(cs)
    ensures var k := |cs| - 1; LinkAt(cs, k) && var r := HaltTo(cs[..k], cs[k].handler);
            if r.Some? then Between(r.value) else Catchable(cs[..k])
  {
    var k := |cs| - 1;
    assert LinkAt(cs, k);
    LinkedPrefix(cs, k);
    match HaltTo(cs[..k], cs[k].handler)
    case None =>
    case Some(ds) =>
      assert ds[..k] == ds;
      DropKeeps(cs, ds, k);
  }

  /** A run goes on, has ended with these contexts left, or was left by an exception. */
  datatype Progress = Continue(ctxts: seq<Context>) | Done(ctxts: seq<Context>) | Crashed

  /** After an instruction: stop when no context is left, else step the current one. */
  function StepLast(ctxts: seq<Context>): (p: Progress)
  {
    if ctxts == [] then Done([])
    else Continue(ctxts[|ctxts| - 1 := StepContext(ctxts[|ctxts| - 1])])
  }

  lemma StepKeeps(cs: seq<Context>)
    requires Between(cs)
    ensures StepLast(cs).Continue? ==> Head(StepLast(cs).ctxts)
  {
    if cs != [] {
      StepReady(cs[|cs| - 1]);
      LinkedKept(cs, cs[|cs| - 1 := StepContext(cs[|cs| - 1])]);
    }
  }

  ghost predicate ProgressOk(p: Progress)
  {
    p.Continue? ==> Head(p.ctxts)
  }

  /** One iteration of the run loop. */
  ghost function Iterate(isa: Isa, cs: seq<Context>, ch: Choice): (p: Progress)
    requires SafeIsa(isa) && Head(cs) && cs[|cs| - 1].pc < |cs[|cs| - 1].code|
    ensures ProgressOk(p)
  {
    DispatchKeeps(isa, cs, ch);
    match Dispatch(isa, cs, ch)
    case Escaped => Crashed
    case Running(ds) => StepKeeps(ds); StepLast(ds)
    case Threw(ds) =>
      CatchKeeps(ds);
      match Catch(ds)
      case Running(es) => StepKeeps(es); StepLast(es)
      case _ => Crashed
  }

  /** The end of the loop: the current context, which ran off its code, is halted. */
  function Finish(cs: seq<Context>): (p: Progress)
    requires cs != [] && Linked(cs)
  {
    var k := |cs| - 1;
    assert LinkAt(cs, k);
    match HaltTo(cs[..k], cs[k].handler)
    case None => Crashed
    case Some(ds) => Done(ds)
  }

  /** What one turn of the loop makes of the contexts. */
  type Turn = (seq<Context>, Choice) -> Progress

  ghost predicate KeepsHead(turn: Turn)
  {
    forall cs, ch :: Head(cs) ==> ProgressOk(turn(cs, ch))
  }

  /** The turn under a set of instructions: an iteration, or the end when the current context ran off its code. */
  ghost function TurnOf(isa: Isa): (turn: Turn)
    requires SafeIsa(isa)
  {
    (cs: seq<Context>, ch: Choice) =>
      if !Head(cs) then Crashed
      else if cs[|cs| - 1].pc >= |cs[|cs| - 1].code| then Finish(cs)
      else Iterate(isa, cs, ch)
  }

  lemma TurnKeepsHead(isa: Isa)
    requires SafeIsa(isa)
    ensures KeepsHead(TurnOf(isa))
  {
    forall cs: seq<Context>, ch | Head(cs) ensures ProgressOk(TurnOf(isa)(cs, ch)) {
      if cs[|cs| - 1].pc >= |cs[|cs| - 1].code| {
        assert TurnOf(isa)(cs, ch) == Finish(cs);
      } else {
        assert TurnOf(isa)(cs, ch) == Iterate(isa, cs, ch);
      }
    }
  }

  /** turn is the turn under isa; stated point by point, so that it is looked up where it is needed. */
  ghost predicate IsTurn(isa: Isa, turn: Turn)
    requires SafeIsa(isa)
  {
    forall cs, ch :: TurnAt(isa, turn, cs, ch)
  }

  ghost predicate TurnAt(isa: Isa, turn: Turn, cs: seq<Context>, ch: Choice)
    requires SafeIsa(isa)
  {
    turn(cs, ch) == TurnOf(isa)(cs, ch)
  }

  lemma FinishingTurn(isa: Isa, turn: Turn, cs: seq<Context>, ch: Choice)
    requires SafeIsa(isa) && IsTurn(isa, turn) && Head(cs) && cs[|cs| - 1].pc >= |cs[|cs| - 1].code|
    ensures turn(cs, ch) == Finish(cs)
  {
    assert TurnAt(isa, turn, cs, ch);
  }

  /** The run under the given answers from outside; without an answer the run has not gone further yet. */
  ghost function Run(turn: Turn, cs: seq<Context>, choices: seq<Choice>): (p: Progress)
    requires KeepsHead(turn) && Head(cs)
    ensures ProgressOk(p)
    decreases |choices|
  {
    if choices == [] then Continue(cs)
    else match turn(cs, choices[0])
      case Continue(ds) => Run(turn, ds, choices[1..])
      case p => p
  }

  lemma RunStep(turn: Turn, cs: seq<Context>, choices: seq<Choice>, n: nat)
    requires KeepsHead(turn) && Head(cs) && n < |choices|
    ensures var p := turn(cs, choices[n]);
            Run(turn, cs, choices[n..]) == if p.Continue? then Run(turn, p.ctxts, choices[n + 1..]) else p
  {
    assert choices[n..][0] == choices[n] && choices[n..][1..] == choices[n + 1..];
  }

  ghost function Start(code: seq<byte>, msg: Message): (cs: seq<Context>)
    ensures Head(cs)
  {
    var cs := [Fresh(Frame(code, false, msg.caller, msg.address), msg.input, Top)];
    assert LinkAt(cs, 0);
    cs
  }

  /** The run of a program under a safe set of instructions. */
  ghost function RunOf(isa: Isa, code: seq<byte>, msg: Message, choices: seq<Choice>): (p: Progress)
    requires SafeIsa(isa)
    ensures ProgressOk(p)
  {
    TurnKeepsHead(isa);
    Run(TurnOf(isa), Start(code, msg), choices)
  }

  /** The run of a program under the interpreter's own instructions. */
  ghost function RunProgram(code: seq<byte>, msg: Message, choices: seq<Choice>): (p: Progress)
    ensures ProgressOk(p)
  {
    InstructionsSafe();
    TurnKeepsHead(Instructions());
    Run(TurnOf(Instructions()), Start(code, msg), choices)
  }

  /** At most 1024 contexts, every memory within 2^25 bytes, every counter on a boundary of the linear scan,
      every caller further out than the context it called. */
  ghost predicate SafeState(cs: seq<Context>)
  {
    && 0 < |cs| <= MAX_CALL_DEPTH
    && (forall i :: 0 <= i < |cs| ==> |cs[i].mem| <= MAX_MEM_SIZE && IsStart(cs[i].code, cs[i].pc))
    && (forall i :: 0 < i < |cs| ==> !cs[i].handler.Top? && cs[i].handler.parent < i)
  }

  lemma HeadIsSafe(cs: seq<Context>)
    requires Head(cs)
    ensures SafeState(cs)
  {
    forall i | 0 <= i < |cs| ensures |cs[i].mem| <= MAX_MEM_SIZE && IsStart(cs[i].code, cs[i].pc) {
      assert i < |cs| - 1 ==> Ready(cs[i]);
    }
    forall i | 0 < i < |cs| ensures !cs[i].handler.Top? && cs[i].handler.parent < i {
      assert LinkAt(cs, i);
    }
  }

  /** Every state that a run reaches is safe: calls, returns, halts and exceptions included. */
  lemma EveryRunIsSafe(code: seq<byte>, msg: Message, choices: seq<Choice>)
    ensures var p := RunProgram(code, msg, choices); p.Continue? ==> SafeState(p.ctxts)
  {
    var p := RunProgram(code, msg, choices);
    if p.Continue? {
      HeadIsSafe(p.ctxts);
    }
  }

  /** No boundary lies inside push data, so no run ever dispatches push data. */
  lemma PushDataIsNotDispatched(code: seq<byte>, msg: Message, choices: seq<Choice>, i: nat, k: nat, j: nat)
    requires var p := RunProgram(code, msg, choices);
             p.Continue? && j < |p.ctxts| &&
             var c := p.ctxts[j].code; i < |c| && IsStart(c, i) && i < k < Next(c, i)
    ensures RunProgram(code, msg, choices).ctxts[j].pc != k
  {
    EveryRunIsSafe(code, msg, choices);
    NoStartInside(RunProgram(code, msg, choices).ctxts[j].code, 0, i, k);
  }

  /** The number of bytes a memory instruction touches. */
  function Touched(op: byte, s: seq<nat>): (n: nat)
  {
    if op == 0x51 || op == 0x52 then 32 else if op == 0x53 then 1 else if |s| > 1 then s[1] else 0
  }

  /** The byte at i after a memory instruction: stores write the word's bytes in their range, and new bytes are zero. */
  function ByteAfter(c: Context, op: byte, i: nat): (b: byte)
  {
    if op == 0x52 && |c.stack| >= 2 && c.stack[0] <= i < c.stack[0] + 32 then Fixed(c.stack[1], 32)[i - c.stack[0]]
    else if op == 0x53 && |c.stack| >= 2 && i == c.stack[0] then c.stack[1] % 256
    else Source(c.mem, i, 0)
  }

  /** Memory reaches to the end of the range, within the limit; its bytes are as above; a load pushes the word it
      reads. */
  ghost predicate Touches(c: Context, op: byte, d: Context, i: nat)
  {
    && |c.stack| > 0 && c.stack[0] + Touched(op, c.stack) <= MAX_MEM_SIZE
    && |d.mem| == (if |c.mem| < c.stack[0] + Touched(op, c.stack) then c.stack[0] + Touched(op, c.stack) else |c.mem|)
    && (i < |d.mem| ==> d.mem[i] == ByteAfter(c, op, i))
    && (op == 0x51 ==> d.stack == [Be(d.mem[c.stack[0]..c.stack[0] + 32])] + c.stack[1..])
  }

  lemma LoadTouches(c: Context, ch: Choice, i: nat)
    requires DoMemory(c, 0x51, ch).Stay?
    ensures Touches(c, 0x51, DoMemory(c, 0x51, ch).c, i)
  {
    PopOne(c.stack[0], c.stack[1..]);
    assert [c.stack[0]] + c.stack[1..] == c.stack;
  }

  lemma StoredOperands(c: Context, op: byte, ch: Choice)
    requires (op == 0x52 || op == 0x53) && DoMemory(c, op, ch).Stay?
    ensures |c.stack| >= 2 && c.stack[0] < TWO64
    ensures PopAll(c.stack, [true, false]) == Some(([c.stack[0], c.stack[1]], c.stack[2..]))
  {
    PopTwo(c.stack[0], c.stack[1], c.stack[2..]);
    assert [c.stack[0], c.stack[1]] + c.stack[2..] == c.stack;
  }

  lemma WordStored(c: Context, ch: Choice, i: nat)
    requires DoMemory(c, 0x52, ch).Stay?
    ensures Touches(c, 0x52, DoMemory(c, 0x52, ch).c, i)
  {
    StoredOperands(c, 0x52, ch);
  }

  lemma ByteStored(c: Context, ch: Choice, i: nat)
    requires DoMemory(c, 0x53, ch).Stay?
    ensures Touches(c, 0x53, DoMemory(c, 0x53, ch).c, i)
  {
    StoredOperands(c, 0x53, ch);
  }

  lemma RangeTouches(c: Context, op: byte, ch: Choice, i: nat)
    requires (op == 0x20 || 0xa0 <= op <= 0xa4) && DoMemory(c, op, ch).Stay?
    ensures Touches(c, op, DoMemory(c, op, ch).c, i)
  {
    FirstTwo(c.stack, [true, true] + seq(if 0xa0 <= op then op - 0xa0 else 0, _ => false));
  }

  /** What every memory instruction that succeeds does. */
  lemma MemoryEffect(c: Context, op: byte, ch: Choice, i: nat)
    requires 0x51 <= op <= 0x53 || op == 0x20 || 0xa0 <= op <= 0xa4
    requires DoMemory(c, op, ch).Stay?
    ensures Touches(c, op, DoMemory(c, op, ch).c, i)
  {
    if op == 0x51 {
      LoadTouches(c, ch, i);
    } else if op == 0x52 {
      WordStored(c, ch, i);
    } else if op == 0x53 {
      ByteStored(c, ch, i);
    } else {
      RangeTouches(c, op, ch, i);
    }
  }

  lemma FirstTwo(s: seq<nat>, narrow: seq<bool>)
    requires |narrow| >= 2 && PopAll(s, narrow).Some?
    ensures |s| >= 2 && PopAll(s, narrow).value.0[..2] == s[..2]
  {
    assert PopAll(s[1..], narrow[1..]).Some? && PopAll(s[1..][1..], narrow[1..][1..]).Some?;
  }

  /** Storing a word and loading it back gives the word, and loading changes no memory. */
  lemma StoreThenLoad(c: Context, offset: u64, w: nat, rest: seq<nat>, ch: Choice)
    requires c.stack == [offset, w] + rest && w < Pow256(32) && offset + 32 <= MAX_MEM_SIZE && |rest| < MAX_STACK
    ensures var stored := DoMemory(c, 0x52, ch);
            && stored.Stay? && stored.c.stack == rest
            && var loaded := DoMemory(stored.c.(stack := [offset] + rest), 0x51, ch);
               loaded.Stay? && loaded.c.stack == [w] + rest && loaded.c.mem == stored.c.mem
  {
    StoreEffect(c, offset, w, rest, ch);
    var mem := PrepareMemAccess(c.mem, offset, 32).value;
    LoadedBack(c.(stack := [offset] + rest, mem := Overwrite(mem, offset, Fixed(w, 32))), mem, offset, w, rest, ch);
  }

  lemma LoadedBack(c: Context, mem: seq<byte>, offset: u64, w: nat, rest: seq<nat>, ch: Choice)
    requires offset + 32 <= |mem| && offset + 32 <= MAX_MEM_SIZE && w < Pow256(32) && |rest| < MAX_STACK
    requires c.stack == [offset] + rest && c.mem == Overwrite(mem, offset, Fixed(w, 32))
    ensures DoMemory(c, 0x51, ch) == Stay(c.(stack := [w] + rest))
  {
    WordReadBack(mem, offset, w);
    LoadEffect(c, offset, rest, ch);
  }

  lemma StoreEffect(c: Context, offset: u64, w: nat, rest: seq<nat>, ch: Choice)
    requires c.stack == [offset, w] + rest && offset + 32 <= MAX_MEM_SIZE
    ensures DoMemory(c, 0x52, ch) ==
            Stay(c.(stack := rest, mem := Overwrite(PrepareMemAccess(c.mem, offset, 32).value, offset, Fixed(w, 32))))
  {
    PopTwo(offset, w, rest);
  }

  lemma LoadEffect(c: Context, offset: u64, rest: seq<nat>, ch: Choice)
    requires c.stack == [offset] + rest && offset + 32 <= |c.mem| && offset + 32 <= MAX_MEM_SIZE && |rest| < MAX_STACK
    ensures DoMemory(c, 0x51, ch) == Stay(c.(stack := [Be(c.mem[offset..offset + 32])] + rest))
  {
    PopOne(offset, rest);
  }

  lemma WordReadBack(mem: seq<byte>, offset: nat, w: nat)
    requires offset + 32 <= |mem| && w < Pow256(32)
    ensures Be(Overwrite(mem, offset, Fixed(w, 32))[offset..offset + 32]) == w
  {
    BeFixed(w, 32);
    assert Overwrite(mem, offset, Fixed(w, 32))[offset..offset + 32] == Fixed(w, 32);
  }

  lemma PopCons(a: nat, rest: seq<nat>, n: bool, narrow: seq<bool>, values: seq<nat>, left: seq<nat>)
    requires (n ==> a < TWO64) && PopAll(rest, narrow) == Some((values, left))
    ensures PopAll([a] + rest, [n] + narrow) == Some(([a] + values, left))
  {
    assert ([a] + rest)[1..] == rest && ([n] + narrow)[1..] == narrow;
  }

  lemma PopOne(a: nat, rest: seq<nat>)
    requires a < TWO64
    ensures PopAll([a] + rest, [true]) == Some(([a], rest))
  {
    PopCons(a, rest, true, [], [], rest);
    assert [a] + [] == [a] && [true] + [] == [true];
  }

  lemma PopTwo(a: nat, b: nat, rest: seq<nat>)
    requires a < TWO64
    ensures PopAll([a, b] + rest, [true, false]) == Some(([a, b], rest))
  {
    PopCons(b, rest, false, [], [], rest);
    assert [b] + [] == [b] && [false] + [] == [false];
    PopCons(a, [b] + rest, true, [false], [b], rest);
    assert [a] + ([b] + rest) == [a, b] + rest && [true] + [false] == [true, false] && [a] + [b] == [a, b];
  }

  /** Exchanging twice changes nothing, and a duplicate popped leaves the stack as it was. */
  lemma StackRoundTrips(c: Context, op: byte)
    requires (0x90 <= op <= 0x9f && op - 0x90 + 1 < |c.stack|) || (0x80 <= op <= 0x8f && op - 0x80 < |c.stack|)
    ensures var once := DoStack(c, op);
            once.Stay? && DoStack(once.c, if op <= 0x8f then 0x50 else op) == Stay(c)
  {
    var once := DoStack(c, op).c;
    if op <= 0x8f {
      assert once.stack[1..] == c.stack;
    } else {
      var i := op - 0x90 + 1;
      assert once.stack[0 := once.stack[i]][i := once.stack[0]] == c.stack;
    }
  }

  /** A caller that waits at its call instruction, with room on its stack. */
  ghost predicate WaitingCaller(cs: seq<Context>)
  {
    && |cs| >= 2 && Head(cs)
    && var caller := cs[|cs| - 2];
       !caller.pcChanged && |caller.stack| < MAX_STACK
  }

  /** A return resumes the caller after its call: success on the stack, the output in memory and as return data. */
  lemma ReturnResumesCaller(isa: Isa, cs: seq<Context>, ch: Choice, offOut: u64, sizeOut: u64)
    requires SafeIsa(isa) && WaitingCaller(cs) && offOut + sizeOut <= MAX_MEM_SIZE
    requires var c := cs[|cs| - 1];
             c.handler == CallReturn(|cs| - 2, offOut, sizeOut) && c.pc < |c.code| && isa(c, ch).Return?
    ensures var p, caller, output := Iterate(isa, cs, ch), cs[|cs| - 2], isa(cs[|cs| - 1], ch).output;
            && p.Continue? && |p.ctxts| == |cs| - 1 && p.ctxts[..|cs| - 2] == cs[..|cs| - 2]
            && p.ctxts[|cs| - 2] == caller.(pc := caller.pc + 1, stack := [1] + caller.stack, returnData := output,
                                            mem := CopyMem(offOut, 0, sizeOut, caller.mem, output, 0).value)
  {
    var k, e := |cs| - 1, isa(cs[|cs| - 1], ch);
    var caller := cs[k - 1];
    var after := caller.(stack := [1] + caller.stack, returnData := e.output,
                         mem := CopyMem(offOut, 0, sizeOut, caller.mem, e.output, 0).value);
    DeliverTo(cs[k := e.c], offOut, sizeOut, e.output, cs[k].address);
    assert Dispatch(isa, cs, ch) == Running(cs[..k - 1] + [after]);
  }

  lemma DeliverTo(cs: seq<Context>, offOut: u64, sizeOut: u64, output: seq<byte>, address: nat)
    requires |cs| >= 2 && |cs[|cs| - 2].stack| < MAX_STACK && offOut + sizeOut <= MAX_MEM_SIZE
    ensures var k := |cs| - 1;
            var caller, r := cs[k - 1], ReturnTo(cs, CallReturn(k - 1, offOut, sizeOut), output, address);
            r.Some? && r.value[..k] == cs[..k - 1] + [caller.(stack := [1] + caller.stack, returnData := output,
              mem := CopyMem(offOut, 0, sizeOut, caller.mem, output, 0).value)]
  {
  }

  /** An exception resumes the caller after its call with failure on the stack and nothing else changed. */
  lemma ExceptionResumesCaller(isa: Isa, cs: seq<Context>, ch: Choice)
    requires SafeIsa(isa) && WaitingCaller(cs)
    requires var c := cs[|cs| - 1];
             !c.handler.Top? && c.handler.parent == |cs| - 2 && c.pc < |c.code| && isa(c, ch).Raise?
    ensures var p, caller := Iterate(isa, cs, ch), cs[|cs| - 2];
            && p.Continue? && |p.ctxts| == |cs| - 1 && p.ctxts[..|cs| - 2] == cs[..|cs| - 2]
            && p.ctxts[|cs| - 2] == caller.(pc := caller.pc + 1, stack := [0] + caller.stack)
  {
  }

  /** Context i is the one that the innermost context reports to. */
  ghost predicate Reports(cs: seq<Context>, i: nat)
  {
    cs != [] && !cs[|cs| - 1].handler.Top? && cs[|cs| - 1].handler.parent == i
  }

  predicate Full(c: Context)
  {
    |c.stack| == MAX_STACK
  }

  /** Context i once it was told that the innermost context failed. */
  ghost function Told(cs: seq<Context>, i: nat): (c: Context)
    requires i < |cs|
  {
    if Reports(cs, i) then cs[i].(stack := [0] + cs[i].stack) else cs[i]
  }

  /** Of the contexts around the innermost one only the one it reports to can have changed, and that in stack, memory
      and return data only. */
  ghost predicate OuterKept(cs: seq<Context>, ds: seq<Context>)
  {
    && cs != [] && |ds| >= |cs| - 1
    && (forall i :: 0 <= i < |cs| - 1 && !Reports(cs, i) ==> ds[i] == cs[i])
    && (forall i :: 0 <= i < |cs| - 1 ==>
         ds[i].(stack := cs[i].stack, mem := cs[i].mem, returnData := cs[i].returnData) == cs[i])
  }

  lemma {:induction false} EnterOuter(cs: seq<Context>, frames: seq<Frame>, input: seq<byte>, h: Handler)
    ensures var o := EnterAll(cs, frames, input, h); !o.Escaped? && cs <= o.ctxts
    decreases |frames|
  {
    if frames != [] && |cs| < MAX_CALL_DEPTH {
      EnterOuter(cs + [Fresh(frames[0], input, h)], frames[1..], input, h);
    }
  }

  lemma PerformOuter(cs: seq<Context>, effect: Effect)
    requires cs != [] && Linked(cs)
    ensures var o := Perform(cs, effect); !o.Escaped? ==> OuterKept(cs, o.ctxts)
  {
    var k := |cs| - 1;
    assert LinkAt(cs, k);
    match effect
    case Enter(c, frames, input, call) =>
      EnterOuter(cs[k := c], frames, input, CallHandler(k, call));
    case _ =>
  }

  /** The interpreter's stack of contexts, changed in place. */
  class Processor {
    const isa: Isa
    var ctxts: seq<Context>

    constructor (instructions: Isa)
      requires SafeIsa(instructions)
      ensures Valid() && ctxts == [] && isa == instructions
    {
      isa := instructions;
      ctxts := [];
    }

    /** Between instructions. */
    ghost predicate Valid()
      reads this
    {
      SafeIsa(isa) && Between(ctxts)
    }

    /** The innermost context is at an instruction. */
    ghost predicate AtInstruction()
      reads this
    {
      SafeIsa(isa) && Head(ctxts) && ctxts[|ctxts| - 1].pc < |ctxts[|ctxts| - 1].code|
    }

    /** Open a context, if the depth allows. */
    method PushContext(f: Frame, input: seq<byte>, h: Handler) returns (ok: bool)
      modifies this
      ensures ok <==> |old(ctxts)| < MAX_CALL_DEPTH
      ensures ctxts == if ok then old(ctxts) + [Fresh(f, input, h)] else old(ctxts)
    {
      if |ctxts| >= MAX_CALL_DEPTH {
        return false;
      }
      var dests := ComputeJumpDests(f.code);
      ctxts := ctxts + [Context(f.code, dests, 0, true, [], [], input, [], h, f.inStatic, f.caller, f.address)];
      ok := true;
    }

    method EnterContexts(frames: seq<Frame>, input: seq<byte>, h: Handler) returns (ok: bool)
      modifies this
      ensures EnterAll(old(ctxts), frames, input, h) == if ok then Running(ctxts) else Threw(ctxts)
    {
      var i := 0;
      while i < |frames|
        invariant 0 <= i <= |frames|
        invariant EnterAll(old(ctxts), frames, input, h) == EnterAll(ctxts, frames[i..], input, h)
      {
        ok := PushContext(frames[i], input, h);
        if !ok {
          return;
        }
        assert frames[i..][1..] == frames[i + 1..];
        i := i + 1;
      }
      ok := true;
    }

    /** Carry out a safe effect: the contexts change in place, the result says whether an exception is under way.
        Afterwards every context is ready, or all but the one the exception is about to drop. The innermost context
        is replaced or dropped, and of the others only the one it reports to can change. */
    method CarryOut(effect: Effect) returns (o: Outcome)
      requires AtInstruction() && Safe(ctxts[|ctxts| - 1], effect)
      modifies this
      ensures o.Running? ==> Valid()
      ensures o.Threw? ==> Catchable(ctxts)
      ensures !o.Escaped? ==> OuterKept(old(ctxts), ctxts)
      ensures o == Perform(old(ctxts), effect) && (!o.Escaped? ==> ctxts == o.ctxts)
    {
      PerformKeeps(ctxts, effect);
      PerformOuter(ctxts, effect);
      var k := |ctxts| - 1;
      assert LinkAt(ctxts, k);
      var h, address := ctxts[k].handler, ctxts[k].address;
      match effect
      case Stay(c) =>
        ctxts := ctxts[k := c];
        o := Running(ctxts);
      case Goto(c, target) =>
        ctxts := ctxts[k := c.(pc := target, pcChanged := true)];
        o := Running(ctxts);
      case Raise =>
        o := Threw(ctxts);
      case Escape =>
        o := Escaped;
      case Enter(c, frames, input, call) =>
        ctxts := ctxts[k := c];
        var ok := EnterContexts(frames, input, CallHandler(k, call));
        o := if ok then Running(ctxts) else Threw(ctxts);
      case Return(c, output) =>
        ctxts := ctxts[k := c];
        var r := ReturnTo(ctxts, h, output, address);
        if r.None? {
          return Threw(ctxts);
        }
        ctxts := r.value[..k];
        o := Running(ctxts);
      case Halt(c) =>
        ctxts := ctxts[..k];
        var r := HaltTo(ctxts, h);
        if r.None? {
          return Threw(ctxts);
        }
        ctxts := r.value;
        o := Running(ctxts);
    }

    /** The catch block: the innermost context is dropped, its caller gets a zero, no other context changes, and all
        that remain are ready. False exactly when there is a caller and its stack is full. */
    method HandleException() returns (ok: bool)
      requires SafeIsa(isa) && Catchable(ctxts)
      modifies this
      ensures ok ==> Valid() && |ctxts| == |old(ctxts)| - 1
      ensures ok ==> forall i :: 0 <= i < |ctxts| ==> ctxts[i] == Told(old(ctxts), i)
      ensures !ok <==> exists i :: 0 <= i < |old(ctxts)| - 1 && Reports(old(ctxts), i) && Full(old(ctxts)[i])
      ensures !ok ==> ctxts == old(ctxts)
      ensures Catch(old(ctxts)) == if ok then Running(ctxts) else Escaped
    {
      CatchKeeps(ctxts);
      var k := |ctxts| - 1;
      assert LinkAt(ctxts, k);
      var r := FailTo(ctxts, ctxts[k].handler);
      if r.None? {
        assert Reports(ctxts, ctxts[k].handler.parent);
        return false;
      }
      ctxts := r.value[..k];
      ok := true;
    }

    /** One pass through the loop: dispatch, handle an exception, step. */
    method Pass(ch: Choice) returns (p: Progress)
      requires AtInstruction()
      modifies this
      ensures p.Continue? ==> Head(ctxts)
      ensures p == TurnOf(isa)(old(ctxts), ch) && (p.Continue? ==> ctxts == p.ctxts)
    {
      DispatchKeeps(isa, ctxts, ch);
      assert SafeAt(isa, ctxts[|ctxts| - 1], ch);
      var o := CarryOut(isa(ctxts[|ctxts| - 1], ch));
      if o.Escaped? {
        return Crashed;
      }
      if o.Threw? {
        var ok := HandleException();
        if !ok {
          return Crashed;
        }
      }
      StepKeeps(ctxts);
      p := StepLast(ctxts);
      if p.Continue? {
        ctxts := p.ctxts;
      }
    }

    /** One pass, for a turn that is known to be this one's. */
    method PassAs(ch: Choice, ghost turn: Turn) returns (p: Progress)
      requires AtInstruction() && IsTurn(isa, turn)
      modifies this
      ensures p == turn(old(ctxts), ch) && (p.Continue? ==> ctxts == p.ctxts)
    {
      assert TurnAt(isa, turn, ctxts, ch);
      p := Pass(ch);
    }

    /** The loop, from the current contexts on. */
    method Loop(choices: seq<Choice>, ghost turn: Turn) returns (p: Progress)
      requires SafeIsa(isa) && Head(ctxts) && IsTurn(isa, turn) && KeepsHead(turn)
      modifies this
      ensures p == Run(turn, old(ctxts), choices) && (p.Continue? ==> ctxts == p.ctxts)
    {
      var n := 0;
      ghost var goal := Run(turn, ctxts, choices);
      assert choices[0..] == choices;
      while n < |choices| && ctxts[|ctxts| - 1].pc < |ctxts[|ctxts| - 1].code|
        invariant 0 <= n <= |choices| && Head(ctxts)
        invariant Run(turn, ctxts, choices[n..]) == goal
      {
        RunStep(turn, ctxts, choices, n);
        p := PassAs(choices[n], turn);
        if !p.Continue? {
          return;
        }
        n := n + 1;
      }
      if n == |choices| {
        return Continue(ctxts);
      }
      RunStep(turn, ctxts, choices, n);
      FinishingTurn(isa, turn, ctxts, choices[n]);
      p := Finish(ctxts);
    }

    /** Run a program against the answers from outside. */
    method Execute(code: seq<byte>, msg: Message, choices: seq<Choice>) returns (p: Progress)
      requires SafeIsa(isa)
      modifies this
      ensures p == RunOf(isa, code, msg, choices)
      ensures p.Continue? ==> ctxts == p.ctxts && SafeState(ctxts)
    {
      ctxts := [];
      var ok := PushContext(Frame(code, false, msg.caller, msg.address), msg.input, Top);
      assert ctxts == Start(code, msg);
      TurnKeepsHead(isa);
      p := Loop(choices, TurnOf(isa));
      if p.Continue? {
        HeadIsSafe(ctxts);
      }
    }
  }
}
