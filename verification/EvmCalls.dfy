/** Calls and creations: when they open a context, what it is opened with, and what the caller is told in the end. */
module EvmCalls {
  import opened Wrappers
  import opened ByteStrings
  import opened EvmMemory
  import opened Evm
  import opened EvmInstructions

  predicate IsCall(op: byte)
  {
    op == CALL || op == CALLCODE || op == DELEGATECALL || op == STATICCALL
  }

  /** Where the four 64-bit operands start: after gas and address, and for two of the calls the value. */
  function RangesAt(op: byte): (at: nat)
  {
    if op == CALL || op == CALLCODE then 3 else 2
  }

  /** The operands pop, the address is no precompiled one, and the account interface does not refuse. */
  predicate Addresses(c: Context, op: byte, ch: Choice)
  {
    && Narrow(c.stack, 2, RangesAt(op) + 4) && !(1 <= AddressIn(c.stack[1]) <= 8) && !ch.refused
  }

  /** There is code at the address, and both memory ranges are within the limit. */
  predicate GoesIn(c: Context, op: byte, ch: Choice)
  {
    && Addresses(c, op, ch) && ch.target != []
    && var at := RangesAt(op);
       c.stack[at] + c.stack[at + 1] <= MAX_MEM_SIZE && c.stack[at + 2] + c.stack[at + 3] <= MAX_MEM_SIZE
  }

  lemma CallOperands(s: seq<nat>, at: nat)
    requires at == 2 || at == 3
    ensures var narrow := (if at == 2 then [false, false] else [false, false, true]) + [true, true, true, true];
            && |narrow| == at + 4 && (PopAll(s, narrow).Some? <==> Narrow(s, 2, at + 4))
            && (PopAll(s, narrow).Some? ==> PopAll(s, narrow).value == (s[..at + 4], s[at + 4..]))
  {
    var narrow := (if at == 2 then [false, false] else [false, false, true]) + [true, true, true, true];
    PopAllIff(s, narrow);
    assert forall i :: 0 <= i < |narrow| ==> (narrow[i] <==> i >= 2);
  }

  /** The end of the range that reaches further. */
  function FarEnd(c: Context, at: nat): (end: nat)
    requires |c.stack| >= at + 4
  {
    var a, b := c.stack[at] + c.stack[at + 1], c.stack[at + 2] + c.stack[at + 3];
    if a < b then b else a
  }

  /** What a call that goes in leaves of its context and passes on: the operands are popped, the memory reaches to both
      ranges, the input is the memory of the first range, the second range is for the output. */
  predicate Passes(c: Context, op: byte, e: Effect)
    requires |c.stack| >= RangesAt(op) + 4
  {
    var at := RangesAt(op);
    && e.Enter? && e.c == c.(stack := c.stack[at + 4..], mem := e.c.mem) && Grown(c.mem, e.c.mem, FarEnd(c, at))
    && |e.input| == c.stack[at + 1] && BytesOf(c.mem, c.stack[at], e.input)
    && e.call == Some((c.stack[at + 2], c.stack[at + 3]))
  }

  lemma GrowTwice(mem: seq<byte>, a: u64, n: u64, b: u64, m: u64)
    requires a + n <= MAX_MEM_SIZE && b + m <= MAX_MEM_SIZE
    ensures var first := PrepareMemAccess(mem, b, m);
            && first.Some?
            && var r := CopyFromMem(first.value, a, n);
               && r.Some? && Grown(mem, r.value.0, if a + n < b + m then b + m else a + n)
               && |r.value.1| == n && BytesOf(mem, a, r.value.1)
  {
  }

  /** The same with the operands popped. */
  ghost predicate CallsWith(c: Context, op: byte, callee: nat, a: nat, n: nat, b: nat, m: nat, ch: Choice, e: Effect)
  {
    if 1 <= callee <= 8 || ch.refused then e.Raise?
    else if ch.target == [] then if |c.stack| == MAX_STACK then e.Raise? else e == Stay(c.(stack := [1] + c.stack))
    else if a + n <= MAX_MEM_SIZE && b + m <= MAX_MEM_SIZE
    then && e.Enter? && e.c == c.(mem := e.c.mem)
         && Grown(c.mem, e.c.mem, if a + n < b + m then b + m else a + n)
         && |e.input| == n && BytesOf(c.mem, a, e.input) && e.call == Some((b, m))
         && e.frames == CallFrames(c, op, callee, ch.target)
    else e.Raise?
  }

  lemma WithMeans(c: Context, op: byte, callee: nat, a: u64, n: u64, b: u64, m: u64, ch: Choice)
    ensures CallsWith(c, op, callee, a, n, b, m, ch, CallWith(c, op, callee, a, n, b, m, ch))
  {
    if a + n <= MAX_MEM_SIZE && b + m <= MAX_MEM_SIZE {
      GrowTwice(c.mem, a, n, b, m);
    }
  }

  /** A call with its operands on the stack is the call with them popped. */
  lemma CallPops(c: Context, op: byte, ch: Choice)
    requires IsCall(op)
    ensures var at := RangesAt(op);
            if Narrow(c.stack, 2, at + 4)
            then DoCall(c, op, ch) ==
                 CallWith(c.(stack := c.stack[at + 4..]), op, AddressIn(c.stack[1]),
                          c.stack[at], c.stack[at + 1], c.stack[at + 2], c.stack[at + 3], ch)
            else DoCall(c, op, ch).Raise?
  {
    CallOperands(c.stack, RangesAt(op));
  }

  /** A call enters exactly when it goes in; without code at the address it succeeds at once; otherwise it fails. */
  ghost predicate Calls(c: Context, op: byte, ch: Choice, e: Effect)
  {
    var at := RangesAt(op);
    if GoesIn(c, op, ch) then Passes(c, op, e) && e.frames == CallFrames(c, op, AddressIn(c.stack[1]), ch.target)
    else if Addresses(c, op, ch) && ch.target == [] && |c.stack| != MAX_STACK + at + 4
    then e == Stay(c.(stack := [1] + c.stack[at + 4..]))
    else e.Raise?
  }

  lemma CallDoes(c: Context, op: byte, ch: Choice, d: Context, callee: nat, e: Effect)
    requires IsCall(op) && Narrow(c.stack, 2, RangesAt(op) + 4) && callee == AddressIn(c.stack[1])
    requires d == c.(stack := c.stack[RangesAt(op) + 4..])
    requires var at := RangesAt(op);
             CallsWith(d, op, callee, c.stack[at], c.stack[at + 1], c.stack[at + 2], c.stack[at + 3], ch, e)
    ensures Calls(c, op, ch, e)
  {
  }

  lemma CallIs(c: Context, op: byte, ch: Choice)
    requires IsCall(op) && At(c, op)
    ensures Instruction(c, ch) == DoCall(c, op, ch)
  {
  }

  lemma CallMeans(c: Context, op: byte, ch: Choice)
    requires IsCall(op) && At(c, op)
    ensures Calls(c, op, ch, Instruction(c, ch))
  {
    var at := RangesAt(op);
    CallIs(c, op, ch);
    CallPops(c, op, ch);
    if Narrow(c.stack, 2, at + 4) {
      var d, callee := c.(stack := c.stack[at + 4..]), AddressIn(c.stack[1]);
      WithMeans(d, op, callee, c.stack[at], c.stack[at + 1], c.stack[at + 2], c.stack[at + 3], ch);
      CallDoes(c, op, ch, d, callee, Instruction(c, ch));
    }
  }

  /** The parts of a newly opened context that are the same for all. */
  predicate Opened(d: Context, code: seq<byte>, h: Handler)
  {
    d.code == code && d.pc == 0 && d.pcChanged && d.mem == [] && d.stack == [] && d.returnData == [] && d.handler == h
  }

  /** CALL, CALLCODE and DELEGATECALL open one context with the callee's code, the input from memory and an ordinary
      mode, whatever the mode of the caller. CALL acts for the callee, the others for the account that calls;
      DELEGATECALL also keeps its caller. */
  ghost predicate OpenedOne(cs: seq<Context>, op: byte, ch: Choice, o: Outcome)
    requires cs != [] && Narrow(cs[|cs| - 1].stack, 2, RangesAt(op) + 4)
  {
    && o.Running? && |o.ctxts| == |cs| + 1 && o.ctxts[..|cs| - 1] == cs[..|cs| - 1]
    && var c, d, at := cs[|cs| - 1], o.ctxts[|cs|], RangesAt(op);
       && Opened(d, ch.target, CallReturn(|cs| - 1, c.stack[at + 2], c.stack[at + 3])) && !d.inStatic
       && |d.input| == c.stack[at + 1] && BytesOf(c.mem, c.stack[at], d.input)
       && d.caller == (if op == DELEGATECALL then c.caller else c.address)
       && d.address == (if op == CALL then AddressIn(c.stack[1]) else c.address)
       && var b := o.ctxts[|cs| - 1];
          b == c.(stack := c.stack[at + 4..], mem := b.mem) && Grown(c.mem, b.mem, FarEnd(c, at))
  }

  lemma EnterOne(cs: seq<Context>, f: Frame, input: seq<byte>, h: Handler)
    ensures EnterAll(cs, [f], input, h) ==
            if |cs| >= MAX_CALL_DEPTH then Threw(cs) else Running(cs + [Fresh(f, input, h)])
  {
    assert [f][1..] == [];
  }

  lemma PerformEnter(cs: seq<Context>, e: Effect)
    requires cs != [] && Linked(cs) && e.Enter? && |e.frames| == 1
    ensures Perform(cs, e) ==
            if |cs| >= MAX_CALL_DEPTH then Threw(cs[|cs| - 1 := e.c])
            else Running(cs[|cs| - 1 := e.c] + [Fresh(e.frames[0], e.input, CallHandler(|cs| - 1, e.call))])
  {
    assert e.frames == [e.frames[0]];
    EnterOne(cs[|cs| - 1 := e.c], e.frames[0], e.input, CallHandler(|cs| - 1, e.call));
  }

  /** One of those calls opens its context exactly when it goes in and the depth has room. */
  lemma CallOpens(cs: seq<Context>, op: byte, ch: Choice)
    requires IsCall(op) && op != STATICCALL && Head(cs) && At(cs[|cs| - 1], op)
    ensures var o, goesIn := Dispatch(Instructions(), cs, ch), GoesIn(cs[|cs| - 1], op, ch);
            && (goesIn && |cs| < MAX_CALL_DEPTH ==> OpenedOne(cs, op, ch, o))
            && (o.Running? && |o.ctxts| > |cs| ==> goesIn && |cs| < MAX_CALL_DEPTH)
            && (goesIn && |cs| == MAX_CALL_DEPTH ==> o.Threw? && |o.ctxts| == |cs|)
  {
    var c := cs[|cs| - 1];
    CallMeans(c, op, ch);
    var e := Instruction(c, ch);
    assert Instructions()(c, ch) == e;
    if e.Enter? {
      PerformEnter(cs, e);
    }
  }

  const CREATE: byte := 0xf0
  const CREATE2: byte := 0xf5

  /** Not in static mode, with the operands to pop, the code within the memory limit, and no refusal. */
  predicate Creates(c: Context, two: bool, ch: Choice)
  {
    && !c.inStatic && |c.stack| >= (if two then 4 else 3) && c.stack[1] < TWO64 && c.stack[2] < TWO64
    && c.stack[1] + c.stack[2] <= MAX_MEM_SIZE && !ch.refused
  }

  /** A creation runs the code in memory for the new account, without input. */
  ghost predicate CreatesWith(c: Context, two: bool, ch: Choice, e: Effect)
  {
    if Creates(c, two, ch)
    then && e.Enter? && e.c == c.(stack := c.stack[if two then 4 else 3..], mem := e.c.mem)
         && Grown(c.mem, e.c.mem, c.stack[1] + c.stack[2]) && e.input == [] && e.call == None
         && |e.frames| == 1 && e.frames[0] == Frame(e.frames[0].code, false, c.address, ch.word)
         && |e.frames[0].code| == c.stack[2] && BytesOf(c.mem, c.stack[1], e.frames[0].code)
    else e.Raise?
  }

  lemma CreateDoes(c: Context, two: bool, ch: Choice)
    ensures CreatesWith(c, two, ch, DoCreate(c, two, ch))
  {
    PopAllIff(c.stack, if two then [false, true, true, false] else [false, true, true]);
    if |c.stack| >= 3 && c.stack[1] < TWO64 && c.stack[2] < TWO64 {
      CopiedOut(c.mem, c.stack[1], c.stack[2]);
    }
  }

  lemma CreateMeans(c: Context, two: bool, ch: Choice)
    requires At(c, if two then CREATE2 else CREATE)
    ensures CreatesWith(c, two, ch, Instruction(c, ch))
  {
    CreateDoes(c, two, ch);
    assert Instruction(c, ch) == DoCreate(c, two, ch);
  }

  /** It reports to the context that creates. */
  lemma CreationOpens(cs: seq<Context>, two: bool, ch: Choice)
    requires Head(cs) && At(cs[|cs| - 1], if two then CREATE2 else CREATE) && Creates(cs[|cs| - 1], two, ch)
    ensures var o, c := Dispatch(Instructions(), cs, ch), cs[|cs| - 1];
            if |cs| < MAX_CALL_DEPTH
            then && o.Running? && |o.ctxts| == |cs| + 1 && o.ctxts[..|cs| - 1] == cs[..|cs| - 1]
                 && var d := o.ctxts[|cs|];
                    && Opened(d, d.code, CreateReturn(|cs| - 1)) && d.input == [] && !d.inStatic
                    && d.caller == c.address && d.address == ch.word
                    && |d.code| == c.stack[2] && BytesOf(c.mem, c.stack[1], d.code)
            else o.Threw? && |o.ctxts| == |cs|
  {
    var c := cs[|cs| - 1];
    CreateMeans(c, two, ch);
    var e := Instruction(c, ch);
    assert Instructions()(c, ch) == e;
    PerformEnter(cs, e);
  }

  /** A creation that returns gives the creator the new address, and what it returned as return data. */
  lemma CreationResumes(isa: Isa, cs: seq<Context>, ch: Choice)
    requires SafeIsa(isa) && WaitingCaller(cs)
    requires var c := cs[|cs| - 1];
             c.handler == CreateReturn(|cs| - 2) && c.pc < |c.code| && isa(c, ch).Return?
    ensures var p, caller, c := Iterate(isa, cs, ch), cs[|cs| - 2], cs[|cs| - 1];
            && p.Continue? && |p.ctxts| == |cs| - 1 && p.ctxts[..|cs| - 2] == cs[..|cs| - 2]
            && p.ctxts[|cs| - 2] == caller.(pc := caller.pc + 1, stack := [c.address] + caller.stack,
                                            returnData := isa(c, ch).output)
  {
    var k, e := |cs| - 1, isa(cs[|cs| - 1], ch);
    var caller := cs[k - 1];
    var after := caller.(stack := [cs[k].address] + caller.stack, returnData := e.output);
    assert ReturnTo(cs[k := e.c], CreateReturn(k - 1), e.output, cs[k].address).value[..k] == cs[..k - 1] + [after];
    assert Dispatch(isa, cs, ch) == Running(cs[..k - 1] + [after]);
  }

  /** A context that halts gives its caller 1 after a call and 0 after a creation, and changes nothing else there. */
  lemma HaltResumes(isa: Isa, cs: seq<Context>, ch: Choice)
    requires SafeIsa(isa) && WaitingCaller(cs)
    requires var c := cs[|cs| - 1];
             !c.handler.Top? && c.handler.parent == |cs| - 2 && c.pc < |c.code| && isa(c, ch).Halt?
    ensures var p, caller := Iterate(isa, cs, ch), cs[|cs| - 2];
            && p.Continue? && |p.ctxts| == |cs| - 1 && p.ctxts[..|cs| - 2] == cs[..|cs| - 2]
            && p.ctxts[|cs| - 2] == caller.(pc := caller.pc + 1,
                 stack := [if cs[|cs| - 1].handler.CallReturn? then 1 else 0] + caller.stack)
  {
    var k := |cs| - 1;
    var word := if cs[k].handler.CallReturn? then 1 else 0;
    var after := cs[k - 1].(stack := [word] + cs[k - 1].stack);
    assert HaltTo(cs[..k], cs[k].handler).value == cs[..k - 1] + [after];
    assert Dispatch(isa, cs, ch) == Running(cs[..k - 1] + [after]);
  }

  /** When the outermost context returns or halts, nothing is left and the run has ended. */
  lemma OutermostEnds(isa: Isa, cs: seq<Context>, ch: Choice)
    requires SafeIsa(isa) && Head(cs) && |cs| == 1 && cs[0].pc < |cs[0].code|
    requires isa(cs[0], ch).Return? || isa(cs[0], ch).Halt? || isa(cs[0], ch).Raise?
    ensures Iterate(isa, cs, ch) == Done([])
  {
    assert LinkAt(cs, 0);
  }
}
