/** What whole runs of the interpreter do: the first dispatch, running off the code, and the stack limit. */
module EvmRuns {
  import opened Wrappers
  import opened ByteStrings
  import opened EvmCode
  import opened EvmMemory
  import opened Evm

  /** A run under one more answer goes on by one turn. */
  lemma {:induction false} RunExtends(turn: Turn, cs: seq<Context>, choices: seq<Choice>, ch: Choice)
    requires KeepsHead(turn) && Head(cs)
    ensures var p := Run(turn, cs, choices);
            Run(turn, cs, choices + [ch]) == if p.Continue? then turn(p.ctxts, ch) else p
    decreases |choices|
  {
    var more := choices + [ch];
    if choices == [] {
      assert more[0] == ch && more[1..] == [];
    } else {
      assert more[0] == choices[0] && more[1..] == choices[1..] + [ch];
      match turn(cs, choices[0])
      case Continue(ds) => RunExtends(turn, ds, choices[1..], ch);
      case _ =>
    }
  }

  /** The state of a program's run under one more answer. */
  ghost function NextState(p: Progress, ch: Choice): (q: Progress)
    requires ProgressOk(p)
  {
    InstructionsSafe();
    if !p.Continue? then p
    else if p.ctxts[|p.ctxts| - 1].pc >= |p.ctxts[|p.ctxts| - 1].code| then Finish(p.ctxts)
    else Iterate(Instructions(), p.ctxts, ch)
  }

  lemma ProgramStep(code: seq<byte>, msg: Message, choices: seq<Choice>, ch: Choice)
    ensures RunProgram(code, msg, choices + [ch]) == NextState(RunProgram(code, msg, choices), ch)
  {
    InstructionsSafe();
    TurnKeepsHead(Instructions());
    var turn := TurnOf(Instructions());
    RunExtends(turn, Start(code, msg), choices, ch);
  }

  lemma ProgramStart(code: seq<byte>, msg: Message)
    ensures RunProgram(code, msg, []) == Continue(Start(code, msg))
  {
  }

  /** Once a run has made a dispatch, the counter of its current context is not marked as just set. */
  lemma MarkedOnlyAtFirst(code: seq<byte>, msg: Message, choices: seq<Choice>)
    ensures var p := RunProgram(code, msg, choices);
            p.Continue? ==> (p.ctxts[|p.ctxts| - 1].pcChanged <==> choices == [])
  {
    if choices == [] {
      ProgramStart(code, msg);
    } else {
      var front, ch := choices[..|choices| - 1], choices[|choices| - 1];
      assert choices == front + [ch];
      ProgramStep(code, msg, front, ch);
    }
  }

  /** An instruction that does not set the counter moves it on exactly when the counter was not just set. */
  lemma StayAdvances(cs: seq<Context>, ch: Choice)
    requires Head(cs) && cs[|cs| - 1].pc < |cs[|cs| - 1].code| && Instruction(cs[|cs| - 1], ch).Stay?
    ensures NextState(Continue(cs), ch) == Continue(cs[|cs| - 1 := StepContext(Instruction(cs[|cs| - 1], ch).c)])
    ensures StepContext(Instruction(cs[|cs| - 1], ch).c).pc == cs[|cs| - 1].pc + 1 <==> !cs[|cs| - 1].pcChanged
  {
    InstructionsSafe();
    assert SafeAt(Instructions(), cs[|cs| - 1], ch);
  }

  /** In a run such an instruction is dispatched again exactly when it is the run's first dispatch. */
  lemma StayRepeatsOnlyAtFirst(code: seq<byte>, msg: Message, choices: seq<Choice>, ch: Choice)
    requires var p := RunProgram(code, msg, choices);
             p.Continue? && var c := p.ctxts[|p.ctxts| - 1]; c.pc < |c.code| && Instruction(c, ch).Stay?
    ensures var p, q := RunProgram(code, msg, choices), RunProgram(code, msg, choices + [ch]);
            && q.Continue? && |q.ctxts| == |p.ctxts|
            && q.ctxts[|p.ctxts| - 1].pc == p.ctxts[|p.ctxts| - 1].pc + if choices == [] then 0 else 1
  {
    var cs := RunProgram(code, msg, choices).ctxts;
    MarkedOnlyAtFirst(code, msg, choices);
    ProgramStep(code, msg, choices, ch);
    StayAdvances(cs, ch);
    InstructionSafe(cs[|cs| - 1], ch);
  }

  /** The opcodes that neither set the counter nor need a word on the stack: JUMPDEST and those that push what they
      read. */
  predicate RepeatsFirst(op: byte)
  {
    op == JUMPDEST || Reads(op)
  }

  lemma NothingToPop(narrow: seq<bool>)
    requires narrow != []
    ensures PopAll([], narrow).None?
  {
  }

  /** On the empty stack an instruction that pops fails. */
  lemma PoppingFails(c: Context, ch: Choice)
    requires c.pc < |c.code| && c.stack == []
    requires var op := c.code[c.pc];
             !(PUSH0 <= op <= PUSH32) && op != JUMPDEST && op != 0x00 && op != 0xfe && Operands(op, []) != Some([])
    ensures Instruction(c, ch).Raise?
  {
    var op := c.code[c.pc];
    if 0x51 <= op <= 0x53 || op == 0x20 || 0xa0 <= op <= 0xa4 {
      NothingToPop(if op == 0x51 then [true] else if op == 0x52 || op == 0x53 then [true, false]
                   else [true, true] + seq(if 0xa0 <= op then op - 0xa0 else 0, _ => false));
    } else if op == CALL || op == CALLCODE || op == DELEGATECALL || op == STATICCALL {
      var first := if op == DELEGATECALL || op == STATICCALL then [false, false] else [false, false, true];
      NothingToPop(first + [true, true, true, true]);
    } else if Operands(op, []).Some? {
      NothingToPop(Operands(op, []).value);
    }
  }

  lemma ReadersPush(op: byte, s: seq<nat>)
    ensures Operands(op, s) == Some([]) <==> Reads(op)
  {
  }

  lemma ReaderIsValue(c: Context, ch: Choice)
    requires c.pc < |c.code| && Reads(c.code[c.pc])
    ensures Instruction(c, ch) == DoValue(c, c.code[c.pc], [], ch)
  {
    ReadersPush(c.code[c.pc], c.stack);
  }

  lemma ReaderPushes(c: Context, ch: Choice)
    requires c.pc < |c.code| && Reads(c.code[c.pc]) && |c.stack| != MAX_STACK
    ensures Instruction(c, ch) == Stay(c.(stack := [ResultWord(c, c.code[c.pc], ch)] + c.stack))
  {
    ReaderIsValue(c, ch);
  }

  /** What the first instruction can do on the empty stack: stay, push an immediate, halt or fail. */
  lemma FirstEffect(c: Context, ch: Choice)
    requires c.pc < |c.code| && c.stack == []
    ensures Instruction(c, ch).Stay? <==> RepeatsFirst(c.code[c.pc])
    ensures var e := Instruction(c, ch); e.Stay? || (e.Goto? && e.target > c.pc) || e.Raise? || e.Halt?
  {
    var op := c.code[c.pc];
    if PUSH0 <= op <= PUSH32 {
      assert Instruction(c, ch) == DoPush(c);
    } else if op == JUMPDEST {
    } else if op == 0x00 || op == 0xfe {
      assert Instruction(c, ch) == Halt(c);
    } else if Reads(op) {
      ReaderPushes(c, ch);
    } else {
      ReadersPush(op, []);
      PoppingFails(c, ch);
    }
  }

  /** The first instruction of a program is dispatched twice exactly when its opcode is one of these. */
  lemma FirstInstructionTwice(code: seq<byte>, msg: Message, ch: Choice)
    requires code != []
    ensures var p := RunProgram(code, msg, [ch]);
            (p.Continue? && |p.ctxts| == 1 && p.ctxts[0].pc == 0) <==> RepeatsFirst(code[0])
  {
    var cs := Start(code, msg);
    ProgramStart(code, msg);
    ProgramStep(code, msg, [], ch);
    assert [] + [ch] == [ch];
    FirstEffect(cs[0], ch);
    InstructionsSafe();
    assert SafeAt(Instructions(), cs[0], ch);
    if RepeatsFirst(code[0]) {
      StayAdvances(cs, ch);
    }
  }

  /** ADDRESS as the first instruction pushes its word twice. */
  lemma AddressTwice(msg: Message, a: Choice, b: Choice)
    ensures var p := RunProgram([0x30], msg, [a, b]);
            p.Continue? && |p.ctxts| == 1 && p.ctxts[0].pc == 1 && p.ctxts[0].stack == [msg.address, msg.address]
  {
    var code: seq<byte> := [0x30];
    ProgramStart(code, msg);
    ProgramStep(code, msg, [], a);
    assert [] + [a] == [a] && [a] + [b] == [a, b];
    var c := Start(code, msg)[0];
    ReaderPushes(c, a);
    StayAdvances([c], a);
    ProgramStep(code, msg, [a], b);
    var d := c.(stack := [msg.address], pcChanged := false);
    assert [msg.address] + [] == [msg.address];
    assert RunProgram(code, msg, [a]) == Continue([d]);
    ReaderPushes(d, b);
    StayAdvances([d], b);
  }

  /** The current context is past its code, and the caller it reports to has a full stack. */
  ghost predicate OffTheEnd(cs: seq<Context>)
    requires Head(cs)
  {
    cs[|cs| - 1].pc >= |cs[|cs| - 1].code|
  }

  ghost predicate CallerFull(cs: seq<Context>)
    requires Head(cs) && |cs| > 1
  {
    assert LinkAt(cs, |cs| - 1);
    |cs[cs[|cs| - 1].handler.parent].stack| == MAX_STACK
  }

  /** A turn ends the run with contexts left behind exactly when a nested context is past its code and its caller
      can take one more word; with a full caller the run is left by an exception instead. */
  lemma RunningOffTheEndLeavesCallers(cs: seq<Context>, ch: Choice)
    requires Head(cs)
    ensures var p := NextState(Continue(cs), ch);
            && ((p.Done? && p.ctxts != []) <==> |cs| > 1 && OffTheEnd(cs) && !CallerFull(cs))
            && (|cs| > 1 && OffTheEnd(cs) && CallerFull(cs) ==> p == Crashed)
            && (p.Done? && p.ctxts != [] ==> |p.ctxts| == |cs| - 1)
  {
    assert LinkAt(cs, |cs| - 1);
    if |cs| == 1 {
      assert cs[..0] == [];
    }
  }

  /** Seven zeros and a call. */
  const CALLER: seq<byte> := [PUSH0, PUSH0, PUSH0, PUSH0, PUSH0, PUSH0, PUSH0, CALL]

  /** A jump or a push moves the counter to its target. */
  lemma GotoMoves(cs: seq<Context>, ch: Choice)
    requires Head(cs) && cs[|cs| - 1].pc < |cs[|cs| - 1].code| && Instruction(cs[|cs| - 1], ch).Goto?
    ensures var e := Instruction(cs[|cs| - 1], ch);
            NextState(Continue(cs), ch) == Continue(cs[|cs| - 1 := e.c.(pc := e.target, pcChanged := false)])
  {
    InstructionsSafe();
    assert SafeAt(Instructions(), cs[|cs| - 1], ch);
  }

  lemma PushZero(c: Context, ch: Choice)
    requires c.pc + 1 < |c.code| && c.code[c.pc] == PUSH0 && |c.stack| < MAX_STACK
    ensures Instruction(c, ch) == Goto(c.(stack := [0] + c.stack), c.pc + 1)
  {
    assert c.code[c.pc + 1..c.pc + 1] == [];
    assert Be([]) == 0;
  }

  /** The program starts with n pushes of zero, and does not end there. */
  predicate StartsWithPushes(code: seq<byte>, n: nat)
  {
    n < |code| && forall i :: 0 <= i < n ==> code[i] == PUSH0
  }

  /** After n of the pushes. */
  ghost function Pushed(code: seq<byte>, msg: Message, n: nat): (c: Context)
  {
    Start(code, msg)[0].(pc := n, pcChanged := n == 0, stack := Zeros(n))
  }

  lemma PushStep(code: seq<byte>, msg: Message, n: nat, ch: Choice)
    requires 0 < n <= MAX_STACK && StartsWithPushes(code, n) && Head([Pushed(code, msg, n - 1)])
    ensures NextState(Continue([Pushed(code, msg, n - 1)]), ch) == Continue([Pushed(code, msg, n)])
  {
    PushZero(Pushed(code, msg, n - 1), ch);
    GotoMoves([Pushed(code, msg, n - 1)], ch);
    assert [0] + Zeros(n - 1) == Zeros(n);
  }

  lemma {:induction false} AfterPushes(code: seq<byte>, msg: Message, choices: seq<Choice>)
    requires |choices| <= MAX_STACK && StartsWithPushes(code, |choices|)
    ensures RunProgram(code, msg, choices) == Continue([Pushed(code, msg, |choices|)])
    decreases |choices|
  {
    var n := |choices|;
    if n == 0 {
      ProgramStart(code, msg);
      assert Pushed(code, msg, 0) == Start(code, msg)[0];
    } else {
      AfterPushes(code, msg, choices[..n - 1]);
      assert choices == choices[..n - 1] + [choices[n - 1]];
      ProgramStep(code, msg, choices[..n - 1], choices[n - 1]);
      PushStep(code, msg, n, choices[n - 1]);
    }
  }

  lemma {:induction false} PopZeros(narrow: seq<bool>)
    ensures PopAll(Zeros(|narrow|), narrow) == Some((Zeros(|narrow|), []))
    decreases |narrow|
  {
    if narrow != [] {
      PopZeros(narrow[1..]);
      assert Zeros(|narrow|)[1..] == Zeros(|narrow| - 1);
      assert [0] + Zeros(|narrow| - 1) == Zeros(|narrow|);
    } else {
      assert Zeros(0) == [];
    }
  }

  /** The call opens the addressed code with no input and no room for output. */
  lemma CallEffect(c: Context, ch: Choice)
    requires c.pc < |c.code| && c.code[c.pc] == CALL && c.stack == Zeros(7) && c.mem == []
    requires !ch.refused && ch.target != []
    ensures Instruction(c, ch) == Enter(c.(stack := []), [Frame(ch.target, false, c.address, 0)], [], Some((0, 0)))
  {
    var narrow := [false, false, true] + [true, true, true, true];
    PopZeros(narrow);
    assert PopAll(c.stack, narrow) == Some((Zeros(7), []));
    assert Instruction(c, ch) == DoCall(c, CALL, ch);
    assert PrepareMemAccess([], 0, 0) == Some([]);
  }

  lemma EnterOneMoves(cs: seq<Context>, ch: Choice, f: Frame)
    requires Head(cs) && |cs| < MAX_CALL_DEPTH && cs[|cs| - 1].pc < |cs[|cs| - 1].code|
    requires var e := Instruction(cs[|cs| - 1], ch); e.Enter? && e.frames == [f] && e.call == Some((0, 0))
    ensures var e := Instruction(cs[|cs| - 1], ch);
            var c := Fresh(f, e.input, CallReturn(|cs| - 1, 0, 0));
            NextState(Continue(cs), ch) == Continue(cs[|cs| - 1 := e.c] + [c.(pcChanged := false)])
  {
    InstructionsSafe();
    assert SafeAt(Instructions(), cs[|cs| - 1], ch);
    var e := Instruction(cs[|cs| - 1], ch);
    var outer, h := cs[|cs| - 1 := e.c], CallReturn(|cs| - 1, 0, 0);
    assert [f][1..] == [];
    assert EnterAll(outer, [f], e.input, h) == Running(outer + [Fresh(f, e.input, h)]);
    assert Dispatch(Instructions(), cs, ch) == Running(outer + [Fresh(f, e.input, h)]);
  }

  /** The callee of the next result, after a step of it. */
  ghost function JumpdestAt(caller: Context, pc: nat): (c: Context)
  {
    Fresh(Frame([JUMPDEST], false, caller.address, 0), [], CallReturn(0, 0, 0)).(pc := pc, pcChanged := false)
  }

  /** From the call to the contexts it leaves open. */
  lemma CallOpens(caller: Context, call: Choice)
    requires Head([caller]) && caller.pc < |caller.code| && caller.code[caller.pc] == CALL
    requires caller.stack == Zeros(7) && caller.mem == [] && !call.refused && call.target == [JUMPDEST]
    ensures NextState(Continue([caller]), call) == Continue([caller.(stack := []), JumpdestAt(caller, 0)])
  {
    CallEffect(caller, call);
    EnterOneMoves([caller], call, Frame([JUMPDEST], false, caller.address, 0));
    var callee := JumpdestAt(caller, 0);
    assert [caller][0 := caller.(stack := [])] + [callee] == [caller.(stack := []), callee];
  }

  lemma JumpdestMoves(caller: Context, b: Choice)
    requires Head([caller, JumpdestAt(caller, 0)])
    ensures NextState(Continue([caller, JumpdestAt(caller, 0)]), b) == Continue([caller, JumpdestAt(caller, 1)])
  {
    StayAdvances([caller, JumpdestAt(caller, 0)], b);
  }

  lemma JumpdestRunsOff(caller: Context, c: Choice)
    requires Head([caller, JumpdestAt(caller, 1)]) && caller.stack == []
    ensures NextState(Continue([caller, JumpdestAt(caller, 1)]), c) == Done([caller.(stack := [1])])
  {
    var cs := [caller, JumpdestAt(caller, 1)];
    assert cs[..1] == [caller];
    assert [1] + caller.stack == [1];
    assert Finish(cs) == Done([caller.(stack := [1])]);
  }

  /** A call of a contract whose code is one JUMPDEST: the callee runs off its code, and the run ends with the caller
      left at its call, although its code is not finished. */
  lemma CallerLeftBehind(msg: Message, pushes: seq<Choice>, call: Choice, b: Choice, c: Choice)
    requires |pushes| == 7 && !call.refused && call.target == [JUMPDEST]
    ensures RunProgram(CALLER, msg, pushes + [call] + [b] + [c]) == Done([Pushed(CALLER, msg, 7).(stack := [1])])
  {
    var caller := Pushed(CALLER, msg, 7);
    AfterPushes(CALLER, msg, pushes);
    ProgramStep(CALLER, msg, pushes, call);
    CallOpens(caller, call);
    ProgramStep(CALLER, msg, pushes + [call], b);
    JumpdestMoves(caller.(stack := []), b);
    ProgramStep(CALLER, msg, pushes + [call] + [b], c);
    JumpdestRunsOff(caller.(stack := []), c);
  }

  /** Every stack is within its limit. */
  ghost predicate Within(cs: seq<Context>)
  {
    forall i :: 0 <= i < |cs| ==> |cs[i].stack| <= MAX_STACK
  }

  /** The next instruction duplicates a word of a full stack. */
  ghost predicate DupAtFull(cs: seq<Context>)
  {
    cs != [] && var c := cs[|cs| - 1]; c.pc < |c.code| && 0x80 <= c.code[c.pc] <= 0x8f && |c.stack| == MAX_STACK
  }

  /** Only duplication outgrows a full stack. */
  lemma InstructionWithin(c: Context, ch: Choice)
    requires c.pc < |c.code| && |c.stack| <= MAX_STACK && !DupAtFull([c])
    ensures EffectWithin(Instruction(c, ch))
  {
  }

  lemma {:induction false} EnterWithin(cs: seq<Context>, frames: seq<Frame>, input: seq<byte>, h: Handler)
    requires Within(cs)
    ensures var o := EnterAll(cs, frames, input, h); !o.Escaped? && Within(o.ctxts)
    decreases |frames|
  {
    if frames != [] && |cs| < MAX_CALL_DEPTH {
      EnterWithin(cs + [Fresh(frames[0], input, h)], frames[1..], input, h);
    }
  }

  lemma PerformWithin(cs: seq<Context>, effect: Effect)
    requires cs != [] && Linked(cs) && Within(cs) && EffectWithin(effect)
    ensures var o := Perform(cs, effect); !o.Escaped? ==> Within(o.ctxts)
  {
    var k := |cs| - 1;
    assert LinkAt(cs, k);
    match effect
    case Enter(c, frames, input, call) =>
      EnterWithin(cs[k := c], frames, input, CallHandler(k, call));
    case _ =>
  }

  lemma CatchWithin(cs: seq<Context>)
    requires cs != [] && Linked(cs) && Within(cs)
    ensures Catch(cs).Running? ==> Within(Catch(cs).ctxts)
  {
    assert LinkAt(cs, |cs| - 1);
  }

  lemma IterateWithin(cs: seq<Context>, ch: Choice)
    requires SafeIsa(Instructions()) && Head(cs) && cs[|cs| - 1].pc < |cs[|cs| - 1].code|
    requires var o := Dispatch(Instructions(), cs, ch); !o.Escaped? ==> Within(o.ctxts)
    ensures var p := Iterate(Instructions(), cs, ch); p.Continue? ==> Within(p.ctxts)
  {
    DispatchKeeps(Instructions(), cs, ch);
    var o := Dispatch(Instructions(), cs, ch);
    if o.Threw? {
      CatchWithin(o.ctxts);
    }
  }

  /** A turn keeps every stack within the limit exactly when it does not duplicate on a full stack. */
  lemma TurnWithin(cs: seq<Context>, ch: Choice)
    requires Head(cs) && Within(cs)
    ensures var p := NextState(Continue(cs), ch);
            if DupAtFull(cs) then p.Continue? && !Within(p.ctxts) else p.Continue? ==> Within(p.ctxts)
  {
    var k := |cs| - 1;
    InstructionsSafe();
    if cs[k].pc < |cs[k].code| {
      assert Instructions()(cs[k], ch) == Instruction(cs[k], ch);
      if DupAtFull(cs) {
        StayAdvances(cs, ch);
      } else {
        InstructionWithin(cs[k], ch);
        PerformWithin(cs, Instruction(cs[k], ch));
        IterateWithin(cs, ch);
      }
    }
  }

  /** If the run goes on, every stack is within the limit. */
  ghost predicate WithinState(p: Progress)
  {
    p.Continue? ==> Within(p.ctxts)
  }

  ghost predicate DupState(p: Progress)
  {
    p.Continue? && DupAtFull(p.ctxts)
  }

  lemma StateWithin(p: Progress, ch: Choice)
    requires ProgressOk(p) && WithinState(p)
    ensures WithinState(NextState(p, ch)) <==> !DupState(p)
  {
    if p.Continue? {
      TurnWithin(p.ctxts, ch);
    }
  }

  lemma ProgramWithin(code: seq<byte>, msg: Message, choices: seq<Choice>, ch: Choice)
    requires WithinState(RunProgram(code, msg, choices))
    ensures WithinState(RunProgram(code, msg, choices + [ch])) <==> !DupState(RunProgram(code, msg, choices))
  {
    ProgramStep(code, msg, choices, ch);
    StateWithin(RunProgram(code, msg, choices), ch);
  }

  /** The run's state after n answers. */
  ghost predicate WithinAt(code: seq<byte>, msg: Message, choices: seq<Choice>, n: nat)
    requires n <= |choices|
  {
    WithinState(RunProgram(code, msg, choices[..n]))
  }

  ghost predicate DupsAt(code: seq<byte>, msg: Message, choices: seq<Choice>, n: nat)
    requires n <= |choices|
  {
    DupState(RunProgram(code, msg, choices[..n]))
  }

  lemma NextWithin(code: seq<byte>, msg: Message, choices: seq<Choice>, n: nat)
    requires n < |choices| && WithinAt(code, msg, choices, n)
    ensures WithinAt(code, msg, choices, n + 1) <==> !DupsAt(code, msg, choices, n)
  {
    assert choices[..n + 1] == choices[..n] + [choices[n]];
    ProgramWithin(code, msg, choices[..n], choices[n]);
  }

  lemma {:induction false} WithinUntil(code: seq<byte>, msg: Message, choices: seq<Choice>, n: nat)
    requires n <= |choices| && forall i :: 0 <= i < n ==> !DupsAt(code, msg, choices, i)
    ensures WithinAt(code, msg, choices, n)
  {
    if n == 0 {
      ProgramStart(code, msg);
    } else {
      WithinUntil(code, msg, choices, n - 1);
      NextWithin(code, msg, choices, n - 1);
    }
  }

  /** A run's stacks stay within 1024 words exactly when it never duplicates a word of a full stack. */
  lemma StackLimit(code: seq<byte>, msg: Message, choices: seq<Choice>)
    ensures (forall n :: 0 <= n <= |choices| ==> WithinAt(code, msg, choices, n)) <==>
            (forall n :: 0 <= n < |choices| ==> !DupsAt(code, msg, choices, n))
  {
    if forall n :: 0 <= n < |choices| ==> !DupsAt(code, msg, choices, n) {
      forall n | 0 <= n <= |choices| ensures WithinAt(code, msg, choices, n) {
        WithinUntil(code, msg, choices, n);
      }
    } else {
      var n :| 0 <= n < |choices| && DupsAt(code, msg, choices, n);
      if WithinAt(code, msg, choices, n) {
        NextWithin(code, msg, choices, n);
      }
    }
  }

  const DUP1: byte := 0x80

  /** One push and 1024 duplications. */
  function Filler(): (code: seq<byte>)
    ensures |code| == MAX_STACK + 1 && code[0] == PUSH0 && forall i :: 0 < i < |code| ==> code[i] == DUP1
  {
    [PUSH0] + seq(MAX_STACK, _ => DUP1)
  }

  ghost function Filled(msg: Message, n: nat): (c: Context)
  {
    Start(Filler(), msg)[0].(pc := n, pcChanged := n == 0, stack := Zeros(n))
  }

  lemma DupZero(c: Context, ch: Choice)
    requires c.pc < |c.code| && c.code[c.pc] == DUP1 && c.stack != [] && c.stack[0] == 0
    ensures Instruction(c, ch) == Stay(c.(stack := [0] + c.stack))
  {
  }

  lemma FillStep(msg: Message, n: nat, ch: Choice)
    requires 0 < n <= MAX_STACK + 1 && Head([Filled(msg, n - 1)])
    ensures NextState(Continue([Filled(msg, n - 1)]), ch) == Continue([Filled(msg, n)])
  {
    var c := Filled(msg, n - 1);
    if n == 1 {
      PushZero(c, ch);
      GotoMoves([c], ch);
    } else {
      DupZero(c, ch);
      StayAdvances([c], ch);
    }
    assert [0] + Zeros(n - 1) == Zeros(n);
  }

  /** Each instruction adds a word, also the last one, on a full stack: the run ends up with 1025. */
  lemma {:induction false} StackOverflows(msg: Message, choices: seq<Choice>)
    requires |choices| <= MAX_STACK + 1
    ensures RunProgram(Filler(), msg, choices) == Continue([Filled(msg, |choices|)])
    ensures |choices| == MAX_STACK + 1 ==> |Filled(msg, |choices|).stack| == MAX_STACK + 1
    decreases |choices|
  {
    var n := |choices|;
    if n == 0 {
      ProgramStart(Filler(), msg);
      assert Filled(msg, 0) == Start(Filler(), msg)[0];
    } else {
      StackOverflows(msg, choices[..n - 1]);
      assert choices == choices[..n - 1] + [choices[n - 1]];
      ProgramStep(Filler(), msg, choices[..n - 1], choices[n - 1]);
      FillStep(msg, n, choices[n - 1]);
    }
  }
}
