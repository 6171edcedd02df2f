/** Static calls: the two contexts they open, and how the callee's code is run in both. */
module EvmStatic {
  import opened Wrappers
  import opened ByteStrings
  import opened EvmCode
  import opened EvmMemory
  import opened Evm
  import opened EvmRuns
  import opened EvmInstructions
  import opened EvmCalls

  predicate AtStaticCall(c: Context)
  {
    At(c, STATICCALL)
  }

  /** The instruction enters exactly when it goes in; otherwise it fails or stays. */
  lemma StaticCallEffect(c: Context, ch: Choice)
    requires AtStaticCall(c)
    ensures var e := Instruction(c, ch);
            if GoesIn(c, STATICCALL, ch)
            then Passes(c, STATICCALL, e) && e.frames == CallFrames(c, STATICCALL, AddressIn(c.stack[1]), ch.target)
            else e.Raise? || e.Stay?
  {
    CallMeans(c, STATICCALL, ch);
  }

  lemma EnterTwo(cs: seq<Context>, f: Frame, g: Frame, input: seq<byte>, h: Handler)
    ensures var o := EnterAll(cs, [f, g], input, h);
            if |cs| >= MAX_CALL_DEPTH then o == Threw(cs)
            else if |cs| + 1 == MAX_CALL_DEPTH then o == Threw(cs + [Fresh(f, input, h)])
            else o == Running(cs + [Fresh(f, input, h)] + [Fresh(g, input, h)])
  {
    var inner := cs + [Fresh(f, input, h)];
    assert [f, g][1..] == [g] && [g][1..] == [];
    if |cs| < MAX_CALL_DEPTH {
      assert EnterAll(cs, [f, g], input, h) == EnterAll(inner, [g], input, h);
      if |inner| < MAX_CALL_DEPTH {
        assert EnterAll(inner, [g], input, h) == EnterAll(inner + [Fresh(g, input, h)], [], input, h);
      }
    }
  }

  /** The context on top of a static one: not static, and called by the callee's own address. */
  function Ordinary(c: Context): (d: Context)
  {
    c.(inStatic := false, caller := c.address)
  }

  /** On top of the contexts there were: a static one for the callee with its code and the input from memory, called by
      the address of the context that made the call; and one that differs from it only in not being static and in having
      the callee itself for its caller. */
  ghost predicate OpenedTwo(cs: seq<Context>, ch: Choice, o: Outcome)
    requires cs != []
  {
    && o.Running? && |o.ctxts| == |cs| + 2 && o.ctxts[..|cs| - 1] == cs[..|cs| - 1]
    && Narrow(cs[|cs| - 1].stack, 2, 6)
    && var b, c := cs[|cs| - 1], o.ctxts[|cs|];
       && Opened(c, ch.target, CallReturn(|cs| - 1, b.stack[4], b.stack[5]))
       && c.inStatic && c.caller == b.address && c.address == AddressIn(b.stack[1])
       && |c.input| == b.stack[3] && BytesOf(b.mem, b.stack[2], c.input)
       && o.ctxts[|cs| + 1] == Ordinary(c)
  }

  /** A static call opens two contexts exactly when it goes in and the depth leaves room for both; where only one more
      fits, the exception is raised with the static context on top, and where none fits, in the caller. */
  lemma StaticCallOpensTwo(cs: seq<Context>, ch: Choice)
    requires Head(cs) && AtStaticCall(cs[|cs| - 1])
    ensures var o, goesIn := Dispatch(Instructions(), cs, ch), GoesIn(cs[|cs| - 1], STATICCALL, ch);
            && (OpenedTwo(cs, ch, o) <==> goesIn && |cs| + 2 <= MAX_CALL_DEPTH)
            && (goesIn && |cs| + 1 == MAX_CALL_DEPTH ==>
                  o.Threw? && |o.ctxts| == |cs| + 1 && o.ctxts[|cs|].inStatic)
            && (goesIn && |cs| == MAX_CALL_DEPTH ==> o.Threw? && |o.ctxts| == |cs|)
  {
    var c := cs[|cs| - 1];
    var e := Instruction(c, ch);
    StaticCallEffect(c, ch);
    assert Instructions()(c, ch) == e;
    if e.Enter? {
      EnterTwo(cs[|cs| - 1 := e.c], e.frames[0], e.frames[1], e.input,
               CallReturn(|cs| - 1, e.call.value.0, e.call.value.1));
    }
  }

  /** Context j is c, no context above it reports to it, and the one just above reports to the same caller. */
  predicate Holds(cs: seq<Context>, j: nat, c: Context)
  {
    && j < |cs| && cs[j] == c && !c.handler.Top?
    && (j + 1 < |cs| ==> !cs[j + 1].handler.Top? && cs[j + 1].handler.parent == c.handler.parent)
    && forall i :: j < i < |cs| ==> !cs[i].handler.Top? && cs[i].handler.parent != j
  }

  lemma {:induction false} EnterHolds(cs: seq<Context>, frames: seq<Frame>, input: seq<byte>, h: Handler,
                                      j: nat, c: Context)
    requires Holds(cs, j, c) && j + 1 < |cs| && !h.Top? && h.parent != j
    ensures var o := EnterAll(cs, frames, input, h); !o.Escaped? && Holds(o.ctxts, j, c) && |o.ctxts| >= |cs|
    decreases |frames|
  {
    if frames != [] && |cs| < MAX_CALL_DEPTH {
      EnterHolds(cs + [Fresh(frames[0], input, h)], frames[1..], input, h, j, c);
    }
  }

  /** The caller of context j can take no more words. */
  predicate CallerOfFull(cs: seq<Context>, c: Context)
  {
    !c.handler.Top? && c.handler.parent < |cs| && |cs[c.handler.parent].stack| == MAX_STACK
  }

  /** What an instruction further in leaves: the waiting context untouched; and an exception that is to be handled in it
      comes from its full caller. */
  ghost predicate StillHolds(o: Outcome, j: nat, c: Context)
  {
    match o
    case Running(ds) => Holds(ds, j, c)
    case Threw(ds) => Holds(ds, j, c) && (|ds| == j + 1 ==> CallerOfFull(ds, c))
    case Escaped => true
  }

  lemma ReplaceHolds(cs: seq<Context>, d: Context, j: nat, c: Context)
    requires Holds(cs, j, c) && j + 1 < |cs| && d.handler == cs[|cs| - 1].handler
    ensures Holds(cs[|cs| - 1 := d], j, c)
  {
  }

  lemma ReturnHolds(cs: seq<Context>, h: Handler, output: seq<byte>, address: nat, j: nat, c: Context)
    requires Holds(cs, j, c) && j + 1 < |cs| && h == cs[|cs| - 1].handler && h.parent < |cs| - 1
    ensures var r := ReturnTo(cs, h, output, address); r.Some? ==> Holds(r.value[..|cs| - 1], j, c)
  {
  }

  lemma HaltHolds(cs: seq<Context>, j: nat, c: Context)
    requires Holds(cs, j, c) && j + 1 < |cs| && c.handler.parent < j
    requires var h := cs[|cs| - 1].handler; h.parent < |cs| - 1
    ensures var k := |cs| - 1; var r := HaltTo(cs[..k], cs[k].handler);
            if r.Some? then Holds(r.value, j, c) else Holds(cs[..k], j, c) && (k == j + 1 ==> CallerOfFull(cs[..k], c))
  {
  }

  lemma PerformHolds(cs: seq<Context>, effect: Effect, j: nat, c: Context)
    requires Head(cs) && cs[|cs| - 1].pc < |cs[|cs| - 1].code| && Safe(cs[|cs| - 1], effect)
    requires Holds(cs, j, c) && j + 1 < |cs|
    ensures StillHolds(Perform(cs, effect), j, c)
  {
    var k := |cs| - 1;
    assert LinkAt(cs, k) && LinkAt(cs, j);
    match effect
    case Stay(d) => ReplaceHolds(cs, d, j, c);
    case Goto(d, target) => ReplaceHolds(cs, d.(pc := target, pcChanged := true), j, c);
    case Raise =>
    case Escape =>
    case Enter(d, frames, input, call) =>
      ReplaceHolds(cs, d, j, c);
      EnterHolds(cs[k := d], frames, input, CallHandler(k, call), j, c);
    case Return(d, output) =>
      ReplaceHolds(cs, d, j, c);
      ReturnHolds(cs[k := d], cs[k].handler, output, cs[k].address, j, c);
    case Halt(d) => HaltHolds(cs, j, c);
  }

  lemma CatchHolds(cs: seq<Context>, j: nat, c: Context)
    requires cs != [] && Linked(cs) && Holds(cs, j, c) && (|cs| == j + 1 ==> CallerOfFull(cs, c))
    ensures Catch(cs).Running? ==> Holds(Catch(cs).ctxts, j, c)
  {
    assert LinkAt(cs, |cs| - 1);
  }

  /** Context j still waits as it was, or it is now the current one and has been stepped once. */
  predicate WaitsOrStarts(ds: seq<Context>, j: nat, c: Context)
  {
    if j + 1 < |ds| then Holds(ds, j, c) else |ds| == j + 1 && ds[j] == StepContext(c)
  }

  lemma StepHolds(cs: seq<Context>, j: nat, c: Context)
    requires Holds(cs, j, c)
    ensures StepLast(cs).Continue? && WaitsOrStarts(StepLast(cs).ctxts, j, c)
  {
    if j + 1 < |cs| {
      ReplaceHolds(cs, StepContext(cs[|cs| - 1]), j, c);
    }
  }

  lemma IterateHolds(isa: Isa, cs: seq<Context>, ch: Choice, j: nat, c: Context)
    requires SafeIsa(isa) && Head(cs) && Holds(cs, j, c) && j + 1 < |cs| && cs[|cs| - 1].pc < |cs[|cs| - 1].code|
    ensures var p := Iterate(isa, cs, ch); p.Continue? ==> WaitsOrStarts(p.ctxts, j, c)
  {
    assert SafeAt(isa, cs[|cs| - 1], ch);
    PerformHolds(cs, isa(cs[|cs| - 1], ch), j, c);
    DispatchKeeps(isa, cs, ch);
    match Dispatch(isa, cs, ch)
    case Escaped =>
    case Running(ds) => StepHolds(ds, j, c);
    case Threw(ds) =>
      CatchHolds(ds, j, c);
      if Catch(ds).Running? {
        StepHolds(Catch(ds).ctxts, j, c);
      }
  }

  /** A turn of the contexts further in leaves the waiting one, or makes it the current one. */
  lemma WaitingTurn(cs: seq<Context>, ch: Choice, j: nat, c: Context)
    requires Head(cs) && Holds(cs, j, c) && j + 1 < |cs|
    ensures var p := NextState(Continue(cs), ch); p.Continue? ==> WaitsOrStarts(p.ctxts, j, c)
  {
    InstructionsSafe();
    if cs[|cs| - 1].pc < |cs[|cs| - 1].code| {
      IterateHolds(Instructions(), cs, ch, j, c);
    }
  }

  lemma RunningIterates(isa: Isa, cs: seq<Context>, ch: Choice, ds: seq<Context>)
    requires SafeIsa(isa) && Head(cs) && cs[|cs| - 1].pc < |cs[|cs| - 1].code|
    requires Dispatch(isa, cs, ch) == Running(ds) && ds != []
    ensures Iterate(isa, cs, ch) == Continue(ds[|ds| - 1 := StepContext(ds[|ds| - 1])])
  {
  }

  /** A dispatch without an exception is followed by a step. */
  lemma RunningMoves(cs: seq<Context>, ch: Choice, ds: seq<Context>)
    requires Head(cs) && cs[|cs| - 1].pc < |cs[|cs| - 1].code|
    requires Dispatch(Instructions(), cs, ch) == Running(ds) && ds != []
    ensures NextState(Continue(cs), ch) == Continue(ds[|ds| - 1 := StepContext(ds[|ds| - 1])])
  {
    InstructionsSafe();
    RunningIterates(Instructions(), cs, ch, ds);
  }

  /** The static context that a static call opens. */
  ghost function StaticContext(cs: seq<Context>, ch: Choice): (c: Context)
    requires cs != [] && AtStaticCall(cs[|cs| - 1]) && GoesIn(cs[|cs| - 1], STATICCALL, ch)
  {
    StaticCallEffect(cs[|cs| - 1], ch);
    var e := Instruction(cs[|cs| - 1], ch);
    Fresh(e.frames[0], e.input, CallReturn(|cs| - 1, e.call.value.0, e.call.value.1))
  }

  /** After the turn the static context waits at its first instruction, and the other one is current. */
  lemma StaticCallTurn(cs: seq<Context>, ch: Choice)
    requires Head(cs) && AtStaticCall(cs[|cs| - 1]) && GoesIn(cs[|cs| - 1], STATICCALL, ch)
    requires |cs| + 2 <= MAX_CALL_DEPTH
    ensures var e, c := Instruction(cs[|cs| - 1], ch), StaticContext(cs, ch);
            && e.Enter?
            && NextState(Continue(cs), ch) ==
               Continue(cs[|cs| - 1 := e.c] + [c] + [Ordinary(c).(pcChanged := false)])
  {
    var k := |cs| - 1;
    StaticCallEffect(cs[k], ch);
    var e, c := Instruction(cs[k], ch), StaticContext(cs, ch);
    assert Instructions()(cs[k], ch) == e;
    EnterTwo(cs[k := e.c], e.frames[0], e.frames[1], e.input, CallReturn(k, e.call.value.0, e.call.value.1));
    RunningMoves(cs, ch, cs[k := e.c] + [c] + [Ordinary(c)]);
  }

  lemma StaticCallWaits(cs: seq<Context>, ch: Choice)
    requires Head(cs) && AtStaticCall(cs[|cs| - 1]) && GoesIn(cs[|cs| - 1], STATICCALL, ch)
    requires |cs| + 2 <= MAX_CALL_DEPTH
    ensures var p := NextState(Continue(cs), ch);
            p.Continue? && |p.ctxts| == |cs| + 2 && Holds(p.ctxts, |cs|, StaticContext(cs, ch))
  {
    StaticCallTurn(cs, ch);
  }

  /** The state of a run after its first n answers. */
  ghost function StateAt(code: seq<byte>, msg: Message, choices: seq<Choice>, n: nat): (p: Progress)
    requires n <= |choices|
    ensures ProgressOk(p)
  {
    RunProgram(code, msg, choices[..n])
  }

  lemma StateNext(code: seq<byte>, msg: Message, choices: seq<Choice>, n: nat)
    requires n < |choices|
    ensures StateAt(code, msg, choices, n + 1) == NextState(StateAt(code, msg, choices, n), choices[n])
  {
    assert choices[..n + 1] == choices[..n] + [choices[n]];
    ProgramStep(code, msg, choices[..n], choices[n]);
  }

  /** Each state follows from the one before by a turn. */
  ghost predicate Follows(states: seq<Progress>, choices: seq<Choice>)
  {
    |states| == |choices| + 1 && forall i :: 0 <= i < |choices| ==> TurnFrom(states, choices, i)
  }

  ghost predicate TurnFrom(states: seq<Progress>, choices: seq<Choice>, i: nat)
    requires |states| == |choices| + 1 && i < |choices|
  {
    ProgressOk(states[i]) && states[i + 1] == NextState(states[i], choices[i])
  }

  /** The depth stays above n from state m + 1 to before state n. */
  ghost predicate DeeperThan(states: seq<Progress>, m: nat, n: nat, depth: nat)
    requires n < |states|
  {
    forall i :: m < i < n ==> states[i].Continue? && |states[i].ctxts| > depth
  }

  /** From state i to the next, c keeps waiting as context j or becomes the current one. */
  ghost predicate Carries(states: seq<Progress>, i: nat, j: nat, c: Context)
    requires i + 1 < |states|
  {
    var p, q := states[i], states[i + 1];
    p.Continue? && Holds(p.ctxts, j, c) && j + 1 < |p.ctxts| && q.Continue? ==> WaitsOrStarts(q.ctxts, j, c)
  }

  lemma TurnCarries(states: seq<Progress>, choices: seq<Choice>, i: nat, j: nat, c: Context)
    requires Follows(states, choices) && i < |choices|
    ensures Carries(states, i, j, c)
  {
    assert TurnFrom(states, choices, i);
    var p := states[i];
    if p.Continue? && Holds(p.ctxts, j, c) && j + 1 < |p.ctxts| {
      WaitingTurn(p.ctxts, choices[i], j, c);
    }
  }

  lemma {:induction false} CarriedAlong(states: seq<Progress>, m: nat, n: nat, j: nat, c: Context)
    requires m < n < |states| && DeeperThan(states, m, n, j + 1)
    requires states[m + 1].Continue? ==> WaitsOrStarts(states[m + 1].ctxts, j, c)
    requires forall i :: m < i < n ==> Carries(states, i, j, c)
    ensures states[n].Continue? ==> WaitsOrStarts(states[n].ctxts, j, c)
  {
    if m + 1 < n {
      CarriedAlong(states, m, n - 1, j, c);
      assert Carries(states, n - 1, j, c);
    }
  }

  lemma CallStarts(states: seq<Progress>, choices: seq<Choice>, m: nat, cs: seq<Context>)
    requires Follows(states, choices) && m < |choices| && Head(cs) && states[m] == Continue(cs)
    requires AtStaticCall(cs[|cs| - 1]) && GoesIn(cs[|cs| - 1], STATICCALL, choices[m]) && |cs| + 2 <= MAX_CALL_DEPTH
    ensures states[m + 1].Continue? && WaitsOrStarts(states[m + 1].ctxts, |cs|, StaticContext(cs, choices[m]))
  {
    assert TurnFrom(states, choices, m);
    StaticCallWaits(cs, choices[m]);
  }

  lemma WaitingStates(states: seq<Progress>, choices: seq<Choice>, m: nat, n: nat, cs: seq<Context>)
    requires Follows(states, choices) && m < n <= |choices| && Head(cs) && states[m] == Continue(cs)
    requires AtStaticCall(cs[|cs| - 1]) && GoesIn(cs[|cs| - 1], STATICCALL, choices[m]) && |cs| + 2 <= MAX_CALL_DEPTH
    requires DeeperThan(states, m, n, |cs| + 1)
    ensures states[n].Continue? ==> WaitsOrStarts(states[n].ctxts, |cs|, StaticContext(cs, choices[m]))
  {
    var c := StaticContext(cs, choices[m]);
    CallStarts(states, choices, m, cs);
    forall i | m < i < n ensures Carries(states, i, |cs|, c) {
      TurnCarries(states, choices, i, |cs|, c);
    }
    CarriedAlong(states, m, n, |cs|, c);
  }

  /** The states of a program's run. */
  ghost function States(code: seq<byte>, msg: Message, choices: seq<Choice>): (states: seq<Progress>)
    ensures |states| == |choices| + 1
  {
    seq(|choices| + 1, n requires 0 <= n <= |choices| => StateAt(code, msg, choices, n))
  }

  lemma StatesFollow(code: seq<byte>, msg: Message, choices: seq<Choice>)
    ensures Follows(States(code, msg, choices), choices)
  {
    var states := States(code, msg, choices);
    forall i | 0 <= i < |choices| ensures TurnFrom(states, choices, i) {
      StateNext(code, msg, choices, i);
    }
  }

  /** In every run: while the ordinary context of a static call or one it called is current, the static one waits
      untouched; when those have ended it is current, at counter 0, with the callee's code and input and nothing
      else. */
  lemma CalleeRunsAgain(code: seq<byte>, msg: Message, choices: seq<Choice>, m: nat, n: nat, cs: seq<Context>)
    requires var states := States(code, msg, choices);
             m < n <= |choices| && Head(cs) && states[m] == Continue(cs) && DeeperThan(states, m, n, |cs| + 1)
    requires AtStaticCall(cs[|cs| - 1]) && GoesIn(cs[|cs| - 1], STATICCALL, choices[m]) && |cs| + 2 <= MAX_CALL_DEPTH
    ensures var p := States(code, msg, choices)[n];
            p.Continue? ==> WaitsOrStarts(p.ctxts, |cs|, StaticContext(cs, choices[m]))
  {
    StatesFollow(code, msg, choices);
    WaitingStates(States(code, msg, choices), choices, m, n, cs);
  }

  /** Six zeros and a static call. */
  const STATIC_CALLER: seq<byte> := [PUSH0, PUSH0, PUSH0, PUSH0, PUSH0, PUSH0, STATICCALL]

  const STOP: byte := 0x00

  /** The caller of that program, at its call with these words on the stack. */
  ghost function Caller(msg: Message, words: seq<nat>): (c: Context)
  {
    Pushed(STATIC_CALLER, msg, 6).(stack := words)
  }

  lemma StopHalts(c: Context, ch: Choice)
    requires c.code == [STOP] && c.pc == 0
    ensures Instruction(c, ch) == Halt(c)
  {
  }

  lemma HaltDispatch(isa: Isa, cs: seq<Context>, ch: Choice)
    requires Head(cs) && |cs| >= 2 && cs[|cs| - 1].pc < |cs[|cs| - 1].code| && isa(cs[|cs| - 1], ch).Halt?
    requires cs[|cs| - 1].handler.CallReturn? && cs[|cs| - 1].handler.parent == 0 && |cs[0].stack| < MAX_STACK
    ensures Dispatch(isa, cs, ch) == Running(cs[..|cs| - 1][0 := cs[0].(stack := [1] + cs[0].stack)])
  {
    assert LinkAt(cs, |cs| - 1);
  }

  lemma StopEnds(cs: seq<Context>, ch: Choice)
    requires Head(cs) && |cs| >= 2 && cs[|cs| - 1].code == [STOP] && cs[|cs| - 1].pc == 0
    requires cs[|cs| - 1].handler.CallReturn? && cs[|cs| - 1].handler.parent == 0 && |cs[0].stack| < MAX_STACK
    ensures var ds := cs[..|cs| - 1][0 := cs[0].(stack := [1] + cs[0].stack)];
            NextState(Continue(cs), ch) == Continue(ds[|ds| - 1 := StepContext(ds[|ds| - 1])])
  {
    StopHalts(cs[|cs| - 1], ch);
    assert Instructions()(cs[|cs| - 1], ch) == Halt(cs[|cs| - 1]);
    HaltDispatch(Instructions(), cs, ch);
    RunningMoves(cs, ch, cs[..|cs| - 1][0 := cs[0].(stack := [1] + cs[0].stack)]);
  }

  lemma ZeroStaticCall(c: Context, ch: Choice)
    requires AtStaticCall(c) && c.stack == Zeros(6) && c.mem == [] && !ch.refused && ch.target == [STOP]
    ensures GoesIn(c, STATICCALL, ch)
    ensures Instruction(c, ch) == Enter(c.(stack := []), CallFrames(c, STATICCALL, 0, [STOP]), [], Some((0, 0)))
  {
    StaticCallEffect(c, ch);
    assert c.stack[6..] == [];
  }

  lemma StaticFromZeros(msg: Message, ch: Choice)
    requires !ch.refused && ch.target == [STOP]
    ensures var c := Pushed(STATIC_CALLER, msg, 6);
            && AtStaticCall(c) && GoesIn(c, STATICCALL, ch)
            && Instruction(c, ch) == Enter(Caller(msg, []), CallFrames(c, STATICCALL, 0, [STOP]), [], Some((0, 0)))
  {
    ZeroStaticCall(Pushed(STATIC_CALLER, msg, 6), ch);
  }

  /** The static context of that call, before it is run. */
  ghost function Callee(msg: Message): (c: Context)
  {
    Fresh(Frame([STOP], true, msg.address, 0), [], CallReturn(0, 0, 0))
  }

  lemma CallNext(msg: Message, call: Choice)
    requires !call.refused && call.target == [STOP] && Head([Pushed(STATIC_CALLER, msg, 6)])
    ensures NextState(Continue([Pushed(STATIC_CALLER, msg, 6)]), call) ==
            Continue([Caller(msg, []), Callee(msg), Ordinary(Callee(msg)).(pcChanged := false)])
  {
    var caller := Pushed(STATIC_CALLER, msg, 6);
    StaticFromZeros(msg, call);
    StaticCallTurn([caller], call);
    assert [caller][0 := Caller(msg, [])] == [Caller(msg, [])];
  }

  lemma CalleeOpened(msg: Message, pushes: seq<Choice>, call: Choice)
    requires |pushes| == 6 && !call.refused && call.target == [STOP]
    ensures RunProgram(STATIC_CALLER, msg, pushes + [call]) ==
            Continue([Caller(msg, []), Callee(msg), Ordinary(Callee(msg)).(pcChanged := false)])
  {
    AfterPushes(STATIC_CALLER, msg, pushes);
    ProgramStep(STATIC_CALLER, msg, pushes, call);
    CallNext(msg, call);
  }

  lemma ReplaceFirst(a: Context, b: Context, outer: seq<Context>, inner: Context)
    ensures var cs := [a] + outer + [inner]; cs[..|cs| - 1][0 := b] == [b] + outer
  {
  }

  lemma StopNext(msg: Message, ch: Choice, words: seq<nat>, outer: seq<Context>, inner: Context)
    requires Head([Caller(msg, words)] + outer + [inner])
    requires inner.code == [STOP] && inner.pc == 0 && inner.handler == CallReturn(0, 0, 0) && |words| < MAX_STACK
    ensures var ds := [Caller(msg, [1] + words)] + outer;
            NextState(Continue([Caller(msg, words)] + outer + [inner]), ch) ==
            Continue(ds[|ds| - 1 := StepContext(ds[|ds| - 1])])
  {
    var cs := [Caller(msg, words)] + outer + [inner];
    StopEnds(cs, ch);
    ReplaceFirst(Caller(msg, words), Caller(msg, [1] + words), outer, inner);
  }

  /** The callee stops at once, and does so twice: its code is run in the ordinary context and then from the start in
      the static one, and the caller goes on with two words instead of one. */
  lemma CalleeStopsTwice(msg: Message, pushes: seq<Choice>, call: Choice, a: Choice, b: Choice)
    requires |pushes| == 6 && !call.refused && call.target == [STOP]
    ensures RunProgram(STATIC_CALLER, msg, pushes + [call] + [a]) ==
            Continue([Caller(msg, [1]), Callee(msg).(pcChanged := false)])
    ensures RunProgram(STATIC_CALLER, msg, pushes + [call] + [a] + [b]) == Continue([Caller(msg, [1, 1]).(pc := 7)])
  {
    CalleeOpened(msg, pushes, call);
    var top := Ordinary(Callee(msg)).(pcChanged := false);
    assert [Caller(msg, []), Callee(msg), top] == [Caller(msg, [])] + [Callee(msg)] + [top];
    ProgramStep(STATIC_CALLER, msg, pushes + [call], a);
    StopNext(msg, a, [], [Callee(msg)], top);
    var next := Callee(msg).(pcChanged := false);
    assert [1] + [] == [1] && [1] + [1] == [1, 1];
    assert ([Caller(msg, [1])] + [Callee(msg)])[1 := next] == [Caller(msg, [1]), next] ==
      [Caller(msg, [1])] + [] + [next];
    ProgramStep(STATIC_CALLER, msg, pushes + [call] + [a], b);
    StopNext(msg, b, [1], [], next);
    var ds := [Caller(msg, [1] + [1])] + [];
    assert StepContext(ds[0]) == Caller(msg, [1, 1]).(pc := 7);
    assert ds[0 := StepContext(ds[0])] == [Caller(msg, [1, 1]).(pc := 7)];
  }
}
