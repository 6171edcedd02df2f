/** The interpreter with its arithmetic: the word that an arithmetic instruction leaves is computed from the words it
    takes; every other answer still comes from outside. */
module EvmArithmetic {
  import opened Wrappers
  import opened ByteStrings
  import opened Evm
  import opened EvmInstructions
  import Words = EvmWords

  /** The answer with the word that the arithmetic instruction at hand makes of its operands. */
  function Resolve(c: Context, ch: Choice): (r: Choice)
  {
    if c.pc >= |c.code| || !Words.Computes(c.code[c.pc]) then ch
    else match Operands(c.code[c.pc], c.stack)
      case None => ch
      case Some(narrow) =>
        match PopAll(c.stack, narrow)
        case None => ch
        case Some(p) => ch.(word := Words.Compute(c.code[c.pc], p.0))
  }

  /** The instructions of the machine. */
  function Machine(): (isa: Isa)
  {
    (c: Context, ch: Choice) => Instructions()(c, Resolve(c, ch))
  }

  lemma MachineSafe()
    ensures SafeIsa(Machine())
  {
    InstructionsSafe();
    forall c, ch ensures SafeAt(Machine(), c, ch) {
      assert SafeAt(Instructions(), c, Resolve(c, ch));
    }
  }

  lemma InstructionsAre(c: Context, ch: Choice)
    requires c.pc < |c.code|
    ensures Instructions()(c, ch) == Instruction(c, ch)
  {
  }

  lemma MachineIs(c: Context, ch: Choice)
    requires c.pc < |c.code|
    ensures Machine()(c, ch) == Instruction(c, Resolve(c, ch))
  {
    var r := Resolve(c, ch);
    assert Machine()(c, ch) == Instructions()(c, r);
    InstructionsAre(c, r);
  }

  lemma ComputesReplaces(op: byte)
    requires Words.Computes(op)
    ensures Replaces(op)
  {
  }

  lemma ResolvedWord(c: Context, ch: Choice)
    requires c.pc < |c.code| && Words.Computes(c.code[c.pc]) && OperandsFit(c.code[c.pc], c.stack)
    ensures var op := c.code[c.pc];
            Resolve(c, ch) == ch.(word := Words.Compute(op, c.stack[..Taken(op, c.stack)]))
  {
    ComputesReplaces(c.code[c.pc]);
    OperandsPop(c.code[c.pc], c.stack);
  }

  /** An arithmetic instruction replaces the words it takes by the one computed from them, the first being the top. */
  lemma ArithmeticMeans(c: Context, ch: Choice)
    requires c.pc < |c.code| && Words.Computes(c.code[c.pc])
    ensures var op, e, n := c.code[c.pc], Machine()(c, ch), Taken(c.code[c.pc], c.stack);
            if OperandsFit(op, c.stack)
            then Pushes(c.(stack := c.stack[n..]), e, Words.Compute(op, c.stack[..n]))
            else e.Raise?
  {
    MachineIs(c, ch);
    ComputesReplaces(c.code[c.pc]);
    ReplacesMeans(c, Resolve(c, ch));
    if OperandsFit(c.code[c.pc], c.stack) {
      ResolvedWord(c, ch);
    }
  }

  // ------------------------------------------------------------------------------------------------- whole runs

  /** The answers of a run, each with the words of the arithmetic filled in. */
  ghost function Resolved(turn: Turn, cs: seq<Context>, choices: seq<Choice>): (r: seq<Choice>)
    requires KeepsHead(turn) && Head(cs)
    ensures |r| == |choices|
    decreases |choices|
  {
    if choices == [] then []
    else
      var ch := Resolve(cs[|cs| - 1], choices[0]);
      match turn(cs, ch)
      case Continue(ds) => [ch] + Resolved(turn, ds, choices[1..])
      case _ => [ch] + choices[1..]
  }

  lemma SameIteration(cs: seq<Context>, ch: Choice)
    requires SafeIsa(Machine()) && SafeIsa(Instructions())
    requires Head(cs) && cs[|cs| - 1].pc < |cs[|cs| - 1].code|
    ensures Iterate(Machine(), cs, ch) == Iterate(Instructions(), cs, Resolve(cs[|cs| - 1], ch))
  {
    assert Dispatch(Machine(), cs, ch) == Dispatch(Instructions(), cs, Resolve(cs[|cs| - 1], ch));
  }

  lemma SameTurn(cs: seq<Context>, ch: Choice)
    requires SafeIsa(Machine()) && SafeIsa(Instructions()) && Head(cs)
    ensures TurnOf(Machine())(cs, ch) == TurnOf(Instructions())(cs, Resolve(cs[|cs| - 1], ch))
  {
    if cs[|cs| - 1].pc < |cs[|cs| - 1].code| {
      SameIteration(cs, ch);
    }
  }

  /** A turn that fills in the words is the other turn on the filled-in answers. */
  ghost predicate Fills(machine: Turn, turn: Turn)
  {
    forall cs, ch :: Head(cs) ==> machine(cs, ch) == turn(cs, Resolve(cs[|cs| - 1], ch))
  }

  lemma {:induction false} SameRun(machine: Turn, turn: Turn, cs: seq<Context>, choices: seq<Choice>)
    requires KeepsHead(machine) && KeepsHead(turn) && Fills(machine, turn) && Head(cs)
    ensures Run(machine, cs, choices) == Run(turn, cs, Resolved(turn, cs, choices))
    decreases |choices|
  {
    if choices == [] {
    } else {
      var ch := Resolve(cs[|cs| - 1], choices[0]);
      var r := Resolved(turn, cs, choices);
      match turn(cs, ch)
      case Continue(ds) =>
        SameRun(machine, turn, ds, choices[1..]);
        assert r[0] == ch && r[1..] == Resolved(turn, ds, choices[1..]);
      case _ =>
        assert r[0] == ch;
    }
  }

  /** Every run of the machine is a run of the program under answers of the same number: whatever holds of all runs
      holds of the runs with real arithmetic. */
  lemma MachineRuns(code: seq<byte>, msg: Message, choices: seq<Choice>)
    ensures SafeIsa(Machine())
    ensures exists filled: seq<Choice> ::
              |filled| == |choices| && RunOf(Machine(), code, msg, choices) == RunProgram(code, msg, filled)
  {
    MachineSafe();
    InstructionsSafe();
    TurnKeepsHead(Machine());
    TurnKeepsHead(Instructions());
    var machine, turn := TurnOf(Machine()), TurnOf(Instructions());
    forall cs, ch | Head(cs) ensures machine(cs, ch) == turn(cs, Resolve(cs[|cs| - 1], ch)) {
      SameTurn(cs, ch);
    }
    SameRun(machine, turn, Start(code, msg), choices);
    var filled := Resolved(turn, Start(code, msg), choices);
    assert RunProgram(code, msg, filled) == Run(turn, Start(code, msg), filled);
  }
}
