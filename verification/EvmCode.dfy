/** Code analysis: instruction boundaries of the linear scan and the valid jump destinations (Yellow Paper, section
    9.4.3). */
module EvmCode {
  import opened ByteStrings

  const JUMPDEST: byte := 0x5b
  const PUSH0: byte := 0x5f
  const PUSH1: byte := 0x60
  const PUSH32: byte := 0x7f

  /** Immediate bytes that follow an opcode. */
  function Immediates(op: byte): (n: nat)
  {
    if PUSH1 <= op <= PUSH32 then op - PUSH1 + 1 else 0
  }

  function Next(code: seq<byte>, i: nat): (next: nat)
    requires i < |code|
    ensures next > i
  {
    i + 1 + Immediates(code[i])
  }

  /** The linear scan that is at j reaches i. */
  predicate Reaches(code: seq<byte>, j: nat, i: nat)
    decreases i - j
  {
    j == i || (j < i && j < |code| && Reaches(code, Next(code, j), i))
  }

  /** i is the start of an instruction, or the end of the scan. */
  predicate IsStart(code: seq<byte>, i: nat)
  {
    Reaches(code, 0, i)
  }

  lemma {:induction false} ReachesNext(code: seq<byte>, j: nat, i: nat)
    requires Reaches(code, j, i) && i < |code|
    ensures Reaches(code, j, Next(code, i))
    decreases i - j
  {
    if j == i {
      assert Reaches(code, Next(code, i), Next(code, i));
    } else {
      ReachesNext(code, Next(code, j), i);
    }
  }

  /** Between two neighbouring starts there is none: a start is never inside an immediate. */
  lemma {:induction false} NoStartInside(code: seq<byte>, j: nat, i: nat, k: nat)
    requires Reaches(code, j, i) && i < |code| && i < k < Next(code, i)
    ensures !Reaches(code, j, k)
    decreases i - j
  {
    if j == i {
      ReachesOnlyForward(code, Next(code, i), k);
    } else {
      NoStartInside(code, Next(code, j), i, k);
    }
  }

  lemma ReachesOnlyForward(code: seq<byte>, j: nat, i: nat)
    requires i < j
    ensures !Reaches(code, j, i)
  {
  }

  predicate IsJumpDest(code: seq<byte>, i: nat)
  {
    i < |code| && IsStart(code, i) && code[i] == JUMPDEST
  }

  ghost function JumpDests(code: seq<byte>): (s: set<nat>)
  {
    set i | 0 <= i < |code| && IsJumpDest(code, i)
  }

  /** The constructor's scan finds exactly the valid destinations. */
  method ComputeJumpDests(code: seq<byte>) returns (dests: set<nat>)
    ensures dests == JumpDests(code)
  {
    dests := {};
    var i := 0;
    while i < |code|
      invariant i >= 0 && IsStart(code, i)
      invariant forall k: nat :: k in dests <==> k < i && IsJumpDest(code, k)
    {
      var op := code[i];
      ReachesNext(code, 0, i);
      forall k | i < k < Next(code, i) ensures !IsStart(code, k) {
        NoStartInside(code, 0, i, k);
      }
      if PUSH1 <= op <= PUSH32 {
        i := i + (op - PUSH1 + 1);
      } else if op == JUMPDEST {
        dests := dests + {i};
      }
      i := i + 1;
    }
  }
}
