/** The keys a policy function touches (tee/src/queue/types.h). */
module PolicyFunction {
  import opened Wrappers
  import opened Bits
  import opened Blocks

  /** An ABI-encoded word or byte string, as it travels in state vectors; or the text of a value. */
  datatype Cell = Cell(hex: string)

  /** A value in its two forms. */
  datatype Value = Value(encoded: Cell, plain: Cell)

  datatype Access = Access(name: string, keys: seq<seq<string>>)
  datatype Input = Input(name: string, value: Value)
  datatype Function = Function(accesses: seq<Access>, inputs: seq<Input>)

  function Form(v: Value, encoded: bool): (r: Cell)
  {
    if encoded then v.encoded else v.plain
  }

  /** The values of the inputs with this name. */
  function Matching(inputs: seq<Input>, part: string, encoded: bool): (r: seq<Cell>)
  {
    if inputs == [] then []
    else Matching(inputs[..|inputs| - 1], part, encoded) +
         (if inputs[|inputs| - 1].name == part then [Form(inputs[|inputs| - 1].value, encoded)] else [])
  }

  function PartCells(fn: Function, sender: Value, encoded: bool, part: string): (r: seq<Cell>)
  {
    if part == "msg.sender" then [Form(sender, encoded)] else Matching(fn.inputs, part, encoded)
  }

  function KeyCells(fn: Function, sender: Value, encoded: bool, key: seq<string>): (r: seq<Cell>)
  {
    if key == [] then []
      else KeyCells(fn, sender, encoded, key[..|key| - 1]) + PartCells(fn, sender, encoded, key[|key| - 1])
  }

  function AllKeyCells(fn: Function, sender: Value, encoded: bool, keys: seq<seq<string>>): (r: seq<Cell>)
  {
    if keys == [] then []
    else AllKeyCells(fn, sender, encoded, keys[..|keys| - 1]) + KeyCells(fn, sender, encoded, keys[|keys| - 1])
  }

  /** The keys of a state, over every access to it, in order. */
  function KeysOf(accesses: seq<Access>, name: string): (r: seq<seq<string>>)
  {
    if accesses == [] then []
    else KeysOf(accesses[..|accesses| - 1], name) +
         (if accesses[|accesses| - 1].name == name then accesses[|accesses| - 1].keys else [])
  }

  /** All parts of a key for position -1, else the one part at the position. */
  predicate Pickable(key: seq<string>, pos: int)
  {
    pos == -1 || 0 <= pos < |key|
  }

  function Pick(key: seq<string>, pos: int): (r: seq<string>)
    requires Pickable(key, pos)
  {
    if pos == -1 then key else [key[pos]]
  }

  predicate AllPickable(keys: seq<seq<string>>, pos: int)
  {
    forall k :: 0 <= k < |keys| ==> Pickable(keys[k], pos)
  }

  function PickAll(keys: seq<seq<string>>, pos: int): (r: seq<seq<string>>)
    requires AllPickable(keys, pos)
    ensures |r| == |keys|
  {
    seq(|keys|, k requires 0 <= k < |keys| => Pick(keys[k], pos))
  }

  lemma AllKeyCellsSnoc(fn: Function, sender: Value, encoded: bool, keys: seq<seq<string>>, key: seq<string>)
    ensures AllKeyCells(fn, sender, encoded, keys + [key]) ==
            AllKeyCells(fn, sender, encoded, keys) + KeyCells(fn, sender, encoded, key)
  {
    var all := keys + [key];
    assert all[..|all| - 1] == keys && all[|all| - 1] == key;
  }

  lemma {:induction false} AllKeyCellsJoin(fn: Function, sender: Value, encoded: bool, a: seq<seq<string>>,
                                           b: seq<seq<string>>)
    ensures AllKeyCells(fn, sender, encoded, a + b) ==
            AllKeyCells(fn, sender, encoded, a) + AllKeyCells(fn, sender, encoded, b)
  {
    if b == [] {
      assert a + b == a;
    } else {
      var front, last := b[..|b| - 1], b[|b| - 1];
      AllKeyCellsJoin(fn, sender, encoded, a, front);
      JoinStep(fn, sender, encoded, a, b, front, last);
    }
  }

  lemma JoinStep(fn: Function, sender: Value, encoded: bool, a: seq<seq<string>>, b: seq<seq<string>>,
                 front: seq<seq<string>>, last: seq<string>)
    requires b == front + [last]
    requires AllKeyCells(fn, sender, encoded, a + front) ==
             AllKeyCells(fn, sender, encoded, a) + AllKeyCells(fn, sender, encoded, front)
    ensures AllKeyCells(fn, sender, encoded, a + b) ==
            AllKeyCells(fn, sender, encoded, a) + AllKeyCells(fn, sender, encoded, b)
  {
    AllKeyCellsSnoc(fn, sender, encoded, a + front, last);
    AllKeyCellsSnoc(fn, sender, encoded, front, last);
    Reassociate(a, front, [last]);
    Reassociate(AllKeyCells(fn, sender, encoded, a), AllKeyCells(fn, sender, encoded, front),
                KeyCells(fn, sender, encoded, last));
  }

  /** What the accessor returns for a list of keys: the cells of the picked parts, or an exception. */
  function Picked(fn: Function, sender: Value, encoded: bool, pos: int, keys: seq<seq<string>>): (r: Option<seq<Cell>>)
  {
    if AllPickable(keys, pos) then Some(AllKeyCells(fn, sender, encoded, PickAll(keys, pos))) else None
  }

  lemma PickedJoin(fn: Function, sender: Value, encoded: bool, pos: int, a: seq<seq<string>>, b: seq<seq<string>>)
    ensures var x, y := Picked(fn, sender, encoded, pos, a), Picked(fn, sender, encoded, pos, b);
            Picked(fn, sender, encoded, pos, a + b) == if x.Some? && y.Some? then Some(x.value + y.value) else None
  {
    if AllPickable(a, pos) && AllPickable(b, pos) {
      assert PickAll(a + b, pos) == PickAll(a, pos) + PickAll(b, pos);
      AllKeyCellsJoin(fn, sender, encoded, PickAll(a, pos), PickAll(b, pos));
    } else {
      forall k | 0 <= k < |a| && !Pickable(a[k], pos) ensures !AllPickable(a + b, pos) {
        assert (a + b)[k] == a[k];
      }
      forall k | 0 <= k < |b| && !Pickable(b[k], pos) ensures !AllPickable(a + b, pos) {
        assert (a + b)[|a| + k] == b[k];
      }
    }
  }

  lemma PickedOne(fn: Function, sender: Value, encoded: bool, pos: int, key: seq<string>)
    ensures Picked(fn, sender, encoded, pos, [key]) ==
            if Pickable(key, pos) then Some(KeyCells(fn, sender, encoded, Pick(key, pos))) else None
  {
    if Pickable(key, pos) {
      var one := [Pick(key, pos)];
      assert forall k :: 0 <= k < 1 ==> [key][k] == key;
      assert AllPickable([key], pos) && PickAll([key], pos) == one;
      assert one[..0] == [] && AllKeyCells(fn, sender, encoded, one) == [] + KeyCells(fn, sender, encoded, one[0]);
      assert AllKeyCells(fn, sender, encoded, one) == KeyCells(fn, sender, encoded, Pick(key, pos));
    } else {
      assert [key][0] == key;
    }
  }

  /** One more access: its keys are added if it is an access to the state. */
  lemma NextAccess(fn: Function, sender: Value, encoded: bool, pos: int, name: string, a: nat)
    requires a < |fn.accesses|
    ensures var before, keys := Picked(fn, sender, encoded, pos, KeysOf(fn.accesses[..a], name)), fn.accesses[a].keys;
            var more := Picked(fn, sender, encoded, pos, keys);
            Picked(fn, sender, encoded, pos, KeysOf(fn.accesses[..a + 1], name)) ==
            if fn.accesses[a].name != name then before
            else if before.Some? && more.Some? then Some(before.value + more.value) else None
  {
    assert fn.accesses[..a + 1][..a] == fn.accesses[..a];
    if fn.accesses[a].name == name {
      PickedJoin(fn, sender, encoded, pos, KeysOf(fn.accesses[..a], name), fn.accesses[a].keys);
    } else {
      assert KeysOf(fn.accesses[..a + 1], name) == KeysOf(fn.accesses[..a], name);
    }
  }

  method GetMappingKeys(fn: Function, sender: Value, name: string, pos: int, encoded: bool)
    returns (res: Option<seq<Cell>>)
    ensures res == Picked(fn, sender, encoded, pos, KeysOf(fn.accesses, name))
  {
    var cells := [];
    for a := 0 to |fn.accesses|
      invariant Picked(fn, sender, encoded, pos, KeysOf(fn.accesses[..a], name)) == Some(cells)
    {
      NextAccess(fn, sender, encoded, pos, name, a);
      if fn.accesses[a].name == name {
        var more := KeyListCells(fn, sender, fn.accesses[a].keys, pos, encoded);
        if more.None? {
          RefusedLater(fn, sender, encoded, pos, name, a + 1);
          return None;
        }
        cells := cells + more.value;
      }
    }
    assert fn.accesses[..|fn.accesses|] == fn.accesses;
    res := Some(cells);
  }

  /** A refused prefix of the accesses makes the whole refused. */
  lemma {:induction false} RefusedLater(fn: Function, sender: Value, encoded: bool, pos: int, name: string, a: nat)
    requires a <= |fn.accesses| && Picked(fn, sender, encoded, pos, KeysOf(fn.accesses[..a], name)).None?
    ensures Picked(fn, sender, encoded, pos, KeysOf(fn.accesses, name)).None?
    decreases |fn.accesses| - a
  {
    if a < |fn.accesses| {
      NextAccess(fn, sender, encoded, pos, name, a);
      RefusedLater(fn, sender, encoded, pos, name, a + 1);
    } else {
      assert fn.accesses[..a] == fn.accesses;
    }
  }

  method KeyListCells(fn: Function, sender: Value, keys: seq<seq<string>>, pos: int, encoded: bool)
    returns (res: Option<seq<Cell>>)
    ensures res == Picked(fn, sender, encoded, pos, keys)
  {
    var cells := [];
    assert keys[..0] == [] && PickAll([], pos) == [];
    for k := 0 to |keys|
      invariant Picked(fn, sender, encoded, pos, keys[..k]) == Some(cells)
    {
      assert keys[..k + 1] == keys[..k] + [keys[k]];
      PickedJoin(fn, sender, encoded, pos, keys[..k], [keys[k]]);
      PickedOne(fn, sender, encoded, pos, keys[k]);
      var nested := keys[k];
      if pos != -1 {
        if !(0 <= pos < |nested|) {
          return None;
        }
        nested := [nested[pos]];
      }
      var more := NestedCells(fn, sender, nested, encoded);
      cells := cells + more;
    }
    assert keys[..|keys|] == keys;
    res := Some(cells);
  }

  method NestedCells(fn: Function, sender: Value, key: seq<string>, encoded: bool) returns (res: seq<Cell>)
    ensures res == KeyCells(fn, sender, encoded, key)
  {
    res := [];
    for p := 0 to |key|
      invariant res == KeyCells(fn, sender, encoded, key[..p])
    {
      assert key[..p + 1][..p] == key[..p];
      var part := InputCells(fn, sender, key[p], encoded);
      res := res + part;
    }
    assert key[..|key|] == key;
  }

  /** The cells of one part of a key: the sender, or every input of that name. */
  method InputCells(fn: Function, sender: Value, part: string, encoded: bool) returns (res: seq<Cell>)
    ensures res == PartCells(fn, sender, encoded, part)
  {
    if part == "msg.sender" {
      return [if encoded then sender.encoded else sender.plain];
    }
    res := [];
    for i := 0 to |fn.inputs|
      invariant res == Matching(fn.inputs[..i], part, encoded)
    {
      assert fn.inputs[..i + 1][..i] == fn.inputs[..i];
      if fn.inputs[i].name == part {
        res := res + [if encoded then fn.inputs[i].value.encoded else fn.inputs[i].value.plain];
      }
    }
    assert fn.inputs[..|fn.inputs|] == fn.inputs;
  }

  method GetKeysSize(fn: Function, name: string) returns (sum: nat)
    ensures sum == |KeysOf(fn.accesses, name)|
  {
    sum := 0;
    for a := 0 to |fn.accesses|
      invariant sum == |KeysOf(fn.accesses[..a], name)|
    {
      assert fn.accesses[..a + 1][..a] == fn.accesses[..a];
      if fn.accesses[a].name == name {
        sum := sum + |fn.accesses[a].keys|;
      }
    }
    assert fn.accesses[..|fn.accesses|] == fn.accesses;
  }

  /** Every part of the key names the sender or exactly one input. */
  ghost predicate Resolves(fn: Function, sender: Value, encoded: bool, key: seq<string>)
  {
    forall p :: 0 <= p < |key| ==> |PartCells(fn, sender, encoded, key[p])| == 1
  }

  lemma {:induction false} KeyCellsLength(fn: Function, sender: Value, encoded: bool, key: seq<string>)
    requires Resolves(fn, sender, encoded, key)
    ensures |KeyCells(fn, sender, encoded, key)| == |key|
  {
    if key != [] {
      KeyCellsLength(fn, sender, encoded, key[..|key| - 1]);
    }
  }

  /** The two accessors agree: resolved keys of one depth fill depth cells each. */
  lemma {:induction false} KeysFillCells(fn: Function, sender: Value, encoded: bool, keys: seq<seq<string>>, depth: nat)
    requires forall k :: 0 <= k < |keys| ==> |keys[k]| == depth && Resolves(fn, sender, encoded, keys[k])
    ensures |AllKeyCells(fn, sender, encoded, keys)| == Times(depth, |keys|)
  {
    if keys != [] {
      KeysFillCells(fn, sender, encoded, keys[..|keys| - 1], depth);
      KeyCellsLength(fn, sender, encoded, keys[|keys| - 1]);
    }
  }

  /** With a position inside every key, resolved keys give one cell each. */
  lemma PickedFillOne(fn: Function, sender: Value, encoded: bool, pos: int, keys: seq<seq<string>>)
    requires pos != -1 && AllPickable(keys, pos)
    requires forall k :: 0 <= k < |keys| ==> Resolves(fn, sender, encoded, keys[k])
    ensures |Picked(fn, sender, encoded, pos, keys).value| == |keys|
  {
    var picked := PickAll(keys, pos);
    forall k | 0 <= k < |picked| ensures |picked[k]| == 1 && Resolves(fn, sender, encoded, picked[k]) {
      assert Pickable(keys[k], pos) && picked[k] == [keys[k][pos]];
    }
    KeysFillCells(fn, sender, encoded, picked, 1);
    TimesIsMul(1, |keys|);
  }

  /** How many inputs have this name. */
  function CountNamed(inputs: seq<Input>, part: string): (n: nat)
  {
    if inputs == [] then 0
    else CountNamed(inputs[..|inputs| - 1], part) + (if inputs[|inputs| - 1].name == part then 1 else 0)
  }

  /** The part of a key is the sender or exactly one input. */
  predicate Named(fn: Function, part: string)
  {
    part == "msg.sender" || CountNamed(fn.inputs, part) == 1
  }

  predicate AllNamed(fn: Function, key: seq<string>)
  {
    forall p :: 0 <= p < |key| ==> Named(fn, key[p])
  }

  /** The function with these values for its inputs. */
  function Filled(fn: Function, val: string -> Value): (r: Function)
    ensures |r.inputs| == |fn.inputs| && r.accesses == fn.accesses
  {
    fn.(inputs := seq(|fn.inputs|, i requires 0 <= i < |fn.inputs| => Input(fn.inputs[i].name, val(fn.inputs[i].name))))
  }

  /** What the inputs with a name yield: its value, as often as the name occurs. */
  lemma {:induction false} MatchingValues(inputs: seq<Input>, val: string -> Value, part: string, encoded: bool)
    requires forall i :: 0 <= i < |inputs| ==> inputs[i].value == val(inputs[i].name)
    ensures Matching(inputs, part, encoded) == seq(CountNamed(inputs, part), _ => Form(val(part), encoded))
  {
    if inputs != [] {
      MatchingValues(inputs[..|inputs| - 1], val, part, encoded);
    }
  }

  lemma {:induction false} SameCount(inputs: seq<Input>, others: seq<Input>, part: string)
    requires |inputs| == |others| && forall i :: 0 <= i < |inputs| ==> inputs[i].name == others[i].name
    ensures CountNamed(inputs, part) == CountNamed(others, part)
  {
    if inputs != [] {
      SameCount(inputs[..|inputs| - 1], others[..|others| - 1], part);
    }
  }

  lemma PartIsValue(fn: Function, val: string -> Value, encoded: bool, part: string)
    requires Named(fn, part)
    ensures PartCells(Filled(fn, val), val("msg.sender"), encoded, part) == [Form(val(part), encoded)]
  {
    if part != "msg.sender" {
      MatchingValues(Filled(fn, val).inputs, val, part, encoded);
      SameCount(fn.inputs, Filled(fn, val).inputs, part);
    }
  }

  /** The values of a list of names. */
  function Forms(val: string -> Value, encoded: bool, names: seq<string>): (r: seq<Cell>)
    ensures |r| == |names| && forall i :: 0 <= i < |names| ==> r[i] == Form(val(names[i]), encoded)
  {
    seq(|names|, i requires 0 <= i < |names| => Form(val(names[i]), encoded))
  }

  lemma {:induction false} KeyIsValues(fn: Function, val: string -> Value, encoded: bool, key: seq<string>)
    requires AllNamed(fn, key)
    ensures KeyCells(Filled(fn, val), val("msg.sender"), encoded, key) == Forms(val, encoded, key)
  {
    if key != [] {
      KeyIsValues(fn, val, encoded, key[..|key| - 1]);
      PartIsValue(fn, val, encoded, key[|key| - 1]);
    }
  }

  /** The parts of all keys, one after the other. */
  function Flat(keys: seq<seq<string>>): (names: seq<string>)
  {
    if keys == [] then [] else Flat(keys[..|keys| - 1]) + keys[|keys| - 1]
  }

  lemma FormsJoin(val: string -> Value, encoded: bool, a: seq<string>, b: seq<string>)
    ensures Forms(val, encoded, a + b) == Forms(val, encoded, a) + Forms(val, encoded, b)
  {
  }

  /** The cells of the keys are the values of their parts. */
  lemma {:induction false} CellsAreValues(fn: Function, val: string -> Value, encoded: bool, keys: seq<seq<string>>)
    requires forall k :: 0 <= k < |keys| ==> AllNamed(fn, keys[k])
    ensures AllKeyCells(Filled(fn, val), val("msg.sender"), encoded, keys) == Forms(val, encoded, Flat(keys))
  {
    if keys != [] {
      var front, last := keys[..|keys| - 1], keys[|keys| - 1];
      CellsAreValues(fn, val, encoded, front);
      KeyIsValues(fn, val, encoded, last);
      FormsJoin(val, encoded, Flat(front), last);
    }
  }

  lemma {:induction false} FlatSingles(keys: seq<seq<string>>)
    requires forall k :: 0 <= k < |keys| ==> |keys[k]| == 1
    ensures |Flat(keys)| == |keys| && forall k :: 0 <= k < |keys| ==> Flat(keys)[k] == keys[k][0]
  {
    if keys != [] {
      FlatSingles(keys[..|keys| - 1]);
    }
  }

  lemma {:induction false} FlatLength(keys: seq<seq<string>>, depth: nat)
    requires forall k :: 0 <= k < |keys| ==> |keys[k]| == depth
    ensures |Flat(keys)| == Times(depth, |keys|)
  {
    if keys != [] {
      FlatLength(keys[..|keys| - 1], depth);
    }
  }

  /** The names of the parts at a position. */
  function NamesAt(keys: seq<seq<string>>, pos: int): (names: seq<string>)
    requires pos != -1 && AllPickable(keys, pos)
    ensures |names| == |keys|
    ensures forall k :: 0 <= k < |keys| ==> Pickable(keys[k], pos) && names[k] == keys[k][pos]
  {
    seq(|keys|, k requires 0 <= k < |keys| => assert Pickable(keys[k], pos); keys[k][pos])
  }

  /** Picking the parts at a position gives their values. */
  lemma PickedValues(fn: Function, val: string -> Value, encoded: bool, pos: int, keys: seq<seq<string>>)
    requires pos != -1 && AllPickable(keys, pos) && forall k :: 0 <= k < |keys| ==> AllNamed(fn, keys[k])
    ensures Picked(Filled(fn, val), val("msg.sender"), encoded, pos, keys) ==
            Some(Forms(val, encoded, NamesAt(keys, pos)))
  {
    var picked := PickAll(keys, pos);
    forall k | 0 <= k < |picked| ensures picked[k] == [NamesAt(keys, pos)[k]] && AllNamed(fn, picked[k]) {
      assert Pickable(keys[k], pos) && AllNamed(fn, keys[k]);
    }
    CellsAreValues(fn, val, encoded, picked);
    FlatSingles(picked);
    assert Flat(picked) == NamesAt(keys, pos);
  }
}
