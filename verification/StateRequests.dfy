/** The public keys that are asked for before the states are decrypted, and whether they are the ones encryption
    needs. */
module StateRequests {
  import opened Wrappers
  import opened Bits
  import opened PolicyFunction
  import opened StateRecords
  import opened StateOwners

  function OneAddress(addresses: map<string, Cell>, name: string): (r: Option<seq<Cell>>)
  {
    if name in addresses then Some([addresses[name]]) else None
  }

  /** The addresses asked for because of one state; None when an address or a part of a key is not there. */
  function RequestsOf(tx: Tx, p: Param, addresses: map<string, Cell>): (r: Option<seq<Cell>>)
  {
    match p.owner
    case All => Some([])
    case Tee => Some([])
    case PerKey(pos, variable) => if pos == -1 then OneAddress(addresses, variable) else tx.keyParts(p.name, pos)
    case Identifier(s) => OneAddress(addresses, s)
  }

  /** The addresses asked for because of the first n states, in order. */
  function Requests(tx: Tx, addresses: map<string, Cell>, n: nat): (r: Option<seq<Cell>>)
    requires n <= |tx.states|
  {
    if n == 0 then Some([])
    else
      var before, last := Requests(tx, addresses, n - 1), RequestsOf(tx, tx.states[n - 1], addresses);
      if before.Some? && last.Some? then Some(before.value + last.value) else None
  }

  lemma {:induction false} RequestsFail(tx: Tx, addresses: map<string, Cell>, k: nat, n: nat)
    requires k < n <= |tx.states| && RequestsOf(tx, tx.states[k], addresses).None?
    ensures Requests(tx, addresses, n).None?
  {
    if k < n - 1 {
      RequestsFail(tx, addresses, k, n - 1);
    }
  }

  /** The first walk: the addresses in the owner variables' own records. */
  method OwnAddresses(tx: Tx, v: seq<Cell>) returns (addresses: map<string, Cell>)
    requires Complete(tx, v, true)
    ensures addresses == OwnAddressesOf(tx, v, |tx.states|)
  {
    var visits := VisitComplete(tx, v, true);
    addresses := map[];
    for i := 0 to |visits|
      invariant addresses == OwnAddressesOf(tx, v, i)
    {
      assert VisitAt(tx, true, visits, i) && CompleteAt(tx, v, true, i);
      var (id, idx) := visits[i];
      if tx.states[id].shape == Single(true) && tx.states[id].owner.All? {
        addresses := addresses[tx.states[id].name := tx.env.checksum(tx.env.num(v[idx + 1]))];
      }
    }
  }

  /** State i is the last variable with this name, and a is the address in its own record. */
  ghost predicate Holds(tx: Tx, v: seq<Cell>, name: string, i: nat, a: Cell)
  {
    && i < |tx.states| && NamesOwner(tx.states[i]) && tx.states[i].name == name && a == OwnAddress(tx, v, i)
    && forall j :: i < j < |tx.states| && NamesOwner(tx.states[j]) ==> tx.states[j].name != name
  }

  /** The address that the variable with this name holds. */
  ghost predicate IsHeld(tx: Tx, v: seq<Cell>, name: string, a: Cell)
  {
    exists i :: Holds(tx, v, name, i, a)
  }

  /** How many addresses a state asks for: one when a variable names its owner, and one for each key part at its owner's
      position. */
  function Count(tx: Tx, p: Param): (n: nat)
  {
    if p.owner.Identifier? || (p.owner.PerKey? && p.owner.pos == -1) then 1
    else if p.owner.PerKey? && tx.keyParts(p.name, p.owner.pos).Some? then |tx.keyParts(p.name, p.owner.pos).value|
    else 0
  }

  /** Where the addresses of state k start among all. */
  function StartOf(tx: Tx, k: nat): (n: nat)
    requires k <= |tx.states|
  {
    if k == 0 then 0 else StartOf(tx, k - 1) + Count(tx, tx.states[k - 1])
  }

  /** These are the addresses that state p asks for. */
  ghost predicate Because(tx: Tx, v: seq<Cell>, p: Param, asked: seq<Cell>)
  {
    match p.owner
    case Identifier(s) => |asked| == 1 && IsHeld(tx, v, s, asked[0])
    case PerKey(pos, s) =>
      if pos == -1 then |asked| == 1 && IsHeld(tx, v, s, asked[0]) else tx.keyParts(p.name, pos) == Some(asked)
    case _ => asked == []
  }

  /** The requests of all states one after the other, in the order of the states. */
  ghost predicate AskedInOrder(tx: Tx, v: seq<Cell>, asked: seq<Cell>)
  {
    && |asked| == StartOf(tx, |tx.states|)
    && forall k :: 0 <= k < |tx.states| ==> BlockOf(tx, v, asked, k)
  }

  ghost predicate BlockOf(tx: Tx, v: seq<Cell>, asked: seq<Cell>, k: nat)
    requires k < |tx.states|
  {
    && StartOf(tx, k) <= StartOf(tx, k + 1) <= |asked|
    && Because(tx, v, tx.states[k], asked[StartOf(tx, k)..StartOf(tx, k + 1)])
  }

  lemma {:induction false} FoundIsHeld(tx: Tx, v: seq<Cell>, name: string, n: nat) returns (i: nat)
    requires n <= |tx.states| && name in OwnAddressesOf(tx, v, n)
    ensures i < n && NamesOwner(tx.states[i]) && tx.states[i].name == name
    ensures OwnAddressesOf(tx, v, n)[name] == OwnAddress(tx, v, i)
    ensures forall j :: i < j < n && NamesOwner(tx.states[j]) ==> tx.states[j].name != name
  {
    var p := tx.states[n - 1];
    if NamesOwner(p) && p.name == name {
      i := n - 1;
    } else {
      i := FoundIsHeld(tx, v, name, n - 1);
    }
  }

  lemma OneIsHeld(tx: Tx, v: seq<Cell>, name: string)
    requires name in OwnAddressesOf(tx, v, |tx.states|)
    ensures IsHeld(tx, v, name, OwnAddressesOf(tx, v, |tx.states|)[name])
  {
    var i := FoundIsHeld(tx, v, name, |tx.states|);
    assert Holds(tx, v, name, i, OwnAddressesOf(tx, v, |tx.states|)[name]);
  }

  lemma StateBecause(tx: Tx, v: seq<Cell>, p: Param)
    requires RequestsOf(tx, p, OwnAddressesOf(tx, v, |tx.states|)).Some?
    ensures var r := RequestsOf(tx, p, OwnAddressesOf(tx, v, |tx.states|)).value;
            Because(tx, v, p, r) && |r| == Count(tx, p)
  {
    match p.owner
    case Identifier(s) => OneIsHeld(tx, v, s);
    case PerKey(pos, s) =>
      if pos == -1 {
        OneIsHeld(tx, v, s);
      }
    case _ =>
  }

  lemma SliceKept(a: seq<Cell>, b: seq<Cell>, i: nat, j: nat)
    requires i <= j <= |a|
    ensures (a + b)[i..j] == a[i..j]
  {
  }

  lemma SliceLast(a: seq<Cell>, b: seq<Cell>)
    ensures (a + b)[|a|..|a| + |b|] == b
  {
  }

  lemma {:induction false} BlocksInOrder(tx: Tx, v: seq<Cell>, n: nat, asked: seq<Cell>)
    requires n <= |tx.states| && Requests(tx, OwnAddressesOf(tx, v, |tx.states|), n) == Some(asked)
    ensures |asked| == StartOf(tx, n) && forall k :: 0 <= k < n ==> BlockOf(tx, v, asked, k)
  {
    var addresses := OwnAddressesOf(tx, v, |tx.states|);
    if n > 0 {
      var before, last := Requests(tx, addresses, n - 1).value, RequestsOf(tx, tx.states[n - 1], addresses).value;
      BlocksInOrder(tx, v, n - 1, before);
      StateBecause(tx, v, tx.states[n - 1]);
      SliceLast(before, last);
      forall k | 0 <= k < n ensures BlockOf(tx, v, asked, k) {
        if k < n - 1 {
          assert BlockOf(tx, v, before, k);
          SliceKept(before, last, StartOf(tx, k), StartOf(tx, k + 1));
        }
      }
    }
  }

  /** An address is asked for exactly when a variable that names an owner holds it in its own record, or it is a part of
      a key at an owner's position. */
  ghost predicate Wanted(tx: Tx, v: seq<Cell>, p: Param, a: Cell)
  {
    match p.owner
    case Identifier(s) => IsHeld(tx, v, s, a)
    case PerKey(pos, s) =>
      if pos == -1 then IsHeld(tx, v, s, a)
      else var parts := tx.keyParts(p.name, pos); parts.Some? && a in parts.value
    case _ => false
  }

  lemma HeldOnce(tx: Tx, v: seq<Cell>, name: string, a: Cell, b: Cell)
    requires IsHeld(tx, v, name, a) && IsHeld(tx, v, name, b)
    ensures a == b
  {
    var i :| Holds(tx, v, name, i, a);
    var j :| Holds(tx, v, name, j, b);
    assert i == j;
  }

  lemma BlockWanted(tx: Tx, v: seq<Cell>, p: Param, asked: seq<Cell>, a: Cell)
    requires Because(tx, v, p, asked)
    ensures a in asked <==> Wanted(tx, v, p, a)
  {
    match p.owner
    case Identifier(s) =>
      if Wanted(tx, v, p, a) {
        HeldOnce(tx, v, s, a, asked[0]);
      }
    case PerKey(pos, s) =>
      if pos == -1 && Wanted(tx, v, p, a) {
        HeldOnce(tx, v, s, a, asked[0]);
      }
    case _ =>
  }

  /** The block that position i of the requests is in. */
  lemma {:induction false} BlockAround(tx: Tx, i: nat, n: nat) returns (k: nat)
    requires n <= |tx.states| && i < StartOf(tx, n)
    ensures k < n && StartOf(tx, k) <= i < StartOf(tx, k + 1)
  {
    if i >= StartOf(tx, n - 1) {
      k := n - 1;
    } else {
      k := BlockAround(tx, i, n - 1);
    }
  }

  lemma AskedIff(tx: Tx, v: seq<Cell>, asked: seq<Cell>, a: Cell)
    requires AskedInOrder(tx, v, asked)
    ensures a in asked <==> exists k :: 0 <= k < |tx.states| && Wanted(tx, v, tx.states[k], a)
  {
    if a in asked {
      var i :| 0 <= i < |asked| && asked[i] == a;
      var k := BlockAround(tx, i, |tx.states|);
      assert BlockOf(tx, v, asked, k);
      var block := asked[StartOf(tx, k)..StartOf(tx, k + 1)];
      assert block[i - StartOf(tx, k)] == a;
      BlockWanted(tx, v, tx.states[k], block, a);
    }
    if k :| 0 <= k < |tx.states| && Wanted(tx, v, tx.states[k], a) {
      assert BlockOf(tx, v, asked, k);
      BlockWanted(tx, v, tx.states[k], asked[StartOf(tx, k)..StartOf(tx, k + 1)], a);
    }
  }

  predicate IsVariable(states: seq<Param>, name: string)
  {
    exists k :: 0 <= k < |states| && NamesOwner(states[k]) && states[k].name == name
  }

  /** The variables that owners are named by are there, and the parts of keys that are asked for. */
  ghost predicate RequestsStand(tx: Tx)
  {
    forall k :: 0 <= k < |tx.states| ==> RequestStands(tx, tx.states[k])
  }

  predicate RequestStands(tx: Tx, p: Param)
  {
    match p.owner
    case PerKey(pos, variable) =>
      if pos == -1 then IsVariable(tx.states, variable) else tx.keyParts(p.name, pos).Some?
    case Identifier(s) => IsVariable(tx.states, s)
    case _ => true
  }

  lemma {:induction false} VariableFound(tx: Tx, prior: seq<Cell>, k: nat, n: nat)
    requires k < n <= |tx.states| && NamesOwner(tx.states[k])
    ensures tx.states[k].name in OwnAddressesOf(tx, prior, n)
  {
    if k < n - 1 {
      VariableFound(tx, prior, k, n - 1);
    }
  }

  lemma VariablesFound(tx: Tx, prior: seq<Cell>, name: string)
    requires IsVariable(tx.states, name)
    ensures name in OwnAddressesOf(tx, prior, |tx.states|)
  {
    var k :| 0 <= k < |tx.states| && NamesOwner(tx.states[k]) && tx.states[k].name == name;
    VariableFound(tx, prior, k, |tx.states|);
  }

  lemma {:induction false} RequestsContain(tx: Tx, addresses: map<string, Cell>, k: nat, n: nat, a: Cell)
    requires k < n <= |tx.states| && Requests(tx, addresses, n).Some?
    ensures RequestsOf(tx, tx.states[k], addresses).Some?
    ensures a in RequestsOf(tx, tx.states[k], addresses).value ==> a in Requests(tx, addresses, n).value
  {
    if k < n - 1 {
      RequestsContain(tx, addresses, k, n - 1, a);
    }
  }

  lemma {:induction false} RequestsSucceed(tx: Tx, addresses: map<string, Cell>, n: nat)
    requires n <= |tx.states| && forall k :: 0 <= k < n ==> RequestsOf(tx, tx.states[k], addresses).Some?
    ensures Requests(tx, addresses, n).Some?
  {
    if n > 0 {
      RequestsSucceed(tx, addresses, n - 1);
    }
  }

  /** The requests succeed exactly then. */
  lemma StandsIff(tx: Tx, v: seq<Cell>)
    ensures Requests(tx, OwnAddressesOf(tx, v, |tx.states|), |tx.states|).Some? <==> RequestsStand(tx)
  {
    var addresses := OwnAddressesOf(tx, v, |tx.states|);
    forall k | 0 <= k < |tx.states|
      ensures RequestsOf(tx, tx.states[k], addresses).Some? <==> RequestStands(tx, tx.states[k])
    {
      var p := tx.states[k];
      if p.owner.Identifier? {
        FoundIsVariable(tx, v, p.owner.state);
      } else if p.owner.PerKey? {
        FoundIsVariable(tx, v, p.owner.variable);
      }
    }
    if Requests(tx, addresses, |tx.states|).Some? {
      forall k | 0 <= k < |tx.states| ensures RequestStands(tx, tx.states[k]) {
        RequestsContain(tx, addresses, k, |tx.states|, Cell(""));
      }
    } else if RequestsStand(tx) {
      RequestsSucceed(tx, addresses, |tx.states|);
    }
  }

  lemma FoundIsVariable(tx: Tx, v: seq<Cell>, name: string)
    ensures name in OwnAddressesOf(tx, v, |tx.states|) <==> IsVariable(tx.states, name)
  {
    if name in OwnAddressesOf(tx, v, |tx.states|) {
      var i := FoundIsHeld(tx, v, name, |tx.states|);
    } else if IsVariable(tx.states, name) {
      VariablesFound(tx, v, name);
    }
  }

  /** The second walk: what to ask for, and whether the tee owns something; None when a lookup throws. */
  method RequestPublicKeys(tx: Tx, v: seq<Cell>) returns (res: Option<seq<Cell>>, includedTee: bool)
    requires Complete(tx, v, true)
    ensures res == Requests(tx, OwnAddressesOf(tx, v, |tx.states|), |tx.states|)
    ensures res.Some? <==> RequestsStand(tx)
    ensures res.Some? ==> AskedInOrder(tx, v, res.value)
    ensures res.Some? ==>
            forall a :: a in res.value <==> exists k :: 0 <= k < |tx.states| && Wanted(tx, v, tx.states[k], a)
    ensures res.Some? ==> (includedTee <==> exists k :: 0 <= k < |tx.states| && tx.states[k].owner.Tee?)
  {
    StandsIff(tx, v);
    var addresses := OwnAddresses(tx, v);
    var visits := VisitComplete(tx, v, true);
    var asked := [];
    includedTee := false;
    for i := 0 to |visits|
      invariant Requests(tx, addresses, i) == Some(asked)
      invariant includedTee <==> exists k :: 0 <= k < i && tx.states[k].owner.Tee?
    {
      assert VisitAt(tx, true, visits, i);
      var p := tx.states[visits[i].0];
      var more := RequestState(tx, p, addresses);
      if more.None? {
        RequestsFail(tx, addresses, i, |tx.states|);
        return None, includedTee;
      }
      includedTee := includedTee || p.owner.Tee?;
      asked := asked + more.value;
    }
    res := Some(asked);
    BlocksInOrder(tx, v, |tx.states|, asked);
    forall a ensures a in asked <==> exists k :: 0 <= k < |tx.states| && Wanted(tx, v, tx.states[k], a) {
      AskedIff(tx, v, asked, a);
    }
  }

  method RequestState(tx: Tx, p: Param, addresses: map<string, Cell>) returns (res: Option<seq<Cell>>)
    ensures res == RequestsOf(tx, p, addresses)
  {
    match p.owner
    case All => res := Some([]);
    case Tee => res := Some([]);
    case PerKey(pos, variable) =>
      if pos == -1 {
        if variable !in addresses {
          return None;
        }
        return Some([addresses[variable]]);
      }
      res := tx.keyParts(p.name, pos);
    case Identifier(s) =>
      if s !in addresses {
        return None;
      }
      res := Some([addresses[s]]);
  }

  ghost predicate OnlyAsks(tx: Tx, p: Param, addresses: map<string, Cell>, b: Cell)
  {
    var r := RequestsOf(tx, p, addresses); r.Some? ==> forall a :: a in r.value ==> a == b
  }

  lemma {:induction false} RequestsOnly(tx: Tx, addresses: map<string, Cell>, n: nat, b: Cell)
    requires n <= |tx.states| && Requests(tx, addresses, n).Some?
    requires forall k :: 0 <= k < n ==> OnlyAsks(tx, tx.states[k], addresses, b)
    ensures forall a :: a in Requests(tx, addresses, n).value ==> a == b
  {
    if n > 0 {
      RequestsOnly(tx, addresses, n - 1, b);
      assert OnlyAsks(tx, tx.states[n - 1], addresses, b);
    }
  }

  /** A policy whose requests succeed whatever the values are: the keys of its states name their parts and have the part
      asked for, mappings are accessed by keys of their depth, and the variables that name owners are there. */
  ghost predicate PolicyOk(states: seq<Param>, fn: Function)
  {
    forall k :: 0 <= k < |states| ==> StateOk(states, fn, states[k])
  }

  ghost predicate StateOk(states: seq<Param>, fn: Function, p: Param)
  {
    var keys := KeysOf(fn.accesses, p.name);
    && (forall k :: 0 <= k < |keys| ==> AllNamed(fn, keys[k]))
    && (p.shape.Mapping? ==>
          && p.shape.depth >= 1 && (forall k :: 0 <= k < |keys| ==> |keys[k]| == p.shape.depth)
          && (p.owner.Tee? || p.owner.Identifier? ==> |keys| >= 1))
    && (p.owner.PerKey? ==>
         if p.owner.pos == -1 then IsVariable(states, p.owner.variable) else AllPickable(keys, p.owner.pos))
    && (p.owner.Identifier? ==> IsVariable(states, p.owner.state))
  }

  /** The transaction of that policy with these values. */
  ghost function TxWith(states: seq<Param>, fn: Function, val: string -> Value, publicKeys: map<Cell, Cell>,
                        env: Env): (tx: Tx)
  {
    TxOf(states, Filled(fn, val), val("msg.sender"), publicKeys, env)
  }

  /** A value whose plain form is the checksum form of the address. The sender's is; an input's is what the client
      sent. */
  predicate PlainAddress(env: Env, v: Value)
  {
    v.plain == env.checksum(env.num(v.encoded))
  }

  predicate PlainSender(env: Env, val: string -> Value)
  {
    PlainAddress(env, val("msg.sender"))
  }

  /** The key cells and the parts asked for are the values of the parts' names. */
  lemma KeysAreValues(states: seq<Param>, fn: Function, val: string -> Value, publicKeys: map<Cell, Cell>, env: Env,
                      p: Param)
    requires StateOk(states, fn, p)
    ensures var tx, keys := TxWith(states, fn, val, publicKeys, env), KeysOf(fn.accesses, p.name);
            && tx.mappingKeys(p.name) == Forms(val, true, Flat(keys)) && tx.keysSize(p.name) == |keys|
            && (p.owner.PerKey? && p.owner.pos != -1 ==>
                  tx.keyParts(p.name, p.owner.pos) == Some(Forms(val, false, NamesAt(keys, p.owner.pos))))
  {
    var keys := KeysOf(fn.accesses, p.name);
    CellsAreValues(fn, val, true, keys);
    if p.owner.PerKey? && p.owner.pos != -1 {
      PickedValues(fn, val, false, p.owner.pos, keys);
    }
  }

  lemma PolicyRequests(states: seq<Param>, fn: Function, val: string -> Value, publicKeys: map<Cell, Cell>, env: Env,
                       prior: seq<Cell>)
    requires PolicyOk(states, fn)
    ensures var tx := TxWith(states, fn, val, publicKeys, env);
            Requests(tx, OwnAddressesOf(tx, prior, |states|), |states|).Some?
  {
    var tx := TxWith(states, fn, val, publicKeys, env);
    var addresses := OwnAddressesOf(tx, prior, |states|);
    forall k | 0 <= k < |states| ensures RequestsOf(tx, tx.states[k], addresses).Some? {
      var p := states[k];
      assert StateOk(states, fn, p);
      KeysAreValues(states, fn, val, publicKeys, env, p);
      if p.owner.Identifier? {
        VariablesFound(tx, prior, p.owner.state);
      } else if p.owner.PerKey? && p.owner.pos == -1 {
        VariablesFound(tx, prior, p.owner.variable);
      }
    }
    RequestsSucceed(tx, addresses, |states|);
  }

  /** Some state asks for the key part with this name. */
  ghost predicate Asked(states: seq<Param>, fn: Function, name: string)
  {
    exists k :: 0 <= k < |states| && AsksFor(fn, states[k], name)
  }

  ghost predicate AsksFor(fn: Function, p: Param, name: string)
  {
    && p.owner.PerKey? && p.owner.pos != -1 && AllPickable(KeysOf(fn.accesses, p.name), p.owner.pos)
    && name in NamesAt(KeysOf(fn.accesses, p.name), p.owner.pos)
  }

  /** The names of the key cells that encryption takes for owners of the mapping: as many as there are keys. */
  function LookedUp(fn: Function, p: Param): (names: seq<string>)
  {
    var keys := KeysOf(fn.accesses, p.name);
    if |keys| <= |Flat(keys)| then Flat(keys)[..|keys|] else []
  }

  /** Every name taken for an owner is one that is asked for. */
  ghost predicate NamesCovered(states: seq<Param>, fn: Function)
  {
    forall k, name :: 0 <= k < |states| && OwnedPerKey(states[k]) && name in LookedUp(fn, states[k]) ==>
      Asked(states, fn, name)
  }

  /** Every public key that encryption looks up for the entries of its mappings was asked for. */
  ghost predicate EntriesAsked(tx: Tx, prior: seq<Cell>)
  {
    var r := Requests(tx, OwnAddressesOf(tx, prior, |tx.states|), |tx.states|);
    && r.Some?
    && forall k, j :: 0 <= k < |tx.states| && OwnedPerKey(tx.states[k]) && 0 <= j < tx.keysSize(tx.states[k].name) ==>
         EntryAsked(tx, tx.states[k], j, r.value)
  }

  ghost predicate EntryAsked(tx: Tx, p: Param, j: nat, asked: seq<Cell>)
  {
    OwnerAddress(tx, CellAt(tx.mappingKeys(p.name), j)) in asked
  }

  lemma LookupNamed(states: seq<Param>, fn: Function, val: string -> Value, publicKeys: map<Cell, Cell>, env: Env,
                    p: Param, j: nat)
    requires StateOk(states, fn, p) && p.shape.Mapping? && j < |KeysOf(fn.accesses, p.name)|
    ensures var tx := TxWith(states, fn, val, publicKeys, env);
            && |LookedUp(fn, p)| == |KeysOf(fn.accesses, p.name)|
            && CellAt(tx.mappingKeys(p.name), j) == val(LookedUp(fn, p)[j]).encoded
  {
    var keys := KeysOf(fn.accesses, p.name);
    KeysAreValues(states, fn, val, publicKeys, env, p);
    FlatLength(keys, p.shape.depth);
    TimesAtLeast(p.shape.depth, 1, |keys|);
    TimesIsMul(1, |keys|);
  }

  lemma AskedPart(states: seq<Param>, fn: Function, val: string -> Value, publicKeys: map<Cell, Cell>, env: Env,
                  p: Param, name: string)
    requires StateOk(states, fn, p) && AsksFor(fn, p, name)
    ensures var parts := TxWith(states, fn, val, publicKeys, env).keyParts(p.name, p.owner.pos);
            parts.Some? && val(name).plain in parts.value
  {
    KeysAreValues(states, fn, val, publicKeys, env, p);
    var names := NamesAt(KeysOf(fn.accesses, p.name), p.owner.pos);
    var i :| 0 <= i < |names| && names[i] == name;
    assert Forms(val, false, names)[i] == val(name).plain;
  }

  /** A name that is asked for brings the address of its value. */
  lemma AskedAddress(states: seq<Param>, fn: Function, val: string -> Value, publicKeys: map<Cell, Cell>, env: Env,
                     prior: seq<Cell>, name: string)
    requires PolicyOk(states, fn) && Asked(states, fn, name)
    ensures var tx := TxWith(states, fn, val, publicKeys, env);
            var r := Requests(tx, OwnAddressesOf(tx, prior, |states|), |states|);
            r.Some? && val(name).plain in r.value
  {
    var tx := TxWith(states, fn, val, publicKeys, env);
    var addresses := OwnAddressesOf(tx, prior, |states|);
    PolicyRequests(states, fn, val, publicKeys, env, prior);
    var k :| 0 <= k < |states| && AsksFor(fn, states[k], name);
    assert StateOk(states, fn, states[k]);
    AskedPart(states, fn, val, publicKeys, env, states[k], name);
    RequestsContain(tx, addresses, k, |states|, val(name).plain);
  }

  /** The values that encryption takes for owners are in checksum form. */
  ghost predicate PlainLookups(states: seq<Param>, fn: Function, env: Env, val: string -> Value)
  {
    forall k, name :: 0 <= k < |states| && OwnedPerKey(states[k]) && name in LookedUp(fn, states[k]) ==>
      PlainAddress(env, val(name))
  }

  lemma CoveredIsAsked(states: seq<Param>, fn: Function, val: string -> Value, publicKeys: map<Cell, Cell>, env: Env,
                       prior: seq<Cell>)
    requires PolicyOk(states, fn) && NamesCovered(states, fn) && PlainLookups(states, fn, env, val)
    ensures EntriesAsked(TxWith(states, fn, val, publicKeys, env), prior)
  {
    var tx := TxWith(states, fn, val, publicKeys, env);
    PolicyRequests(states, fn, val, publicKeys, env, prior);
    var asked := Requests(tx, OwnAddressesOf(tx, prior, |states|), |states|).value;
    forall k, j | 0 <= k < |states| && OwnedPerKey(states[k]) && 0 <= j < tx.keysSize(states[k].name)
      ensures EntryAsked(tx, states[k], j, asked)
    {
      assert StateOk(states, fn, states[k]);
      LookupNamed(states, fn, val, publicKeys, env, states[k], j);
      var name := LookedUp(fn, states[k])[j];
      AskedAddress(states, fn, val, publicKeys, env, prior, name);
      assert PlainAddress(env, val(name));
    }
  }

  lemma {:induction false} OwnAddressesAre(tx: Tx, prior: seq<Cell>, n: nat, b: Cell)
    requires n <= |tx.states|
    requires forall k :: 0 <= k < n && NamesOwner(tx.states[k]) ==> OwnAddress(tx, prior, k) == b
    ensures forall s :: s in OwnAddressesOf(tx, prior, n) ==> OwnAddressesOf(tx, prior, n)[s] == b
  {
    if n > 0 {
      OwnAddressesAre(tx, prior, n - 1, b);
    }
  }

  /** A state whose key parts all have the plain form b asks only for b, as long as all variables do. */
  lemma AsksOnlyB(states: seq<Param>, fn: Function, val: string -> Value, publicKeys: map<Cell, Cell>, env: Env,
                  p: Param, addresses: map<string, Cell>, b: Cell)
    requires StateOk(states, fn, p) && forall s :: AsksFor(fn, p, s) ==> val(s).plain == b
    requires forall s :: s in addresses ==> addresses[s] == b
    ensures OnlyAsks(TxWith(states, fn, val, publicKeys, env), p, addresses, b)
  {
    KeysAreValues(states, fn, val, publicKeys, env, p);
    if p.owner.PerKey? && p.owner.pos != -1 {
      var names := NamesAt(KeysOf(fn.accesses, p.name), p.owner.pos);
      forall i | 0 <= i < |names| ensures Forms(val, false, names)[i] == b {
        assert names[i] in names && AsksFor(fn, p, names[i]);
      }
    }
  }

  /** Where all that is asked for is b and a name that is looked up has another address, there is a vector for which its
      key is looked up in vain. */
  lemma LookedUpInVain(states: seq<Param>, fn: Function, val: string -> Value, publicKeys: map<Cell, Cell>, env: Env,
                       word: nat -> Cell, k: nat, name: string, b: nat) returns (prior: seq<Cell>)
    requires Numerals(env, word) && PolicyOk(states, fn)
    requires k < |states| && OwnedPerKey(states[k]) && name in LookedUp(fn, states[k])
    requires forall s :: Asked(states, fn, s) ==> val(s).plain == env.checksum(b)
    requires env.checksum(env.num(val(name).encoded)) != env.checksum(b)
    ensures Complete(TxWith(states, fn, val, publicKeys, env), prior, true)
    ensures !EntriesAsked(TxWith(states, fn, val, publicKeys, env), prior)
  {
    var tx := TxWith(states, fn, val, publicKeys, env);
    prior := BlankVector(tx, word, word(b), true);
    assert env.num(word(b)) == b;
    forall i | 0 <= i < |states| && NamesOwner(states[i]) ensures OwnAddress(tx, prior, i) == env.checksum(b) {
      assert VariableCell(tx, prior, true, i) == word(b);
    }
    OwnAddressesAre(tx, prior, |states|, env.checksum(b));
    var addresses := OwnAddressesOf(tx, prior, |states|);
    PolicyRequests(states, fn, val, publicKeys, env, prior);
    forall i | 0 <= i < |states| ensures OnlyAsks(tx, tx.states[i], addresses, env.checksum(b)) {
      assert StateOk(states, fn, states[i]);
      forall s | AsksFor(fn, states[i], s) ensures val(s).plain == env.checksum(b) {
        assert Asked(states, fn, s);
      }
      AsksOnlyB(states, fn, val, publicKeys, env, states[i], addresses, env.checksum(b));
    }
    RequestsOnly(tx, addresses, |states|, env.checksum(b));
    MissedEntry(states, fn, val, publicKeys, env, k, name, Requests(tx, addresses, |states|).value);
  }

  /** One name has the address a, in the plain form of c, and all others b. */
  function Telling(env: Env, word: nat -> Cell, name: string, a: nat, c: nat, b: nat): (val: string -> Value)
  {
    s => if s == name then Value(word(a), env.checksum(c)) else Value(word(b), env.checksum(b))
  }

  /** A name that is not asked for: values in checksum form and a vector for which its key is looked up in vain. */
  lemma NotAsked(states: seq<Param>, fn: Function, publicKeys: map<Cell, Cell>, env: Env, word: nat -> Cell, k: nat,
                 name: string)
    returns (val: string -> Value, prior: seq<Cell>)
    requires Numerals(env, word) && PolicyOk(states, fn)
    requires k < |states| && OwnedPerKey(states[k]) && name in LookedUp(fn, states[k]) && !Asked(states, fn, name)
    ensures forall s :: PlainAddress(env, val(s))
    ensures Complete(TxWith(states, fn, val, publicKeys, env), prior, true)
    ensures !EntriesAsked(TxWith(states, fn, val, publicKeys, env), prior)
  {
    var a: nat, b: nat :| env.checksum(a) != env.checksum(b);
    assert env.num(word(a)) == a && env.num(word(b)) == b;
    val := Telling(env, word, name, a, a, b);
    prior := LookedUpInVain(states, fn, val, publicKeys, env, word, k, name, b);
  }

  /** An input that is looked up: the client sends it in another form than the address has, and its key is looked up in
      vain, whether it was asked for or not. */
  lemma InputMissed(states: seq<Param>, fn: Function, publicKeys: map<Cell, Cell>, env: Env, word: nat -> Cell, k: nat,
                    name: string)
    returns (val: string -> Value, prior: seq<Cell>)
    requires Numerals(env, word) && PolicyOk(states, fn)
    requires k < |states| && OwnedPerKey(states[k]) && name in LookedUp(fn, states[k]) && name != "msg.sender"
    ensures PlainSender(env, val) && Complete(TxWith(states, fn, val, publicKeys, env), prior, true)
    ensures !EntriesAsked(TxWith(states, fn, val, publicKeys, env), prior)
  {
    var a: nat, b: nat :| env.checksum(a) != env.checksum(b);
    assert env.num(word(a)) == a && env.num(word(b)) == b;
    val := Telling(env, word, name, a, b, b);
    prior := LookedUpInVain(states, fn, val, publicKeys, env, word, k, name, b);
  }

  lemma MissedEntry(states: seq<Param>, fn: Function, val: string -> Value, publicKeys: map<Cell, Cell>, env: Env,
                    k: nat, name: string, asked: seq<Cell>)
    requires PolicyOk(states, fn) && k < |states| && OwnedPerKey(states[k]) && name in LookedUp(fn, states[k])
    requires env.checksum(env.num(val(name).encoded)) !in asked
    ensures var tx := TxWith(states, fn, val, publicKeys, env);
            exists j :: 0 <= j < tx.keysSize(states[k].name) && !EntryAsked(tx, states[k], j, asked)
  {
    var tx := TxWith(states, fn, val, publicKeys, env);
    assert StateOk(states, fn, states[k]);
    var j :| 0 <= j < |LookedUp(fn, states[k])| && LookedUp(fn, states[k])[j] == name;
    LookupNamed(states, fn, val, publicKeys, env, states[k], j);
    assert !EntryAsked(tx, states[k], j, asked);
  }

  ghost predicate AskedWith(states: seq<Param>, fn: Function, val: string -> Value, publicKeys: map<Cell, Cell>,
                            env: Env, prior: seq<Cell>)
  {
    var tx := TxWith(states, fn, val, publicKeys, env);
    Complete(tx, prior, true) ==> EntriesAsked(tx, prior)
  }

  /** For every vector and all inputs a client may send; the sender's address is in checksum form. */
  ghost predicate AlwaysAsked(states: seq<Param>, fn: Function, publicKeys: map<Cell, Cell>, env: Env)
  {
    forall val, prior :: PlainSender(env, val) ==> AskedWith(states, fn, val, publicKeys, env, prior)
  }

  /** For every vector and all values with addresses in checksum form where they are looked up. */
  ghost predicate AskedIfPlain(states: seq<Param>, fn: Function, publicKeys: map<Cell, Cell>, env: Env)
  {
    forall val, prior :: PlainLookups(states, fn, env, val) ==> AskedWith(states, fn, val, publicKeys, env, prior)
  }

  /** No input is taken for an owner. */
  ghost predicate OnlySender(states: seq<Param>, fn: Function)
  {
    forall k, name :: 0 <= k < |states| && OwnedPerKey(states[k]) && name in LookedUp(fn, states[k]) ==>
      name == "msg.sender"
  }

  /** When the addresses come in checksum form, every key that encryption looks up for the entries of its mappings was
      asked for, exactly when every name among the first key cells of a mapping, as many as it has keys, is at the
      position that some mapping asks for. */
  lemma PlainKeysAsked(states: seq<Param>, fn: Function, publicKeys: map<Cell, Cell>, env: Env, word: nat -> Cell)
    requires Numerals(env, word) && PolicyOk(states, fn)
    ensures AskedIfPlain(states, fn, publicKeys, env) <==> NamesCovered(states, fn)
  {
    if NamesCovered(states, fn) {
      forall val, prior | PlainLookups(states, fn, env, val)
        ensures AskedWith(states, fn, val, publicKeys, env, prior)
      {
        CoveredIsAsked(states, fn, val, publicKeys, env, prior);
      }
    } else {
      var k, name :| 0 <= k < |states| && OwnedPerKey(states[k]) && name in LookedUp(fn, states[k]) &&
        !Asked(states, fn, name);
      var val, prior := NotAsked(states, fn, publicKeys, env, word, k, name);
      assert PlainLookups(states, fn, env, val) && !AskedWith(states, fn, val, publicKeys, env, prior);
    }
  }

  /** Whatever the client sends, every key that encryption looks up for the entries of its mappings was asked for,
      exactly when those names are asked for and none of them is an input: the keys are asked for under the form the
      client sent and looked up in checksum form. */
  lemma KeysAsked(states: seq<Param>, fn: Function, publicKeys: map<Cell, Cell>, env: Env, word: nat -> Cell)
    requires Numerals(env, word) && PolicyOk(states, fn)
    ensures AlwaysAsked(states, fn, publicKeys, env) <==> NamesCovered(states, fn) && OnlySender(states, fn)
  {
    if !OnlySender(states, fn) {
      var k, name :| 0 <= k < |states| && OwnedPerKey(states[k]) && name in LookedUp(fn, states[k]) &&
        name != "msg.sender";
      var val, prior := InputMissed(states, fn, publicKeys, env, word, k, name);
      assert !AskedWith(states, fn, val, publicKeys, env, prior);
    } else if !NamesCovered(states, fn) {
      var k, name :| 0 <= k < |states| && OwnedPerKey(states[k]) && name in LookedUp(fn, states[k]) &&
        !Asked(states, fn, name);
      var val, prior := NotAsked(states, fn, publicKeys, env, word, k, name);
      assert !AskedWith(states, fn, val, publicKeys, env, prior);
    } else {
      forall val, prior | PlainSender(env, val)
        ensures AskedWith(states, fn, val, publicKeys, env, prior)
      {
        CoveredIsAsked(states, fn, val, publicKeys, env, prior);
      }
    }
  }

  /** Mappings of depth one owned by their only key ask for what they look up; so they need the checksum form. */
  lemma DepthOneCovered(states: seq<Param>, fn: Function)
    requires PolicyOk(states, fn)
    requires forall k :: 0 <= k < |states| && OwnedPerKey(states[k]) ==>
             states[k].shape.depth == 1 && states[k].owner.pos == 0
    ensures NamesCovered(states, fn)
  {
    forall k, name | 0 <= k < |states| && OwnedPerKey(states[k]) && name in LookedUp(fn, states[k])
      ensures Asked(states, fn, name)
    {
      assert StateOk(states, fn, states[k]);
      var keys := KeysOf(fn.accesses, states[k].name);
      FlatSingles(keys);
      var j :| 0 <= j < |LookedUp(fn, states[k])| && LookedUp(fn, states[k])[j] == name;
      assert NamesAt(keys, 0)[j] == name;
      assert AsksFor(fn, states[k], name);
    }
  }

  /** Every address asked for is answered with a public key. */
  ghost predicate Answered(tx: Tx, asked: seq<Cell>)
  {
    forall a :: a in asked ==> a in tx.publicKeys
  }

  /** And nothing else is. */
  ghost predicate OnlyAnswered(tx: Tx, asked: seq<Cell>)
  {
    forall a :: a in tx.publicKeys ==> a in asked
  }

  lemma EntriesListed(tx: Tx, p: Param, asked: seq<Cell>)
    requires Answered(tx, asked)
    ensures (forall j :: 0 <= j < tx.keysSize(p.name) ==> EntryAsked(tx, p, j, asked)) ==>
            KeysListed(tx, p, tx.keysSize(p.name))
    ensures OnlyAnswered(tx, asked) && KeysListed(tx, p, tx.keysSize(p.name)) ==>
            forall j :: 0 <= j < tx.keysSize(p.name) ==> EntryAsked(tx, p, j, asked)
  {
    KeysListedIff(tx, p, tx.keysSize(p.name));
    forall j | 0 <= j < tx.keysSize(p.name)
      ensures EntryAsked(tx, p, j, asked) ==> KeyListed(tx, p, j)
      ensures OnlyAnswered(tx, asked) && KeyListed(tx, p, j) ==> EntryAsked(tx, p, j, asked)
    {
    }
  }

  /** With the answers to its requests encryption succeeds when the entries' keys were asked for and the owners are
      found; with no other keys than those, exactly then. */
  lemma AnswersSuffice(tx: Tx, v: seq<Cell>, prior: seq<Cell>, ivs: nat -> nat -> nat)
    requires TxOk(tx) && AllRegular(tx) && Complete(tx, v, false) && FindsOwners(tx, prior)
    requires var asked := Requests(tx, OwnAddressesOf(tx, prior, |tx.states|), |tx.states|);
             asked.Some? && Answered(tx, asked.value)
    ensures EntriesAsked(tx, prior) ==> SealedStates(tx, v, prior, ivs).Some?
    ensures OnlyAnswered(tx, Requests(tx, OwnAddressesOf(tx, prior, |tx.states|), |tx.states|).value) ==>
            (SealedStates(tx, v, prior, ivs).Some? <==> EntriesAsked(tx, prior))
  {
    var n := |tx.states|;
    var addresses := OwnAddressesOf(tx, prior, n);
    var asked := Requests(tx, addresses, n).value;
    forall k | 0 <= k < n
      ensures EntriesAsked(tx, prior) ==> SealReady(tx, tx.states[k], addresses)
      ensures OnlyAnswered(tx, asked) && SealReady(tx, tx.states[k], addresses) && OwnedPerKey(tx.states[k]) ==>
              forall j :: 0 <= j < tx.keysSize(tx.states[k].name) ==> EntryAsked(tx, tx.states[k], j, asked)
    {
      var p := tx.states[k];
      assert Regular(p);
      if p.owner.PerKey? {
        EntriesListed(tx, p, asked);
      } else if p.owner.Identifier? {
        RequestsContain(tx, addresses, k, n, if p.owner.state in addresses then addresses[p.owner.state] else Cell(""));
      }
    }
    SealsReadyIff(tx, addresses, n);
  }
}
