/** The state vectors of a Cloak transaction: the walk over variable-length records, and their encryption. */
module StateRecords {
  import opened Wrappers
  import opened Bits
  import opened Blocks
  import opened PolicyFunction

  /** An owner per key is the key part at a position, or for position -1 the address in a variable. */
  datatype Owner = All | PerKey(pos: int, variable: string) | Tee | Identifier(state: string)
  datatype Shape = Single(isAddress: bool) | Array(size: nat) | Mapping(depth: nat)
  datatype Param = Param(name: string, shape: Shape, owner: Owner)

  /** The conversions and the cipher, as functions of cells. */
  datatype Env = Env(
    num: Cell -> nat,
    checksum: nat -> Cell,
    seal: (Cell, nat, Cell) -> (Cell, Cell),
    open: (Cell, Cell, Cell) -> Cell,
    teeKey: Cell,
    teeAddress: Cell,
    zero: Cell,
    zeros: nat -> Cell)

  /** The policy's states, the keys its function touches by state name, the plain parts of those keys at a position,
      and the public keys received. */
  datatype Tx = Tx(states: seq<Param>, mappingKeys: string -> seq<Cell>, keysSize: string -> nat,
                   keyParts: (string, int) -> Option<seq<Cell>>, publicKeys: map<Cell, Cell>, env: Env)

  function TxOf(states: seq<Param>, fn: Function, sender: Value, publicKeys: map<Cell, Cell>, env: Env): (tx: Tx)
  {
    Tx(states, name => AllKeyCells(fn, sender, true, KeysOf(fn.accesses, name)), name => |KeysOf(fn.accesses, name)|,
       (name, pos) => Picked(fn, sender, false, pos, KeysOf(fn.accesses, name)), publicKeys, env)
  }

  /** Keys that resolve, all of the mapping's depth, fill the cells of its record. */
  lemma ResolvedKeysFill(states: seq<Param>, fn: Function, sender: Value, publicKeys: map<Cell, Cell>, env: Env,
                         name: string, depth: nat)
    requires forall k :: 0 <= k < |KeysOf(fn.accesses, name)| ==>
               |KeysOf(fn.accesses, name)[k]| == depth && Resolves(fn, sender, true, KeysOf(fn.accesses, name)[k])
    ensures var tx := TxOf(states, fn, sender, publicKeys, env);
            |tx.mappingKeys(name)| == Times(depth, tx.keysSize(name))
  {
    KeysFillCells(fn, sender, true, KeysOf(fn.accesses, name), depth);
  }

  /** An encrypted value takes three cells: ciphertext, tag with nonce, owner. In the clear it takes one. */
  predicate Sealable(p: Param, encrypted: bool)
  {
    encrypted && p.owner != All
  }

  /** The keys of a mapping fill their cells, and a mapping with a single owner has a record to read. */
  ghost predicate ParamOk(tx: Tx, p: Param)
  {
    p.shape.Mapping? ==>
      && p.shape.depth >= 1 && |tx.mappingKeys(p.name)| == Times(p.shape.depth, tx.keysSize(p.name))
      && (p.owner.Tee? || p.owner.Identifier? ==> tx.keysSize(p.name) >= 1)
  }

  /** Owners per key go with mappings, single owners with single values. */
  predicate Regular(p: Param)
  {
    && (p.owner.PerKey? ==> p.shape.Mapping?)
    && (p.owner.Tee? || p.owner.Identifier? ==> !p.shape.Mapping?)
  }

  predicate OwnedPerKey(p: Param)
  {
    p.owner.PerKey? && p.shape.Mapping?
  }

  predicate OwnedSingly(p: Param)
  {
    (p.owner.Tee? || p.owner.Identifier?) && !p.shape.Mapping?
  }

  ghost predicate TxOk(tx: Tx)
  {
    forall k :: 0 <= k < |tx.states| ==> ParamOk(tx, tx.states[k])
  }

  /** A policy whose mappings are accessed with resolved keys of their depth fits the state vectors. */
  lemma ResolvedPolicyFits(states: seq<Param>, fn: Function, sender: Value, publicKeys: map<Cell, Cell>, env: Env)
    requires forall k :: 0 <= k < |states| ==> AccessesResolve(states[k], fn, sender)
    ensures TxOk(TxOf(states, fn, sender, publicKeys, env))
  {
    var tx := TxOf(states, fn, sender, publicKeys, env);
    forall k | 0 <= k < |states| ensures ParamOk(tx, states[k]) {
      assert AccessesResolve(states[k], fn, sender);
      if states[k].shape.Mapping? {
        ResolvedKeysFill(states, fn, sender, publicKeys, env, states[k].name, states[k].shape.depth);
      }
    }
  }

  /** Every access to the mapping names resolved keys of its depth, and one with a single owner is accessed. */
  ghost predicate AccessesResolve(p: Param, fn: Function, sender: Value)
  {
    p.shape.Mapping? ==>
      var keys := KeysOf(fn.accesses, p.name);
      && p.shape.depth >= 1 && (p.owner.Tee? || p.owner.Identifier? ==> |keys| >= 1)
      && forall k :: 0 <= k < |keys| ==> |keys[k]| == p.shape.depth && Resolves(fn, sender, true, keys[k])
  }

  predicate AllRegular(tx: Tx)
  {
    forall k :: 0 <= k < |tx.states| ==> Regular(tx.states[k])
  }

  /** Cells of a record with n mapping entries. */
  function Span(p: Param, encrypted: bool, n: nat): (r: nat)
    ensures r >= 2
  {
    if Sealable(p, encrypted) then if p.shape.Mapping? then 2 + Times(3 + p.shape.depth, n) else 4
    else if p.shape.Mapping? then 2 + Times(1 + p.shape.depth, n) else 2
  }

  function RecordLen(tx: Tx, p: Param, encrypted: bool): (r: nat)
    ensures r >= 2
  {
    Span(p, encrypted, tx.keysSize(p.name))
  }

  /** Where record k starts when every state has its record, in order. */
  function Offset(tx: Tx, encrypted: bool, k: nat): (r: nat)
    requires k <= |tx.states|
  {
    if k == 0 then 0 else Offset(tx, encrypted, k - 1) + RecordLen(tx, tx.states[k - 1], encrypted)
  }

  lemma {:induction false} OffsetMono(tx: Tx, encrypted: bool, j: nat, k: nat)
    requires j <= k <= |tx.states|
    ensures Offset(tx, encrypted, j) <= Offset(tx, encrypted, k)
  {
    if j < k {
      OffsetMono(tx, encrypted, j, k - 1);
    }
  }

  method ReturnLen(tx: Tx, encrypted: bool) returns (res: nat)
    ensures res == Offset(tx, encrypted, |tx.states|)
  {
    res := 0;
    for k := 0 to |tx.states|
      invariant res == Offset(tx, encrypted, k)
    {
      var p := tx.states[k];
      var factor := if encrypted && p.owner != All then 3 else 1;
      if p.shape.Mapping? {
        var keysSize := tx.keysSize(p.name);
        TimesIsMul(factor + p.shape.depth, keysSize);
        res := res + 2 + (p.shape.depth + factor) * keysSize;
      } else {
        res := res + factor + 1;
      }
    }
  }

  /** Length of the record at i, read off its own cells. */
  function SpanAt(tx: Tx, v: seq<Cell>, encrypted: bool, i: nat): (r: nat)
    requires i + 1 < |v| && tx.env.num(v[i]) < |tx.states|
    ensures r >= 2
  {
    Span(tx.states[tx.env.num(v[i])], encrypted, tx.env.num(v[i + 1]))
  }

  /** From i on, v is a sequence of whole records. */
  ghost predicate WellFormed(tx: Tx, v: seq<Cell>, encrypted: bool, i: nat)
    decreases |v| - i
  {
    i == |v| ||
    (i + 1 < |v| && tx.env.num(v[i]) < |tx.states| && i + SpanAt(tx, v, encrypted, i) <= |v| &&
     WellFormed(tx, v, encrypted, i + SpanAt(tx, v, encrypted, i)))
  }

  /** The records from i on: the state each belongs to, and where it starts. */
  ghost function Starts(tx: Tx, v: seq<Cell>, encrypted: bool, i: nat): (r: seq<(nat, nat)>)
    requires WellFormed(tx, v, encrypted, i)
    decreases |v| - i
  {
    if i == |v| then []
    else [(tx.env.num(v[i]), i)] + Starts(tx, v, encrypted, i + SpanAt(tx, v, encrypted, i))
  }

  lemma WalkStep(tx: Tx, v: seq<Cell>, encrypted: bool, i: nat, visits: seq<(nat, nat)>, all: seq<(nat, nat)>)
    requires i < |v| && WellFormed(tx, v, encrypted, i) && visits + Starts(tx, v, encrypted, i) == all
    ensures i + 1 < |v| && tx.env.num(v[i]) < |tx.states|
    ensures var next := i + SpanAt(tx, v, encrypted, i);
            && next <= |v| && WellFormed(tx, v, encrypted, next)
            && visits + [(tx.env.num(v[i]), i)] + Starts(tx, v, encrypted, next) == all
  {
    Reassociate(visits, [(tx.env.num(v[i]), i)], Starts(tx, v, encrypted, i + SpanAt(tx, v, encrypted, i)));
  }

  /** The walk: the visited pairs are the record starts, in order. */
  method VisitStates(tx: Tx, v: seq<Cell>, encrypted: bool) returns (visits: seq<(nat, nat)>)
    requires WellFormed(tx, v, encrypted, 0)
    ensures visits == Starts(tx, v, encrypted, 0)
  {
    visits := [];
    var i := 0;
    ghost var all := Starts(tx, v, encrypted, 0);
    while i < |v|
      invariant 0 <= i <= |v| && WellFormed(tx, v, encrypted, i)
      invariant visits + Starts(tx, v, encrypted, i) == all
      decreases |v| - i
    {
      WalkStep(tx, v, encrypted, i, visits, all);
      visits := visits + [(tx.env.num(v[i]), i)];
      i := Advance(tx, v, encrypted, i);
    }
  }

  /** Step over the record at i. */
  method Advance(tx: Tx, v: seq<Cell>, encrypted: bool, i: nat) returns (next: nat)
    requires i + 1 < |v| && tx.env.num(v[i]) < |tx.states|
    ensures next == i + SpanAt(tx, v, encrypted, i)
  {
    var state := tx.states[tx.env.num(v[i])];
    var factor := if encrypted && state.owner != All then 3 else 1;
    if state.shape.Mapping? {
      TimesIsMul(factor + state.shape.depth, tx.env.num(v[i + 1]));
      next := i + 2 + tx.env.num(v[i + 1]) * (factor + state.shape.depth);
    } else {
      next := i + 1 + factor;
    }
  }

  /** v answers a request for every state: record k has id k, and mappings have their requested number of entries. */
  ghost predicate Complete(tx: Tx, v: seq<Cell>, encrypted: bool)
  {
    |v| == Offset(tx, encrypted, |tx.states|) && forall k :: 0 <= k < |tx.states| ==> CompleteAt(tx, v, encrypted, k)
  }

  ghost predicate CompleteAt(tx: Tx, v: seq<Cell>, encrypted: bool, k: nat)
    requires k < |tx.states|
  {
    var i := Offset(tx, encrypted, k);
    i + 1 < |v| && tx.env.num(v[i]) == k &&
    (tx.states[k].shape.Mapping? ==> tx.env.num(v[i + 1]) == tx.keysSize(tx.states[k].name))
  }

  function Canonical(tx: Tx, encrypted: bool, k: nat): (r: seq<(nat, nat)>)
    requires k <= |tx.states|
    decreases |tx.states| - k
  {
    if k == |tx.states| then [] else [(k, Offset(tx, encrypted, k))] + Canonical(tx, encrypted, k + 1)
  }

  /** On a complete vector the walk visits every state once, in order, and ends at the announced length. */
  lemma {:induction false} CompleteWalk(tx: Tx, v: seq<Cell>, encrypted: bool, k: nat)
    requires Complete(tx, v, encrypted) && k <= |tx.states|
    ensures WellFormed(tx, v, encrypted, Offset(tx, encrypted, k))
    ensures Starts(tx, v, encrypted, Offset(tx, encrypted, k)) == Canonical(tx, encrypted, k)
    decreases |tx.states| - k
  {
    if k < |tx.states| {
      assert CompleteAt(tx, v, encrypted, k);
      OffsetMono(tx, encrypted, k + 1, |tx.states|);
      CompleteWalk(tx, v, encrypted, k + 1);
      SpanIs(tx, v, encrypted, k);
    }
  }

  lemma SpanIs(tx: Tx, v: seq<Cell>, encrypted: bool, k: nat)
    requires k < |tx.states| && CompleteAt(tx, v, encrypted, k)
    ensures Offset(tx, encrypted, k) + SpanAt(tx, v, encrypted, Offset(tx, encrypted, k)) ==
            Offset(tx, encrypted, k + 1)
  {
  }

  /** The visited record belongs to state k, and a mapping's has the requested number of entries. */
  predicate AsRequested(tx: Tx, v: seq<Cell>, visit: (nat, nat), k: nat)
    requires k < |tx.states|
  {
    && visit.0 == k && visit.1 + 1 < |v|
    && (tx.states[k].shape.Mapping? ==> tx.env.num(v[visit.1 + 1]) == tx.keysSize(tx.states[k].name))
  }

  /** From i on, v is whole records, one for each of the states from k on, in order and as requested. */
  ghost predicate InOrder(tx: Tx, v: seq<Cell>, encrypted: bool, k: nat, i: nat)
    requires k <= |tx.states|
  {
    && WellFormed(tx, v, encrypted, i) && |Starts(tx, v, encrypted, i)| == |tx.states| - k
    && forall j :: 0 <= j < |tx.states| - k ==> AsRequested(tx, v, Starts(tx, v, encrypted, i)[j], k + j)
  }

  lemma InOrderStep(tx: Tx, v: seq<Cell>, encrypted: bool, k: nat, i: nat)
    requires k < |tx.states| && InOrder(tx, v, encrypted, k, i)
    ensures i + 1 < |v| && AsRequested(tx, v, (tx.env.num(v[i]), i), k)
    ensures InOrder(tx, v, encrypted, k + 1, i + SpanAt(tx, v, encrypted, i))
  {
    var starts := Starts(tx, v, encrypted, i);
    assert AsRequested(tx, v, starts[0], k + 0);
    var rest := Starts(tx, v, encrypted, i + SpanAt(tx, v, encrypted, i));
    assert starts == [(tx.env.num(v[i]), i)] + rest;
    forall j | 0 <= j < |tx.states| - (k + 1) ensures AsRequested(tx, v, rest[j], k + 1 + j) {
      assert AsRequested(tx, v, starts[j + 1], k + (j + 1));
    }
  }

  /** Records in order end at the announced length, and each starts where the lengths before it say. */
  lemma {:induction false} InOrderEnds(tx: Tx, v: seq<Cell>, encrypted: bool, k: nat)
    requires k <= |tx.states| && InOrder(tx, v, encrypted, k, Offset(tx, encrypted, k))
    ensures |v| == Offset(tx, encrypted, |tx.states|)
    ensures forall j :: k <= j < |tx.states| ==> CompleteAt(tx, v, encrypted, j)
    decreases |tx.states| - k
  {
    if k < |tx.states| {
      InOrderStep(tx, v, encrypted, k, Offset(tx, encrypted, k));
      assert CompleteAt(tx, v, encrypted, k);
      SpanIs(tx, v, encrypted, k);
      InOrderEnds(tx, v, encrypted, k + 1);
    }
  }

  /** Whole records, one a state, in order and as requested, are exactly the complete vectors; so such a vector has
      the announced length. */
  lemma InOrderIsComplete(tx: Tx, v: seq<Cell>, encrypted: bool)
    ensures InOrder(tx, v, encrypted, 0, 0) <==> Complete(tx, v, encrypted)
  {
    if InOrder(tx, v, encrypted, 0, 0) {
      InOrderEnds(tx, v, encrypted, 0);
    }
    if Complete(tx, v, encrypted) {
      CompleteWalk(tx, v, encrypted, 0);
      CanonicalLength(tx, encrypted, 0);
      forall k | 0 <= k < |tx.states| ensures AsRequested(tx, v, Starts(tx, v, encrypted, 0)[k], 0 + k) {
        CanonicalAt(tx, encrypted, 0, k);
        assert CompleteAt(tx, v, encrypted, k);
      }
    }
  }

  /** Record k of a complete vector. */
  function Slice(tx: Tx, v: seq<Cell>, encrypted: bool, k: nat): (r: seq<Cell>)
    requires k < |tx.states| && Offset(tx, encrypted, k) + RecordLen(tx, tx.states[k], encrypted) <= |v|
  {
    v[Offset(tx, encrypted, k)..Offset(tx, encrypted, k) + RecordLen(tx, tx.states[k], encrypted)]
  }

  /** The key cells of entry j. */
  ghost function KeyBlock(tx: Tx, p: Param, j: nat): (r: seq<Cell>)
    requires p.shape.Mapping?
  {
    if Times(p.shape.depth, j + 1) <= |tx.mappingKeys(p.name)| then
      tx.mappingKeys(p.name)[Times(p.shape.depth, j)..Times(p.shape.depth, j + 1)]
    else []
  }

  function CellAt(rec: seq<Cell>, i: nat): (r: Cell)
  {
    if i < |rec| then rec[i] else Cell("")
  }

  function KeyOf(tx: Tx, address: Cell): (r: Cell)
  {
    if address in tx.publicKeys then tx.publicKeys[address] else Cell("")
  }

  /** The address an owner cell stands for. */
  function OwnerAddress(tx: Tx, owner: Cell): (r: Cell)
  {
    tx.env.checksum(tx.env.num(owner))
  }

  /** A stored value with its tag and owner, in the clear; never written ones read as zero. */
  function OpenEntry(tx: Tx, data: Cell, tag: Cell, owner: Cell): (r: Cell)
  {
    if tx.env.num(owner) == 0 then tx.env.zero else tx.env.open(KeyOf(tx, OwnerAddress(tx, owner)), data, tag)
  }

  function OpenSingle(tx: Tx, p: Param, data: Cell, tag: Cell, owner: Cell): (r: Cell)
  {
    var sender := OwnerAddress(tx, owner);
    if tx.env.num(sender) == 0 then
      if p.shape.Array? then tx.env.zeros(p.shape.size) else tx.env.zero
    else tx.env.open(if p.owner.Tee? then tx.env.teeKey else KeyOf(tx, sender), data, tag)
  }

  /** First cell of the sealed value of entry j in an encrypted record. */
  function DataAt(p: Param, j: nat): (r: nat)
    requires p.shape.Mapping?
  {
    2 + (Times(3 + p.shape.depth, j) + p.shape.depth)
  }

  ghost function OpenedEntry(tx: Tx, p: Param, rec: seq<Cell>, j: nat): (r: seq<Cell>)
    requires p.shape.Mapping?
  {
    var at := DataAt(p, j);
    KeyBlock(tx, p, j) + [OpenEntry(tx, CellAt(rec, at), CellAt(rec, at + 1), CellAt(rec, at + 2))]
  }

  ghost function Opened(tx: Tx, p: Param, rec: seq<Cell>): (f: nat -> seq<Cell>)
    requires p.shape.Mapping?
  {
    (j: nat) => OpenedEntry(tx, p, rec, j)
  }

  /** The plaintext record of an encrypted one. */
  ghost function OpenRecord(tx: Tx, p: Param, rec: seq<Cell>): (r: seq<Cell>)
    requires ParamOk(tx, p) && |rec| == RecordLen(tx, p, true)
  {
    match p.owner
    case All => rec
    case PerKey(_, _) => if p.shape.Mapping? then rec[..2] + Slots(Opened(tx, p, rec), tx.keysSize(p.name)) else []
    case _ => [rec[0], OpenSingle(tx, p, CellAt(rec, 1), CellAt(rec, 2), CellAt(rec, 3))]
  }

  /** The public keys that decryption looks up are there; the depth of what is no mapping is not. */
  ghost predicate OpenReady(tx: Tx, p: Param, rec: seq<Cell>)
    requires ParamOk(tx, p)
  {
    match p.owner
    case All => true
    case PerKey(_, _) => p.shape.Mapping? && EntriesReady(tx, p, rec, tx.keysSize(p.name))
    case Tee => true
    case Identifier(_) =>
      var sender := OwnerAddress(tx, CellAt(rec, 3));
      tx.env.num(sender) == 0 || sender in tx.publicKeys
  }

  ghost predicate EntriesReady(tx: Tx, p: Param, rec: seq<Cell>, n: nat)
    requires p.shape.Mapping?
  {
    n == 0 || (EntriesReady(tx, p, rec, n - 1) && EntryReady(tx, CellAt(rec, DataAt(p, n - 1) + 2)))
  }

  lemma {:induction false} EntriesReadyFrom(tx: Tx, p: Param, rec: seq<Cell>, n: nat)
    requires p.shape.Mapping? && forall j :: 0 <= j < n ==> EntryReady(tx, CellAt(rec, DataAt(p, j) + 2))
    ensures EntriesReady(tx, p, rec, n)
  {
    if n > 0 {
      EntriesReadyFrom(tx, p, rec, n - 1);
    }
  }

  ghost predicate EntryReady(tx: Tx, owner: Cell)
  {
    tx.env.num(owner) == 0 || OwnerAddress(tx, owner) in tx.publicKeys
  }

  lemma KeyBlockLength(tx: Tx, p: Param, j: nat)
    requires ParamOk(tx, p) && p.shape.Mapping? && j < tx.keysSize(p.name)
    ensures |KeyBlock(tx, p, j)| == p.shape.depth
  {
    TimesMono(p.shape.depth, j + 1, tx.keysSize(p.name));
  }

  lemma OpenedLength(tx: Tx, p: Param, rec: seq<Cell>)
    requires ParamOk(tx, p) && p.shape.Mapping?
    ensures forall j :: 0 <= j < tx.keysSize(p.name) ==> |Opened(tx, p, rec)(j)| == 1 + p.shape.depth
    ensures |Slots(Opened(tx, p, rec), tx.keysSize(p.name))| == Times(1 + p.shape.depth, tx.keysSize(p.name))
  {
    var f := Opened(tx, p, rec);
    forall j | 0 <= j < tx.keysSize(p.name) ensures |f(j)| == 1 + p.shape.depth {
      KeyBlockLength(tx, p, j);
    }
    SlotsUniform(f, 1 + p.shape.depth, tx.keysSize(p.name));
  }

  /** Decryption gives each record its plaintext layout. */
  lemma OpenRecordLength(tx: Tx, p: Param, rec: seq<Cell>)
    requires ParamOk(tx, p) && Regular(p) && |rec| == RecordLen(tx, p, true)
    ensures |OpenRecord(tx, p, rec)| == RecordLen(tx, p, false) && OpenRecord(tx, p, rec)[0] == rec[0]
    ensures p.shape.Mapping? ==> OpenRecord(tx, p, rec)[1] == rec[1]
  {
    if p.owner.PerKey? {
      OpenedLength(tx, p, rec);
    }
  }

  /** The records of a complete encrypted vector, opened one by one. */
  ghost function OpenedRecords(tx: Tx, v: seq<Cell>): (f: nat -> seq<Cell>)
    requires TxOk(tx) && Complete(tx, v, true)
  {
    (k: nat) => if k < |tx.states| then OpenAt(tx, v, k) else []
  }

  ghost function OpenAt(tx: Tx, v: seq<Cell>, k: nat): (r: seq<Cell>)
    requires TxOk(tx) && Complete(tx, v, true) && k < |tx.states|
    ensures Regular(tx.states[k]) ==> Fits(tx, false, r, k)
  {
    assert CompleteAt(tx, v, true, k);
    OffsetMono(tx, true, k + 1, |tx.states|);
    OpenedFits(tx, v, k);
    OpenRecord(tx, tx.states[k], Slice(tx, v, true, k))
  }

  lemma OpenedFits(tx: Tx, v: seq<Cell>, k: nat)
    requires TxOk(tx) && Complete(tx, v, true) && k < |tx.states|
    requires Offset(tx, true, k) + RecordLen(tx, tx.states[k], true) <= |v|
    ensures Regular(tx.states[k]) ==> Fits(tx, false, OpenRecord(tx, tx.states[k], Slice(tx, v, true, k)), k)
  {
    if Regular(tx.states[k]) {
      assert CompleteAt(tx, v, true, k);
      OpenRecordLength(tx, tx.states[k], Slice(tx, v, true, k));
    }
  }

  ghost predicate ReadyAt(tx: Tx, v: seq<Cell>, k: nat)
    requires TxOk(tx) && Complete(tx, v, true) && k < |tx.states|
  {
    OffsetMono(tx, true, k + 1, |tx.states|);
    OpenReady(tx, tx.states[k], Slice(tx, v, true, k))
  }

  ghost predicate AllReady(tx: Tx, v: seq<Cell>, n: nat)
    requires TxOk(tx) && Complete(tx, v, true) && n <= |tx.states|
  {
    n == 0 || (AllReady(tx, v, n - 1) && ReadyAt(tx, v, n - 1))
  }

  lemma {:induction false} AllReadyAt(tx: Tx, v: seq<Cell>, k: nat, n: nat)
    requires TxOk(tx) && Complete(tx, v, true) && k < n <= |tx.states| && !ReadyAt(tx, v, k)
    ensures !AllReady(tx, v, n)
  {
    if k < n - 1 {
      AllReadyAt(tx, v, k, n - 1);
    }
  }

  /** What decryption returns: the opened records, or a failed key lookup. */
  ghost function OpenedStates(tx: Tx, v: seq<Cell>): (r: Option<seq<Cell>>)
    requires TxOk(tx) && Complete(tx, v, true)
  {
    if AllReady(tx, v, |tx.states|) then Some(Slots(OpenedRecords(tx, v), |tx.states|)) else None
  }

  /** A record for state k: its length, its id, and for a mapping its number of entries. */
  ghost predicate Fits(tx: Tx, encrypted: bool, rec: seq<Cell>, k: nat)
    requires k < |tx.states|
  {
    && |rec| == RecordLen(tx, tx.states[k], encrypted) && tx.env.num(rec[0]) == k
    && (tx.states[k].shape.Mapping? ==> tx.env.num(rec[1]) == tx.keysSize(tx.states[k].name))
  }

  lemma {:induction false} RecordOffsets(tx: Tx, encrypted: bool, f: nat -> seq<Cell>, k: nat)
    requires k <= |tx.states| && forall i :: 0 <= i < |tx.states| ==> Fits(tx, encrypted, f(i), i)
    ensures |Slots(f, k)| == Offset(tx, encrypted, k)
  {
    if k > 0 {
      RecordOffsets(tx, encrypted, f, k - 1);
      assert Fits(tx, encrypted, f(k - 1), k - 1);
    }
  }

  /** Fitting records, one a state, make a complete vector with each record in its place. */
  lemma RecordsComplete(tx: Tx, encrypted: bool, f: nat -> seq<Cell>)
    requires forall i :: 0 <= i < |tx.states| ==> Fits(tx, encrypted, f(i), i)
    ensures Complete(tx, Slots(f, |tx.states|), encrypted)
    ensures forall k :: 0 <= k < |tx.states| ==> BlockAt(Slots(f, |tx.states|), Offset(tx, encrypted, k), f(k))
  {
    var out := Slots(f, |tx.states|);
    RecordOffsets(tx, encrypted, f, |tx.states|);
    forall k | 0 <= k < |tx.states|
      ensures CompleteAt(tx, out, encrypted, k) && BlockAt(out, Offset(tx, encrypted, k), f(k))
    {
      RecordOffsets(tx, encrypted, f, k);
      SlotAt(f, k, |tx.states|);
      assert Fits(tx, encrypted, f(k), k);
      RecordAt(tx, out, encrypted, k, f(k));
    }
  }

  /** A record in its place completes the vector there. */
  lemma RecordAt(tx: Tx, out: seq<Cell>, encrypted: bool, k: nat, rec: seq<Cell>)
    requires k < |tx.states| && Fits(tx, encrypted, rec, k) && BlockAt(out, Offset(tx, encrypted, k), rec)
    ensures CompleteAt(tx, out, encrypted, k)
  {
    var i := Offset(tx, encrypted, k);
    assert out[i] == rec[0] && out[i + 1] == rec[1];
  }

  /** Records that are too short anywhere make the whole vector too short. */
  lemma {:induction false} ShortRecords(tx: Tx, encrypted: bool, f: nat -> seq<Cell>, k: nat, n: nat)
    requires n <= |tx.states| && forall i :: 0 <= i < n ==> |f(i)| <= RecordLen(tx, tx.states[i], encrypted)
    ensures |Slots(f, n)| <= Offset(tx, encrypted, n)
    ensures k < n && |f(k)| < RecordLen(tx, tx.states[k], encrypted) ==> |Slots(f, n)| < Offset(tx, encrypted, n)
  {
    if n > 0 {
      ShortRecords(tx, encrypted, f, k, n - 1);
    }
  }

  /** A mapping with a single owner opens to two cells, which is too short. */
  lemma IrregularOpensShort(tx: Tx, p: Param, rec: seq<Cell>)
    requires ParamOk(tx, p) && !Regular(p) && |rec| == RecordLen(tx, p, true)
    ensures |OpenRecord(tx, p, rec)| < RecordLen(tx, p, false)
  {
  }

  /** The opened records make a complete plaintext vector exactly when owners per key go with mappings and single
      owners with single values. */
  lemma OpenedRecordsComplete(tx: Tx, v: seq<Cell>)
    requires TxOk(tx) && Complete(tx, v, true)
    ensures Complete(tx, Slots(OpenedRecords(tx, v), |tx.states|), false) <==> AllRegular(tx)
  {
    var f := OpenedRecords(tx, v);
    forall k | 0 <= k < |tx.states|
      ensures if Regular(tx.states[k]) then Fits(tx, false, f(k), k) else |f(k)| < RecordLen(tx, tx.states[k], false)
    {
      OpenedAt(tx, v, k);
    }
    if AllRegular(tx) {
      RecordsComplete(tx, false, f);
    } else {
      var k :| 0 <= k < |tx.states| && !Regular(tx.states[k]);
      ShortRecords(tx, false, f, k, |tx.states|);
    }
  }

  /** No mapping has a single owner. */
  predicate NoSingleMapping(tx: Tx)
  {
    forall k :: 0 <= k < |tx.states| && (tx.states[k].owner.Tee? || tx.states[k].owner.Identifier?) ==>
      !tx.states[k].shape.Mapping?
  }

  /** What decryption returns is a complete plaintext vector, with the same ids in order and the same counts, exactly
      when no mapping has a single owner. */
  lemma OpenedIsComplete(tx: Tx, v: seq<Cell>)
    requires TxOk(tx) && Complete(tx, v, true) && OpenedStates(tx, v).Some?
    ensures Complete(tx, OpenedStates(tx, v).value, false) <==> NoSingleMapping(tx)
  {
    OpenedRecordsComplete(tx, v);
    forall k | 0 <= k < |tx.states| && tx.states[k].owner.PerKey? ensures tx.states[k].shape.Mapping? {
      if !tx.states[k].shape.Mapping? {
        assert !ReadyAt(tx, v, k);
        AllReadyAt(tx, v, k, |tx.states|);
      }
    }
  }

  lemma OpenedAt(tx: Tx, v: seq<Cell>, k: nat)
    requires TxOk(tx) && Complete(tx, v, true) && k < |tx.states|
    ensures OpenedRecords(tx, v)(k) == OpenAt(tx, v, k)
    ensures !Regular(tx.states[k]) ==> |OpenAt(tx, v, k)| < RecordLen(tx, tx.states[k], false)
  {
    if !Regular(tx.states[k]) {
      assert CompleteAt(tx, v, true, k);
      OffsetMono(tx, true, k + 1, |tx.states|);
      IrregularOpensShort(tx, tx.states[k], Slice(tx, v, true, k));
    }
  }

  /** A value sealed for an address, with its owner cell. */
  function Sealed(tx: Tx, key: Cell, iv: nat, plain: Cell, owner: Cell): (r: seq<Cell>)
    ensures |r| == 3
  {
    var (data, tag) := tx.env.seal(key, iv, plain);
    [data, tag, owner]
  }

  /** Entry j of an encrypted mapping: the value is taken from cell 3 + 2j and owned by the j-th key cell. */
  ghost function SealedEntry(tx: Tx, p: Param, rec: seq<Cell>, iv: nat -> nat, j: nat): (r: seq<Cell>)
    requires p.shape.Mapping?
  {
    KeyBlock(tx, p, j) + SealedValue(tx, p, rec, iv, j)
  }

  function SealedValue(tx: Tx, p: Param, rec: seq<Cell>, iv: nat -> nat, j: nat): (r: seq<Cell>)
    ensures |r| == 3
  {
    var owner := CellAt(tx.mappingKeys(p.name), j);
    Sealed(tx, KeyOf(tx, OwnerAddress(tx, owner)), iv(j), CellAt(rec, 3 + 2 * j), owner)
  }

  ghost function SealedEntries(tx: Tx, p: Param, rec: seq<Cell>, iv: nat -> nat): (f: nat -> seq<Cell>)
    requires p.shape.Mapping?
  {
    (j: nat) => SealedEntry(tx, p, rec, iv, j)
  }

  /** Owner address of a singly owned state; the state variables that name owners are in addresses. */
  function SingleOwner(tx: Tx, p: Param, addresses: map<string, Cell>): (r: Cell)
  {
    match p.owner
    case Identifier(s) => if s in addresses then addresses[s] else Cell("")
    case _ => tx.env.teeAddress
  }

  ghost function SealMapping(tx: Tx, p: Param, rec: seq<Cell>, iv: nat -> nat): (r: seq<Cell>)
    requires ParamOk(tx, p) && OwnedPerKey(p) && |rec| == RecordLen(tx, p, false)
    ensures |r| == RecordLen(tx, p, true) && r[0] == rec[0] && r[1] == rec[1]
  {
    SealedEntriesLength(tx, p, rec, iv);
    rec[..2] + Slots(SealedEntries(tx, p, rec, iv), tx.keysSize(p.name))
  }

  ghost function SealRecord(tx: Tx, p: Param, rec: seq<Cell>, addresses: map<string, Cell>,
                            iv: nat -> nat): (r: seq<Cell>)
    requires ParamOk(tx, p) && |rec| == RecordLen(tx, p, false)
  {
    match p.owner
    case All => rec
    case PerKey(_, _) => if p.shape.Mapping? then SealMapping(tx, p, rec, iv) else []
    case _ =>
      var owner := SingleOwner(tx, p, addresses);
      [rec[0]] + Sealed(tx, if p.owner.Tee? then tx.env.teeKey else KeyOf(tx, owner), iv(0), rec[1], owner)
  }

  /** The owners of the first n entries have public keys. */
  ghost predicate KeysListed(tx: Tx, p: Param, n: nat)
  {
    n == 0 || (KeysListed(tx, p, n - 1) && KeyListed(tx, p, n - 1))
  }

  ghost predicate KeyListed(tx: Tx, p: Param, j: nat)
  {
    OwnerAddress(tx, CellAt(tx.mappingKeys(p.name), j)) in tx.publicKeys
  }

  lemma {:induction false} KeysListedIff(tx: Tx, p: Param, n: nat)
    ensures KeysListed(tx, p, n) <==> forall j :: 0 <= j < n ==> KeyListed(tx, p, j)
  {
    if n > 0 {
      KeysListedIff(tx, p, n - 1);
    }
  }

  /** The addresses and public keys that encryption looks up are there; the depth of what is no mapping is not. */
  ghost predicate SealReady(tx: Tx, p: Param, addresses: map<string, Cell>)
  {
    match p.owner
    case All => true
    case PerKey(_, _) => p.shape.Mapping? && KeysListed(tx, p, tx.keysSize(p.name))
    case Tee => true
    case Identifier(s) => s in addresses && addresses[s] in tx.publicKeys
  }

  lemma SealedEntriesLength(tx: Tx, p: Param, rec: seq<Cell>, iv: nat -> nat)
    requires ParamOk(tx, p) && p.shape.Mapping?
    ensures forall j :: 0 <= j < tx.keysSize(p.name) ==> |SealedEntries(tx, p, rec, iv)(j)| == 3 + p.shape.depth
    ensures Tiled(Slots(SealedEntries(tx, p, rec, iv), tx.keysSize(p.name)), SealedEntries(tx, p, rec, iv),
                  3 + p.shape.depth, tx.keysSize(p.name))
  {
    var f := SealedEntries(tx, p, rec, iv);
    forall j | 0 <= j < tx.keysSize(p.name) ensures |f(j)| == 3 + p.shape.depth {
      KeyBlockLength(tx, p, j);
    }
    SlotsTiled(f, 3 + p.shape.depth, tx.keysSize(p.name));
  }

  lemma SealRecordLength(tx: Tx, p: Param, rec: seq<Cell>, addresses: map<string, Cell>, iv: nat -> nat)
    requires ParamOk(tx, p) && Regular(p) && |rec| == RecordLen(tx, p, false)
    ensures var r := SealRecord(tx, p, rec, addresses, iv);
            |r| == RecordLen(tx, p, true) && r[0] == rec[0] && (p.shape.Mapping? ==> r[1] == rec[1])
  {
  }

  /** Deciphering undoes enciphering, and an address survives its own conversion. */
  ghost predicate EnvOk(env: Env)
  {
    && (forall key, iv, plain :: env.open(key, env.seal(key, iv, plain).0, env.seal(key, iv, plain).1) == plain)
    && (forall a :: env.checksum(env.num(env.checksum(a))) == env.checksum(a))
  }

  /** The three sealed cells of entry j are where decryption looks for them. */
  lemma SealedCells(tx: Tx, p: Param, rec: seq<Cell>, iv: nat -> nat, j: nat, head: seq<Cell>, body: seq<Cell>,
                    sealed: seq<Cell>)
    requires ParamOk(tx, p) && p.shape.Mapping? && j < tx.keysSize(p.name) && |head| == 2 && sealed == head + body
    requires Tiled(body, SealedEntries(tx, p, rec, iv), 3 + p.shape.depth, tx.keysSize(p.name))
    ensures TripleAt(sealed, DataAt(p, j), SealedValue(tx, p, rec, iv, j))
  {
    SealedEntryIs(tx, p, rec, iv, j);
    KeyBlockLength(tx, p, j);
    TripleOfBlock(body, Times(3 + p.shape.depth, j), KeyBlock(tx, p, j), SealedValue(tx, p, rec, iv, j));
    TripleShift(head, body, Times(3 + p.shape.depth, j) + p.shape.depth, SealedValue(tx, p, rec, iv, j), sealed);
  }

  lemma SealedEntryIs(tx: Tx, p: Param, rec: seq<Cell>, iv: nat -> nat, j: nat)
    requires p.shape.Mapping?
    ensures SealedEntries(tx, p, rec, iv)(j) == KeyBlock(tx, p, j) + SealedValue(tx, p, rec, iv, j)
  {
    assert SealedEntries(tx, p, rec, iv)(j) == SealedEntry(tx, p, rec, iv, j);
  }

  ghost predicate TripleAt(s: seq<Cell>, at: nat, triple: seq<Cell>)
    requires |triple| == 3
  {
    CellAt(s, at) == triple[0] && CellAt(s, at + 1) == triple[1] && CellAt(s, at + 2) == triple[2]
  }

  lemma TripleOfBlock(body: seq<Cell>, at: nat, block: seq<Cell>, triple: seq<Cell>)
    requires |triple| == 3 && BlockAt(body, at, block + triple)
    ensures at + |block| + 3 <= |body| && TripleAt(body, at + |block|, triple)
  {
    var e, c := block + triple, |block|;
    assert e[c] == triple[0] && e[c + 1] == triple[1] && e[c + 2] == triple[2];
  }

  lemma TripleShift(head: seq<Cell>, body: seq<Cell>, at: nat, triple: seq<Cell>, s: seq<Cell>)
    requires |head| == 2 && |triple| == 3 && s == head + body && at + 3 <= |body| && TripleAt(body, at, triple)
    ensures TripleAt(s, 2 + at, triple)
  {
  }

  /** What comes back as the value of entry j: the cell that encryption sealed, or zero when the owner is. */
  function ValueBack(tx: Tx, p: Param, rec: seq<Cell>, j: nat): (r: Cell)
  {
    if tx.env.num(CellAt(tx.mappingKeys(p.name), j)) == 0 then tx.env.zero else CellAt(rec, 3 + 2 * j)
  }

  ghost function EntryBack(tx: Tx, p: Param, rec: seq<Cell>, j: nat): (r: seq<Cell>)
    requires p.shape.Mapping?
  {
    KeyBlock(tx, p, j) + [ValueBack(tx, p, rec, j)]
  }

  ghost function EntriesBack(tx: Tx, p: Param, rec: seq<Cell>): (f: nat -> seq<Cell>)
    requires p.shape.Mapping?
  {
    (j: nat) => EntryBack(tx, p, rec, j)
  }

  lemma EntryReadBack(tx: Tx, p: Param, rec: seq<Cell>, iv: nat -> nat, sealed: seq<Cell>, j: nat)
    requires EnvOk(tx.env) && p.shape.Mapping?
    requires TripleAt(sealed, DataAt(p, j), SealedValue(tx, p, rec, iv, j))
    ensures OpenedEntry(tx, p, sealed, j) == EntryBack(tx, p, rec, j)
  {
  }

  /** Decrypting an encrypted mapping yields its keys with those values. */
  lemma MappingReadBack(tx: Tx, p: Param, rec: seq<Cell>, addresses: map<string, Cell>, iv: nat -> nat)
    requires EnvOk(tx.env) && ParamOk(tx, p) && OwnedPerKey(p) && |rec| == RecordLen(tx, p, false)
    ensures var sealed := SealRecord(tx, p, rec, addresses, iv);
            |sealed| == RecordLen(tx, p, true) &&
            OpenRecord(tx, p, sealed) == rec[..2] + Slots(EntriesBack(tx, p, rec), tx.keysSize(p.name))
  {
    var n := tx.keysSize(p.name);
    SealRecordLength(tx, p, rec, addresses, iv);
    var sealed := SealRecord(tx, p, rec, addresses, iv);
    assert sealed[..2] == rec[..2];
    var body := Slots(SealedEntries(tx, p, rec, iv), n);
    SealedEntriesLength(tx, p, rec, iv);
    forall j | 0 <= j < n ensures Opened(tx, p, sealed)(j) == EntriesBack(tx, p, rec)(j) {
      SealedCells(tx, p, rec, iv, j, rec[..2], body, sealed);
      EntryReadBack(tx, p, rec, iv, sealed, j);
    }
    SlotsEqual(Opened(tx, p, sealed), EntriesBack(tx, p, rec), n);
  }

  /** A plaintext mapping record: each entry its keys and its value. */
  ghost function PlainEntries(tx: Tx, p: Param, values: seq<Cell>): (f: nat -> seq<Cell>)
    requires p.shape.Mapping?
  {
    (j: nat) => KeyBlock(tx, p, j) + [CellAt(values, j)]
  }

  ghost function PlainRecord(tx: Tx, p: Param, head: seq<Cell>, values: seq<Cell>): (r: seq<Cell>)
    requires p.shape.Mapping?
  {
    head + Slots(PlainEntries(tx, p, values), tx.keysSize(p.name))
  }

  lemma PlainEntryLength(tx: Tx, p: Param, values: seq<Cell>)
    requires ParamOk(tx, p) && p.shape.Mapping?
    ensures forall j :: 0 <= j < tx.keysSize(p.name) ==> |PlainEntries(tx, p, values)(j)| == 1 + p.shape.depth
  {
    forall j | 0 <= j < tx.keysSize(p.name) ensures |PlainEntries(tx, p, values)(j)| == 1 + p.shape.depth {
      KeyBlockLength(tx, p, j);
    }
  }

  lemma PlainLength(tx: Tx, p: Param, head: seq<Cell>, values: seq<Cell>)
    requires ParamOk(tx, p) && OwnedPerKey(p) && |head| == 2
    ensures |PlainRecord(tx, p, head, values)| == RecordLen(tx, p, false)
    ensures forall j :: 0 <= j < tx.keysSize(p.name) ==> |PlainEntries(tx, p, values)(j)| == 1 + p.shape.depth
  {
    assert RecordLen(tx, p, false) == 2 + Times(1 + p.shape.depth, tx.keysSize(p.name));
    PlainEntryLength(tx, p, values);
    SlotsUniform(PlainEntries(tx, p, values), 1 + p.shape.depth, tx.keysSize(p.name));
  }

  /** Every owner of the mapping's entries is a nonzero address with a known key. */
  ghost predicate OwnersKnown(tx: Tx, p: Param)
  {
    forall j :: 0 <= j < tx.keysSize(p.name) ==> OwnerKnown(tx, CellAt(tx.mappingKeys(p.name), j))
  }

  ghost predicate OwnerKnown(tx: Tx, owner: Cell)
  {
    tx.env.num(owner) != 0 && OwnerAddress(tx, owner) in tx.publicKeys
  }

  /** Encrypting and decrypting gives the record back. */
  ghost predicate Restores(tx: Tx, p: Param, rec: seq<Cell>, addresses: map<string, Cell>, iv: nat -> nat)
    requires ParamOk(tx, p) && |rec| == RecordLen(tx, p, false)
  {
    var sealed := SealRecord(tx, p, rec, addresses, iv);
    |sealed| == RecordLen(tx, p, true) && OpenRecord(tx, p, sealed) == rec
  }

  ghost predicate ValuesInPlace(rec: seq<Cell>, values: seq<Cell>)
  {
    forall j :: 0 <= j < |values| ==> CellAt(rec, 3 + 2 * j) == values[j]
  }

  /** A mapping record is restored exactly when the cells at 3 + 2j are its values. */
  lemma MappingRestored(tx: Tx, p: Param, head: seq<Cell>, values: seq<Cell>, addresses: map<string, Cell>,
                        iv: nat -> nat)
    requires EnvOk(tx.env) && ParamOk(tx, p) && OwnedPerKey(p) && |head| == 2 && OwnersKnown(tx, p)
    requires |values| == tx.keysSize(p.name)
    ensures RestoresPlain(tx, p, head, values, addresses, iv) <==>
            ValuesInPlace(PlainRecord(tx, p, head, values), values)
  {
    var rec, n := PlainRecord(tx, p, head, values), tx.keysSize(p.name);
    PlainLength(tx, p, head, values);
    assert rec[..2] == head;
    MappingReadBack(tx, p, rec, addresses, iv);
    EntriesBackLength(tx, p, rec);
    if head + Slots(EntriesBack(tx, p, rec), n) == rec {
      SameTail(head, Slots(EntriesBack(tx, p, rec), n), Slots(PlainEntries(tx, p, values), n));
      forall j | 0 <= j < n ensures CellAt(rec, 3 + 2 * j) == values[j] {
        SlotsInjective(EntriesBack(tx, p, rec), PlainEntries(tx, p, values), 1 + p.shape.depth, n, j);
        KnownBack(tx, p, rec, j);
        SameTail(KeyBlock(tx, p, j), [CellAt(rec, 3 + 2 * j)], [values[j]]);
      }
    } else if ValuesInPlace(rec, values) {
      forall j | 0 <= j < n ensures EntriesBack(tx, p, rec)(j) == PlainEntries(tx, p, values)(j) {
        KnownBack(tx, p, rec, j);
      }
      SlotsEqual(EntriesBack(tx, p, rec), PlainEntries(tx, p, values), n);
    }
  }

  lemma EntriesBackLength(tx: Tx, p: Param, rec: seq<Cell>)
    requires ParamOk(tx, p) && p.shape.Mapping?
    ensures forall j :: 0 <= j < tx.keysSize(p.name) ==> |EntriesBack(tx, p, rec)(j)| == 1 + p.shape.depth
  {
    forall j | 0 <= j < tx.keysSize(p.name) ensures |EntriesBack(tx, p, rec)(j)| == 1 + p.shape.depth {
      KeyBlockLength(tx, p, j);
    }
  }

  lemma KnownBack(tx: Tx, p: Param, rec: seq<Cell>, j: nat)
    requires p.shape.Mapping? && OwnersKnown(tx, p) && j < tx.keysSize(p.name)
    ensures EntriesBack(tx, p, rec)(j) == KeyBlock(tx, p, j) + [CellAt(rec, 3 + 2 * j)]
  {
    assert OwnerKnown(tx, CellAt(tx.mappingKeys(p.name), j));
  }

  lemma SameTail(a: seq<Cell>, b: seq<Cell>, c: seq<Cell>)
    requires a + b == a + c
    ensures b == c
  {
    assert b == (a + b)[|a|..] && c == (a + c)[|a|..];
  }

  /** In a mapping of depth one the value of entry j is at 3 + 2j. */
  lemma DepthOneCell(tx: Tx, p: Param, head: seq<Cell>, values: seq<Cell>, j: nat)
    requires ParamOk(tx, p) && OwnedPerKey(p) && |head| == 2 && p.shape.depth == 1 && j < tx.keysSize(p.name)
    ensures CellAt(PlainRecord(tx, p, head, values), 3 + 2 * j) == CellAt(values, j)
  {
    var f, n := PlainEntries(tx, p, values), tx.keysSize(p.name);
    PlainLength(tx, p, head, values);
    UniformAt(f, 2, n, j);
    TimesIsMul(2, j);
    KeyBlockLength(tx, p, j);
    EntryCell(head, Slots(f, n), 2 * j, f(j));
  }

  lemma EntryCell(head: seq<Cell>, body: seq<Cell>, at: nat, e: seq<Cell>)
    requires |head| == 2 && |e| >= 2 && BlockAt(body, at, e)
    ensures CellAt(head + body, 3 + at) == e[1]
  {
    assert body[at + 1] == e[1];
  }

  /** In a deeper mapping cell 3 is the second key cell, not a value. */
  lemma DeepCell(tx: Tx, p: Param, head: seq<Cell>, values: seq<Cell>)
    requires ParamOk(tx, p) && OwnedPerKey(p) && |head| == 2 && p.shape.depth >= 2 && tx.keysSize(p.name) >= 1
    ensures |KeyBlock(tx, p, 0)| >= 2 && CellAt(PlainRecord(tx, p, head, values), 3) == KeyBlock(tx, p, 0)[1]
  {
    var f, n := PlainEntries(tx, p, values), tx.keysSize(p.name);
    PlainLength(tx, p, head, values);
    UniformAt(f, 1 + p.shape.depth, n, 0);
    KeyBlockLength(tx, p, 0);
    EntryCell(head, Slots(f, n), 0, f(0));
  }

  /** So a record whose first value is not that key cell is not restored. */
  lemma DeepRecordLost(tx: Tx, p: Param, head: seq<Cell>, values: seq<Cell>, addresses: map<string, Cell>,
                       iv: nat -> nat)
    requires EnvOk(tx.env) && ParamOk(tx, p) && OwnedPerKey(p) && |head| == 2 && OwnersKnown(tx, p) &&
             p.shape.depth >= 2
    requires |values| == tx.keysSize(p.name) >= 1 && CellAt(KeyBlock(tx, p, 0), 1) != values[0]
    ensures !RestoresPlain(tx, p, head, values, addresses, iv)
  {
    DeepCell(tx, p, head, values);
    MappingRestored(tx, p, head, values, addresses, iv);
    NotInPlace(PlainRecord(tx, p, head, values), values);
  }

  lemma NotInPlace(rec: seq<Cell>, values: seq<Cell>)
    requires |values| > 0 && CellAt(rec, 3) != values[0]
    ensures !ValuesInPlace(rec, values)
  {
    assert CellAt(rec, 3 + 2 * 0) != values[0];
  }

  /** Every plaintext record of the mapping is restored. */
  ghost predicate AlwaysRestores(tx: Tx, p: Param, addresses: map<string, Cell>, iv: nat -> nat)
    requires ParamOk(tx, p) && OwnedPerKey(p)
  {
    forall head, values :: |head| == 2 && |values| == tx.keysSize(p.name) ==>
      RestoresPlain(tx, p, head, values, addresses, iv)
  }

  ghost predicate RestoresPlain(tx: Tx, p: Param, head: seq<Cell>, values: seq<Cell>,
                                addresses: map<string, Cell>, iv: nat -> nat)
    requires ParamOk(tx, p) && OwnedPerKey(p) && |head| == 2
  {
    PlainLength(tx, p, head, values);
    Restores(tx, p, PlainRecord(tx, p, head, values), addresses, iv)
  }

  /** The round trip holds for a mapping, whatever its values, exactly when its depth is one or it has no entries. */
  lemma MappingRoundTrip(tx: Tx, p: Param, addresses: map<string, Cell>, iv: nat -> nat)
    requires EnvOk(tx.env) && ParamOk(tx, p) && OwnedPerKey(p) && OwnersKnown(tx, p)
    ensures AlwaysRestores(tx, p, addresses, iv) <==> p.shape.depth == 1 || tx.keysSize(p.name) == 0
  {
    var n := tx.keysSize(p.name);
    if p.shape.depth == 1 || n == 0 {
      forall head, values | |head| == 2 && |values| == n ensures RestoresPlain(tx, p, head, values, addresses, iv) {
        forall j | 0 <= j < n ensures CellAt(PlainRecord(tx, p, head, values), 3 + 2 * j) == values[j] {
          DepthOneCell(tx, p, head, values, j);
        }
        MappingRestored(tx, p, head, values, addresses, iv);
      }
    } else {
      var head := [Cell(""), Cell("")];
      var key := KeyBlock(tx, p, 0);
      KeyBlockLength(tx, p, 0);
      var values := seq(n, _ => Cell(key[1].hex + "0"));
      DeepRecordLost(tx, p, head, values, addresses, iv);
      assert !RestoresPlain(tx, p, head, values, addresses, iv);
    }
  }

  /** A singly owned record is restored exactly when its owner is not the zero address, or its value reads as zero
      anyway. */
  lemma SingleRestored(tx: Tx, p: Param, rec: seq<Cell>, addresses: map<string, Cell>, iv: nat -> nat)
    requires EnvOk(tx.env) && ParamOk(tx, p) && OwnedSingly(p) && |rec| == RecordLen(tx, p, false)
    requires SealReady(tx, p, addresses)
    requires p.owner.Identifier? ==> OwnerAddress(tx, SingleOwner(tx, p, addresses)) == SingleOwner(tx, p, addresses)
    ensures Restores(tx, p, rec, addresses, iv) <==>
            tx.env.num(OwnerAddress(tx, SingleOwner(tx, p, addresses))) != 0 ||
            rec[1] == (if p.shape.Array? then tx.env.zeros(p.shape.size) else tx.env.zero)
  {
    assert rec == [rec[0], rec[1]];
  }

  /** A public address variable; other states can name it as their owner. */
  predicate NamesOwner(p: Param)
  {
    p.shape == Single(true) && p.owner.All?
  }

  /** The variables that name owners, with the address read for them at plaintext offsets, over the first k states. */
  ghost function AddressesOf(tx: Tx, prior: seq<Cell>, k: nat): (m: map<string, Cell>)
    requires k <= |tx.states|
  {
    if k == 0 then map[]
    else var p, m := tx.states[k - 1], AddressesOf(tx, prior, k - 1);
      if NamesOwner(p) then m[p.name := OwnerAddress(tx, CellAt(prior, Offset(tx, false, k - 1) + 1))] else m
  }

  lemma {:induction false} AddressesAreAddresses(tx: Tx, prior: seq<Cell>, k: nat)
    requires EnvOk(tx.env) && k <= |tx.states|
    ensures forall s :: s in AddressesOf(tx, prior, k) ==>
            OwnerAddress(tx, AddressesOf(tx, prior, k)[s]) == AddressesOf(tx, prior, k)[s]
  {
    if k > 0 {
      AddressesAreAddresses(tx, prior, k - 1);
    }
  }

  ghost function SealAt(tx: Tx, v: seq<Cell>, addresses: map<string, Cell>, ivs: nat -> nat -> nat,
                        k: nat): (r: seq<Cell>)
    requires TxOk(tx) && Complete(tx, v, false) && k < |tx.states|
    ensures Regular(tx.states[k]) ==> Fits(tx, true, r, k)
  {
    assert CompleteAt(tx, v, false, k);
    OffsetMono(tx, false, k + 1, |tx.states|);
    SealedFits(tx, v, addresses, ivs, k);
    SealRecord(tx, tx.states[k], Slice(tx, v, false, k), addresses, ivs(k))
  }

  lemma SealedFits(tx: Tx, v: seq<Cell>, addresses: map<string, Cell>, ivs: nat -> nat -> nat, k: nat)
    requires TxOk(tx) && Complete(tx, v, false) && k < |tx.states|
    requires Offset(tx, false, k) + RecordLen(tx, tx.states[k], false) <= |v|
    ensures Regular(tx.states[k]) ==>
            Fits(tx, true, SealRecord(tx, tx.states[k], Slice(tx, v, false, k), addresses, ivs(k)), k)
  {
    if Regular(tx.states[k]) {
      assert CompleteAt(tx, v, false, k);
      SealRecordLength(tx, tx.states[k], Slice(tx, v, false, k), addresses, ivs(k));
    }
  }

  ghost function SealedRecords(tx: Tx, v: seq<Cell>, addresses: map<string, Cell>,
                               ivs: nat -> nat -> nat): (f: nat -> seq<Cell>)
    requires TxOk(tx) && Complete(tx, v, false)
  {
    (k: nat) => if k < |tx.states| then SealAt(tx, v, addresses, ivs, k) else []
  }

  ghost predicate SealsReady(tx: Tx, addresses: map<string, Cell>, n: nat)
    requires n <= |tx.states|
  {
    n == 0 || (SealsReady(tx, addresses, n - 1) && SealReady(tx, tx.states[n - 1], addresses))
  }

  lemma {:induction false} SealsReadyIff(tx: Tx, addresses: map<string, Cell>, n: nat)
    requires n <= |tx.states|
    ensures SealsReady(tx, addresses, n) <==> forall k :: 0 <= k < n ==> SealReady(tx, tx.states[k], addresses)
  {
    if n > 0 {
      SealsReadyIff(tx, addresses, n - 1);
    }
  }

  /** What encryption returns: the sealed records, or a failed lookup. */
  ghost function SealedStates(tx: Tx, v: seq<Cell>, prior: seq<Cell>, ivs: nat -> nat -> nat): (r: Option<seq<Cell>>)
    requires TxOk(tx) && Complete(tx, v, false)
  {
    var addresses := AddressesOf(tx, prior, |tx.states|);
    if SealsReady(tx, addresses, |tx.states|)
    then Some(Slots(SealedRecords(tx, v, addresses, ivs), |tx.states|)) else None
  }

  /** A mapping with a single owner is sealed to four cells, which is too short. */
  lemma IrregularSealsShort(tx: Tx, p: Param, rec: seq<Cell>, addresses: map<string, Cell>, iv: nat -> nat)
    requires ParamOk(tx, p) && !Regular(p) && |rec| == RecordLen(tx, p, false)
    ensures |SealRecord(tx, p, rec, addresses, iv)| < RecordLen(tx, p, true)
  {
  }

  lemma SealedAt(tx: Tx, v: seq<Cell>, addresses: map<string, Cell>, ivs: nat -> nat -> nat, k: nat)
    requires TxOk(tx) && Complete(tx, v, false) && k < |tx.states|
    ensures SealedRecords(tx, v, addresses, ivs)(k) == SealAt(tx, v, addresses, ivs, k)
    ensures !Regular(tx.states[k]) ==> |SealAt(tx, v, addresses, ivs, k)| < RecordLen(tx, tx.states[k], true)
  {
    if !Regular(tx.states[k]) {
      assert CompleteAt(tx, v, false, k);
      OffsetMono(tx, false, k + 1, |tx.states|);
      IrregularSealsShort(tx, tx.states[k], Slice(tx, v, false, k), addresses, ivs(k));
    }
  }

  /** The sealed records make a complete encrypted vector, with each in its place, exactly when owners per key go
      with mappings and single owners with single values. */
  lemma SealedRecordsComplete(tx: Tx, v: seq<Cell>, addresses: map<string, Cell>, ivs: nat -> nat -> nat)
    requires TxOk(tx) && Complete(tx, v, false)
    ensures Complete(tx, Slots(SealedRecords(tx, v, addresses, ivs), |tx.states|), true) <==> AllRegular(tx)
    ensures AllRegular(tx) ==> forall k :: 0 <= k < |tx.states| ==>
              BlockAt(Slots(SealedRecords(tx, v, addresses, ivs), |tx.states|), Offset(tx, true, k),
                      SealAt(tx, v, addresses, ivs, k))
  {
    var f := SealedRecords(tx, v, addresses, ivs);
    forall k | 0 <= k < |tx.states|
      ensures f(k) == SealAt(tx, v, addresses, ivs, k)
      ensures if Regular(tx.states[k]) then Fits(tx, true, f(k), k) else |f(k)| < RecordLen(tx, tx.states[k], true)
    {
      SealedAt(tx, v, addresses, ivs, k);
    }
    if AllRegular(tx) {
      RecordsComplete(tx, true, f);
    } else {
      var k :| 0 <= k < |tx.states| && !Regular(tx.states[k]);
      ShortRecords(tx, true, f, k, |tx.states|);
    }
  }

  /** What encryption returns is a complete encrypted vector exactly when no mapping has a single owner. */
  lemma SealedIsComplete(tx: Tx, v: seq<Cell>, prior: seq<Cell>, ivs: nat -> nat -> nat)
    requires TxOk(tx) && Complete(tx, v, false) && SealedStates(tx, v, prior, ivs).Some?
    ensures Complete(tx, SealedStates(tx, v, prior, ivs).value, true) <==> NoSingleMapping(tx)
  {
    var addresses := AddressesOf(tx, prior, |tx.states|);
    SealedRecordsComplete(tx, v, addresses, ivs);
    SealsReadyIff(tx, addresses, |tx.states|);
    forall k | 0 <= k < |tx.states| && tx.states[k].owner.PerKey? ensures tx.states[k].shape.Mapping? {
      assert SealReady(tx, tx.states[k], addresses);
    }
  }

  /** What makes a plaintext record survive. In a mapping entry j must hold its own key cells and then the cell at
      3 + 2j, or zero when the j-th key cell, its owner, is zero; a single value needs a nonzero owner unless it reads
      as zero. */
  ghost predicate Restorable(tx: Tx, p: Param, rec: seq<Cell>, addresses: map<string, Cell>)
  {
    match p.owner
    case All => true
    case PerKey(_, _) =>
      p.shape.Mapping? && EntriesStand(tx, p, rec)
    case _ =>
      || tx.env.num(OwnerAddress(tx, SingleOwner(tx, p, addresses))) != 0
      || CellAt(rec, 1) == (if p.shape.Array? then tx.env.zeros(p.shape.size) else tx.env.zero)
  }

  ghost predicate EntriesStand(tx: Tx, p: Param, rec: seq<Cell>)
    requires p.shape.Mapping?
  {
    forall j :: 0 <= j < tx.keysSize(p.name) ==> EntryStands(tx, p, rec, j)
  }

  ghost predicate EntryStands(tx: Tx, p: Param, rec: seq<Cell>, j: nat)
    requires p.shape.Mapping?
  {
    BlockAt(rec, 2 + Times(1 + p.shape.depth, j), EntryBack(tx, p, rec, j))
  }

  ghost predicate OwnersAreAddresses(tx: Tx, addresses: map<string, Cell>)
  {
    forall s :: s in addresses ==> OwnerAddress(tx, addresses[s]) == addresses[s]
  }

  /** A record that can be sealed is restored exactly when it is restorable, and its keys are found again. */
  lemma RecordRestored(tx: Tx, p: Param, rec: seq<Cell>, addresses: map<string, Cell>, iv: nat -> nat)
    requires EnvOk(tx.env) && ParamOk(tx, p) && Regular(p) && |rec| == RecordLen(tx, p, false)
    requires OwnersAreAddresses(tx, addresses) && SealReady(tx, p, addresses)
    ensures Restores(tx, p, rec, addresses, iv) <==> Restorable(tx, p, rec, addresses)
    ensures OpenReady(tx, p, SealRecord(tx, p, rec, addresses, iv))
  {
    match p.owner
    case All =>
    case PerKey(_, _) =>
      MappingSurvives(tx, p, rec, addresses, iv);
      SealedOwners(tx, p, rec, addresses, iv);
    case _ =>
      SingleRestored(tx, p, rec, addresses, iv);
  }

  lemma MappingSurvives(tx: Tx, p: Param, rec: seq<Cell>, addresses: map<string, Cell>, iv: nat -> nat)
    requires EnvOk(tx.env) && ParamOk(tx, p) && OwnedPerKey(p) && |rec| == RecordLen(tx, p, false)
    ensures Restores(tx, p, rec, addresses, iv) <==> Restorable(tx, p, rec, addresses)
  {
    BackWhenStands(tx, p, rec);
    RestoresWhenBack(tx, p, rec, addresses, iv);
  }

  /** What is read back from a mapping is the record itself. */
  ghost predicate BackIsRecord(tx: Tx, p: Param, rec: seq<Cell>)
    requires p.shape.Mapping? && |rec| >= 2
  {
    rec[..2] + Slots(EntriesBack(tx, p, rec), tx.keysSize(p.name)) == rec
  }

  lemma RestoresWhenBack(tx: Tx, p: Param, rec: seq<Cell>, addresses: map<string, Cell>, iv: nat -> nat)
    requires EnvOk(tx.env) && ParamOk(tx, p) && OwnedPerKey(p) && |rec| == RecordLen(tx, p, false)
    ensures Restores(tx, p, rec, addresses, iv) <==> BackIsRecord(tx, p, rec)
  {
    MappingReadBack(tx, p, rec, addresses, iv);
  }

  lemma BackWhenStands(tx: Tx, p: Param, rec: seq<Cell>)
    requires ParamOk(tx, p) && OwnedPerKey(p) && |rec| == RecordLen(tx, p, false)
    ensures BackIsRecord(tx, p, rec) <==> EntriesStand(tx, p, rec)
  {
    assert |rec| == 2 + Times(1 + p.shape.depth, tx.keysSize(p.name));
    var f := BlocksBack(tx, p, rec);
    StandsWhenTiled(tx, p, rec, f);
  }

  ghost predicate IsEntryBack(tx: Tx, p: Param, rec: seq<Cell>, f: nat -> seq<Cell>, j: nat)
    requires p.shape.Mapping?
  {
    f(j) == EntryBack(tx, p, rec, j) && |f(j)| == 1 + p.shape.depth
  }

  /** The entries read back, block by block. */
  lemma BlocksBack(tx: Tx, p: Param, rec: seq<Cell>) returns (f: nat -> seq<Cell>)
    requires ParamOk(tx, p) && p.shape.Mapping?
    ensures forall j :: 0 <= j < tx.keysSize(p.name) ==> IsEntryBack(tx, p, rec, f, j)
    ensures Slots(f, tx.keysSize(p.name)) == Slots(EntriesBack(tx, p, rec), tx.keysSize(p.name))
  {
    f := EntriesBack(tx, p, rec);
    EntriesBackLength(tx, p, rec);
  }

  lemma StandsWhenTiled(tx: Tx, p: Param, rec: seq<Cell>, f: nat -> seq<Cell>)
    requires p.shape.Mapping? && |rec| == 2 + Times(1 + p.shape.depth, tx.keysSize(p.name))
    requires forall j :: 0 <= j < tx.keysSize(p.name) ==> IsEntryBack(tx, p, rec, f, j)
    ensures rec[..2] + Slots(f, tx.keysSize(p.name)) == rec <==> EntriesStand(tx, p, rec)
  {
    var w, n := 1 + p.shape.depth, tx.keysSize(p.name);
    forall j | 0 <= j < n ensures |f(j)| == w && (TileAt(rec, 2, f, w, j) <==> EntryStands(tx, p, rec, j)) {
      assert IsEntryBack(tx, p, rec, f, j);
    }
    TiledWhenConcatenation(rec, f, w, n);
  }

  lemma TiledWhenConcatenation(rec: seq<Cell>, f: nat -> seq<Cell>, w: nat, n: nat)
    requires |rec| == 2 + Times(w, n) && forall j :: 0 <= j < n ==> |f(j)| == w
    ensures rec[..2] + Slots(f, n) == rec <==> TiledAfter(rec, 2, f, w, n)
  {
    ConcatenationTiles(rec[..2], f, w, n);
    if TiledAfter(rec, 2, f, w, n) {
      TilesConcatenate(rec, 2, f, w, n);
      assert rec[..2] + rec[2..|rec|] == rec;
    }
  }

  lemma SealedOwners(tx: Tx, p: Param, rec: seq<Cell>, addresses: map<string, Cell>, iv: nat -> nat)
    requires ParamOk(tx, p) && OwnedPerKey(p) && |rec| == RecordLen(tx, p, false) && SealReady(tx, p, addresses)
    ensures OpenReady(tx, p, SealRecord(tx, p, rec, addresses, iv))
  {
    var sealed, n := SealRecord(tx, p, rec, addresses, iv), tx.keysSize(p.name);
    KeysListedIff(tx, p, n);
    var body := Slots(SealedEntries(tx, p, rec, iv), n);
    SealedEntriesLength(tx, p, rec, iv);
    forall j | 0 <= j < n ensures EntryReady(tx, CellAt(sealed, DataAt(p, j) + 2)) {
      assert KeyListed(tx, p, j);
      SealedCells(tx, p, rec, iv, j, rec[..2], body, sealed);
    }
    EntriesReadyFrom(tx, p, sealed, n);
  }

  ghost predicate RestorableAt(tx: Tx, v: seq<Cell>, addresses: map<string, Cell>, k: nat)
    requires Complete(tx, v, false) && k < |tx.states|
  {
    Restorable(tx, tx.states[k], SliceAt(tx, v, k), addresses)
  }

  /** The encrypted vector is complete and can be decrypted; that gives v back exactly when every record is
      restorable. */
  ghost predicate RoundTrips(tx: Tx, v: seq<Cell>, addresses: map<string, Cell>, sealed: seq<Cell>)
    requires TxOk(tx) && Complete(tx, v, false)
  {
    && Complete(tx, sealed, true) && OpenedStates(tx, sealed).Some?
    && (OpenedStates(tx, sealed).value == v <==> forall k :: 0 <= k < |tx.states| ==> RestorableAt(tx, v, addresses, k))
  }

  /** Decrypting what encryption produced gives the state vector back exactly when every record is restorable. */
  lemma StatesRoundTrip(tx: Tx, v: seq<Cell>, prior: seq<Cell>, ivs: nat -> nat -> nat)
    requires EnvOk(tx.env) && TxOk(tx) && AllRegular(tx) && Complete(tx, v, false)
    requires SealedStates(tx, v, prior, ivs).Some?
    ensures RoundTrips(tx, v, AddressesOf(tx, prior, |tx.states|), SealedStates(tx, v, prior, ivs).value)
  {
    var addresses, n := AddressesOf(tx, prior, |tx.states|), |tx.states|;
    AddressesAreAddresses(tx, prior, n);
    var sealed := Slots(SealedRecords(tx, v, addresses, ivs), n);
    SealedRecordsComplete(tx, v, addresses, ivs);
    SealsReadyIff(tx, addresses, n);
    forall k | 0 <= k < n ensures SurvivesAt(tx, v, addresses, sealed, k) {
      RestoredAt(tx, v, addresses, ivs, k, sealed);
    }
    AllSurvive(tx, v, addresses, sealed);
  }

  /** Record k can be opened again, and gives what it was exactly when it is restorable. */
  ghost predicate SurvivesAt(tx: Tx, v: seq<Cell>, addresses: map<string, Cell>, sealed: seq<Cell>, k: nat)
    requires TxOk(tx) && Complete(tx, v, false) && Complete(tx, sealed, true) && k < |tx.states|
  {
    ReadyAt(tx, sealed, k) && (OpenAt(tx, sealed, k) == SliceAt(tx, v, k) <==> RestorableAt(tx, v, addresses, k))
  }

  lemma AllSurvive(tx: Tx, v: seq<Cell>, addresses: map<string, Cell>, sealed: seq<Cell>)
    requires TxOk(tx) && AllRegular(tx) && Complete(tx, v, false) && Complete(tx, sealed, true)
    requires forall k :: 0 <= k < |tx.states| ==> SurvivesAt(tx, v, addresses, sealed, k)
    ensures RoundTrips(tx, v, addresses, sealed)
  {
    var n := |tx.states|;
    forall k | 0 <= k < n ensures ReadyAt(tx, sealed, k) {
      assert SurvivesAt(tx, v, addresses, sealed, k);
    }
    AllReadyFrom(tx, sealed, n);
    SameRecords(tx, v, sealed);
    forall k | 0 <= k < n ensures RestorableAt(tx, v, addresses, k) <==> OpenAt(tx, sealed, k) == SliceAt(tx, v, k) {
      assert SurvivesAt(tx, v, addresses, sealed, k);
    }
  }

  /** The opened records make up v exactly when each is v's record. */
  lemma SameRecords(tx: Tx, v: seq<Cell>, sealed: seq<Cell>)
    requires TxOk(tx) && AllRegular(tx) && Complete(tx, v, false) && Complete(tx, sealed, true)
    ensures Slots(OpenedRecords(tx, sealed), |tx.states|) == v <==>
            forall k :: 0 <= k < |tx.states| ==> OpenAt(tx, sealed, k) == SliceAt(tx, v, k)
  {
    var f := OpenedBlocks(tx, sealed);
    var n := |tx.states|;
    SlotsEqual(f, OpenedRecords(tx, sealed), n);
    forall k | 0 <= k < n ensures Fits(tx, false, f(k), k) {
      assert f(k) == OpenAt(tx, sealed, k) && Regular(tx.states[k]);
    }
    SlicesOnly(tx, v, f);
  }

  /** Fitting records make up v exactly when they are its slices. */
  lemma SlicesOnly(tx: Tx, v: seq<Cell>, f: nat -> seq<Cell>)
    requires Complete(tx, v, false) && forall k :: 0 <= k < |tx.states| ==> Fits(tx, false, f(k), k)
    ensures Slots(f, |tx.states|) == v <==> forall k :: 0 <= k < |tx.states| ==> f(k) == SliceAt(tx, v, k)
  {
    var n := |tx.states|;
    RecordsComplete(tx, false, f);
    if Slots(f, n) == v {
      forall k | 0 <= k < n ensures f(k) == SliceAt(tx, v, k) {
        BlockIsSlice(v, Offset(tx, false, k), f(k));
      }
    } else if forall k :: 0 <= k < n ==> f(k) == SliceAt(tx, v, k) {
      SlotsEqual(f, Slices(tx, v), n);
      SlicesJoin(tx, v);
    }
  }

  lemma {:induction false} AllReadyFrom(tx: Tx, v: seq<Cell>, n: nat)
    requires TxOk(tx) && Complete(tx, v, true) && n <= |tx.states| && forall k :: 0 <= k < n ==> ReadyAt(tx, v, k)
    ensures AllReady(tx, v, n)
  {
    if n > 0 {
      AllReadyFrom(tx, v, n - 1);
    }
  }

  lemma RestoredAt(tx: Tx, v: seq<Cell>, addresses: map<string, Cell>, ivs: nat -> nat -> nat, k: nat,
                   sealed: seq<Cell>)
    requires EnvOk(tx.env) && TxOk(tx) && AllRegular(tx) && Complete(tx, v, false) && k < |tx.states|
    requires OwnersAreAddresses(tx, addresses) && SealReady(tx, tx.states[k], addresses)
    requires Complete(tx, sealed, true) && BlockAt(sealed, Offset(tx, true, k), SealAt(tx, v, addresses, ivs, k))
    ensures SurvivesAt(tx, v, addresses, sealed, k)
  {
    OffsetMono(tx, true, k + 1, |tx.states|);
    assert Slice(tx, sealed, true, k) == SealAt(tx, v, addresses, ivs, k);
    RecordRestored(tx, tx.states[k], SliceAt(tx, v, k), addresses, ivs(k));
  }

  ghost function SliceAt(tx: Tx, v: seq<Cell>, k: nat): (r: seq<Cell>)
    requires Complete(tx, v, false) && k < |tx.states|
    ensures |r| == RecordLen(tx, tx.states[k], false)
  {
    OffsetMono(tx, false, k + 1, |tx.states|);
    Slice(tx, v, false, k)
  }

  ghost function Slices(tx: Tx, v: seq<Cell>): (f: nat -> seq<Cell>)
    requires Complete(tx, v, false)
  {
    (k: nat) => if k < |tx.states| then SliceAt(tx, v, k) else []
  }

  lemma SlicesJoin(tx: Tx, v: seq<Cell>)
    requires Complete(tx, v, false)
    ensures Slots(Slices(tx, v), |tx.states|) == v
  {
    var n := |tx.states|;
    var cuts := (i: nat) => if i <= n then Offset(tx, false, i) else 0;
    forall i | 0 <= i < n ensures Piece(Slices(tx, v), cuts, v, i) {
      SliceIs(tx, v, i);
    }
    SlotsOfCuts(Slices(tx, v), cuts, v, n);
    assert v[..|v|] == v;
  }

  lemma SliceIs(tx: Tx, v: seq<Cell>, k: nat)
    requires Complete(tx, v, false) && k < |tx.states|
    ensures Offset(tx, false, k) <= Offset(tx, false, k + 1) <= |v|
    ensures Slices(tx, v)(k) == v[Offset(tx, false, k)..Offset(tx, false, k + 1)]
  {
    OffsetMono(tx, false, k + 1, |tx.states|);
    assert Slices(tx, v)(k) == SliceAt(tx, v, k);
  }

  lemma {:induction false} CanonicalAt(tx: Tx, encrypted: bool, k: nat, j: nat)
    requires k <= j < |tx.states|
    ensures |Canonical(tx, encrypted, k)| == |tx.states| - k &&
            Canonical(tx, encrypted, k)[j - k] == (j, Offset(tx, encrypted, j))
    decreases j - k
  {
    CanonicalLength(tx, encrypted, k);
    if k < j {
      CanonicalAt(tx, encrypted, k + 1, j);
    }
  }

  lemma {:induction false} CanonicalLength(tx: Tx, encrypted: bool, k: nat)
    requires k <= |tx.states|
    ensures |Canonical(tx, encrypted, k)| == |tx.states| - k
    decreases |tx.states| - k
  {
    if k < |tx.states| {
      CanonicalLength(tx, encrypted, k + 1);
    }
  }

  /** Every state is visited, in order, where its record starts. */
  ghost predicate VisitsAre(tx: Tx, encrypted: bool, visits: seq<(nat, nat)>)
    requires |visits| == |tx.states|
  {
    forall k :: 0 <= k < |visits| ==> VisitAt(tx, encrypted, visits, k)
  }

  ghost predicate VisitAt(tx: Tx, encrypted: bool, visits: seq<(nat, nat)>, k: nat)
    requires k < |visits| == |tx.states|
  {
    visits[k] == (k, Offset(tx, encrypted, k))
  }

  /** The walk over a complete vector. */
  method VisitComplete(tx: Tx, v: seq<Cell>, encrypted: bool) returns (visits: seq<(nat, nat)>)
    requires Complete(tx, v, encrypted)
    ensures |visits| == |tx.states| && VisitsAre(tx, encrypted, visits)
  {
    CompleteWalk(tx, v, encrypted, 0);
    CanonicalLength(tx, encrypted, 0);
    visits := VisitStates(tx, v, encrypted);
    forall k | 0 <= k < |visits| ensures VisitAt(tx, encrypted, visits, k) {
      CanonicalAt(tx, encrypted, 0, k);
    }
  }

  /** Decrypt a state vector, record by record. */
  method DecryptStates(tx: Tx, oldStates: seq<Cell>) returns (res: Option<seq<Cell>>)
    requires TxOk(tx) && Complete(tx, oldStates, true)
    ensures res == OpenedStates(tx, oldStates)
  {
    var visits := VisitComplete(tx, oldStates, true);
    ghost var f := OpenedBlocks(tx, oldStates);
    res := DecryptVisits(tx, oldStates, visits, f);
    SlotsEqual(f, OpenedRecords(tx, oldStates), |tx.states|);
  }

  method DecryptVisits(tx: Tx, v: seq<Cell>, visits: seq<(nat, nat)>, ghost f: nat -> seq<Cell>)
    returns (res: Option<seq<Cell>>)
    requires TxOk(tx) && Complete(tx, v, true) && |visits| == |tx.states|
    requires VisitsAre(tx, true, visits)
    requires OpenedAs(tx, v, f)
    ensures res == if AllReady(tx, v, |tx.states|) then Some(Slots(f, |tx.states|)) else None
  {
    var out := [];
    for i := 0 to |visits|
      invariant out == Slots(f, i) && AllReady(tx, v, i)
    {
      assert VisitAt(tx, true, visits, i);
      var cells := DecryptRecord(tx, v, visits[i].0, visits[i].1);
      if cells.None? {
        AllReadyAt(tx, v, i, |tx.states|);
        return None;
      }
      assert IsOpenAt(tx, v, f, i);
      assert cells.value == f(i);
      SlotsNext(f, i);
      out := out + cells.value;
    }
    res := Some(out);
  }

  /** f gives the opened records; stated record by record, so that it is looked up where it is needed. */
  ghost predicate OpenedAs(tx: Tx, v: seq<Cell>, f: nat -> seq<Cell>)
    requires TxOk(tx) && Complete(tx, v, true)
  {
    forall k :: 0 <= k < |tx.states| ==> IsOpenAt(tx, v, f, k)
  }

  ghost predicate IsOpenAt(tx: Tx, v: seq<Cell>, f: nat -> seq<Cell>, k: nat)
    requires TxOk(tx) && Complete(tx, v, true) && k < |tx.states|
  {
    f(k) == OpenAt(tx, v, k)
  }

  /** The opened records, block by block. */
  lemma OpenedBlocks(tx: Tx, v: seq<Cell>) returns (f: nat -> seq<Cell>)
    requires TxOk(tx) && Complete(tx, v, true)
    ensures OpenedAs(tx, v, f)
    ensures forall k {:trigger f(k)} :: 0 <= k < |tx.states| ==> f(k) == OpenAt(tx, v, k) == OpenedRecords(tx, v)(k)
  {
    f := OpenedRecords(tx, v);
  }

  method DecryptRecord(tx: Tx, oldStates: seq<Cell>, id: nat, idx: nat) returns (res: Option<seq<Cell>>)
    requires TxOk(tx) && Complete(tx, oldStates, true) && id < |tx.states| && idx == Offset(tx, true, id)
    ensures res == if ReadyAt(tx, oldStates, id) then Some(OpenAt(tx, oldStates, id)) else None
  {
    OffsetMono(tx, true, id + 1, |tx.states|);
    assert CompleteAt(tx, oldStates, true, id);
    var p := tx.states[id];
    assert ParamOk(tx, p);
    ghost var rec := Slice(tx, oldStates, true, id);
    match p.owner
    case All =>
      var cells := CopyRecord(tx, p, oldStates, idx, rec);
      res := Some(cells);
    case PerKey(_, _) =>
      if !p.shape.Mapping? {
        return None;
      }
      var entries := DecryptEntries(tx, p, oldStates, idx, rec);
      if entries.None? {
        return None;
      }
      HeadOf(oldStates, idx, rec);
      res := Some([oldStates[idx], oldStates[idx + 1]] + entries.value);
    case _ =>
      res := DecryptSingle(tx, p, oldStates, idx, rec);
  }

  lemma HeadOf(v: seq<Cell>, idx: nat, rec: seq<Cell>)
    requires |rec| >= 2 && idx + |rec| <= |v| && rec == v[idx..idx + |rec|]
    ensures rec[..2] == [v[idx], v[idx + 1]]
  {
  }

  /** A public record is copied. */
  method CopyRecord(tx: Tx, p: Param, v: seq<Cell>, idx: nat, ghost rec: seq<Cell>) returns (cells: seq<Cell>)
    requires p.owner.All? && |rec| == Span(p, false, tx.keysSize(p.name)) && idx + |rec| <= |v| &&
             rec == v[idx..idx + |rec|]
    requires p.shape.Mapping? ==> tx.env.num(v[idx + 1]) == tx.keysSize(p.name)
    ensures cells == rec
  {
    if p.shape.Mapping? {
      var size := tx.env.num(v[idx + 1]);
      TimesIsMul(1 + p.shape.depth, size);
      cells := [v[idx]] + v[idx + 1..idx + 2 + size * (p.shape.depth + 1)];
    } else {
      cells := [v[idx], v[idx + 1]];
    }
  }

  method DecryptSingle(tx: Tx, p: Param, v: seq<Cell>, idx: nat, ghost rec: seq<Cell>) returns (res: Option<seq<Cell>>)
    requires ParamOk(tx, p) && (p.owner.Tee? || p.owner.Identifier?)
    requires |rec| == RecordLen(tx, p, true) && idx + |rec| <= |v| && rec == v[idx..idx + |rec|]
    ensures res == if OpenReady(tx, p, rec) then Some(OpenRecord(tx, p, rec)) else None
  {
    var senderAddr := tx.env.checksum(tx.env.num(v[idx + 3]));
    if tx.env.num(senderAddr) == 0 {
      return Some([v[idx], if p.shape.Array? then tx.env.zeros(p.shape.size) else tx.env.zero]);
    }
    if !p.owner.Tee? && senderAddr !in tx.publicKeys {
      return None;
    }
    var key := if p.owner.Tee? then tx.env.teeKey else tx.publicKeys[senderAddr];
    res := Some([v[idx], tx.env.open(key, v[idx + 1], v[idx + 2])]);
  }

  /** The entries of a mapping with an owner per key. */
  method DecryptEntries(tx: Tx, p: Param, v: seq<Cell>, idx: nat, ghost rec: seq<Cell>) returns (res: Option<seq<Cell>>)
    requires ParamOk(tx, p) && OwnedPerKey(p)
    requires |rec| == RecordLen(tx, p, true) && idx + |rec| <= |v| && rec == v[idx..idx + |rec|]
    ensures res == if EntriesReady(tx, p, rec, tx.keysSize(p.name))
                   then Some(Slots(Opened(tx, p, rec), tx.keysSize(p.name))) else None
  {
    ghost var f, ready := OpenedEntryBlocks(tx, p, rec);
    res := DecryptBlocks(tx, p, v, idx, rec, f, ready);
  }

  method DecryptBlocks(tx: Tx, p: Param, v: seq<Cell>, idx: nat, ghost rec: seq<Cell>,
                       ghost f: nat -> seq<Cell>, ghost ready: nat -> bool) returns (res: Option<seq<Cell>>)
    requires ParamOk(tx, p) && OwnedPerKey(p)
    requires |rec| == RecordLen(tx, p, true) && idx + |rec| <= |v| && rec == v[idx..idx + |rec|]
    requires EntryBlocks(tx, p, rec, f, ready)
    ensures res == if AllTrue(ready, tx.keysSize(p.name)) then Some(Slots(f, tx.keysSize(p.name))) else None
  {
    var keysSize := tx.keysSize(p.name);
    var out := [];
    for j := 0 to keysSize
      invariant out == Slots(f, j) && AllTrue(ready, j)
    {
      var entry := DecryptEntry(tx, p, v, idx, j, rec, f, ready);
      if entry.None? {
        AllTrueFails(ready, j, keysSize);
        return None;
      }
      SlotsNext(f, j);
      out := out + entry.value;
    }
    res := Some(out);
  }

  /** The opened entries, block by block, and which of them have their keys. */
  lemma OpenedEntryBlocks(tx: Tx, p: Param, rec: seq<Cell>) returns (f: nat -> seq<Cell>, ready: nat -> bool)
    requires p.shape.Mapping?
    ensures EntryBlocks(tx, p, rec, f, ready)
    ensures Slots(f, tx.keysSize(p.name)) == Slots(Opened(tx, p, rec), tx.keysSize(p.name))
    ensures AllTrue(ready, tx.keysSize(p.name)) <==> EntriesReady(tx, p, rec, tx.keysSize(p.name))
  {
    f := Opened(tx, p, rec);
    ready := (j: nat) => EntryReady(tx, CellAt(rec, DataAt(p, j) + 2));
    ReadyAs(tx, p, rec, ready, tx.keysSize(p.name));
  }

  ghost predicate EntryBlocks(tx: Tx, p: Param, rec: seq<Cell>, f: nat -> seq<Cell>, ready: nat -> bool)
    requires p.shape.Mapping?
  {
    forall j: nat :: EntryBlock(tx, p, rec, f, ready, j)
  }

  ghost predicate EntryBlock(tx: Tx, p: Param, rec: seq<Cell>, f: nat -> seq<Cell>, ready: nat -> bool, j: nat)
    requires p.shape.Mapping?
  {
    f(j) == OpenedEntry(tx, p, rec, j) && (ready(j) <==> EntryReady(tx, CellAt(rec, DataAt(p, j) + 2)))
  }

  lemma {:induction false} ReadyAs(tx: Tx, p: Param, rec: seq<Cell>, ready: nat -> bool, n: nat)
    requires p.shape.Mapping? && forall j: nat :: ready(j) <==> EntryReady(tx, CellAt(rec, DataAt(p, j) + 2))
    ensures AllTrue(ready, n) <==> EntriesReady(tx, p, rec, n)
  {
    if n > 0 {
      ReadyAs(tx, p, rec, ready, n - 1);
    }
  }

  /** The value of the two cells under the public key of the address in the third, or zero when that is. */
  predicate OpensTo(tx: Tx, v: seq<Cell>, at: nat, c: Cell)
  {
    var owner := CellAt(v, at + 2);
    var a := tx.env.checksum(tx.env.num(owner));
    if tx.env.num(owner) == 0 then c == tx.env.zero
    else a in tx.publicKeys && c == tx.env.open(tx.publicKeys[a], CellAt(v, at), CellAt(v, at + 1))
  }

  /** The value sealed under the public key of the owner's address, and the owner. */
  predicate SealsInto(tx: Tx, owner: Cell, iv: nat, plain: Cell, cells: seq<Cell>)
  {
    var a := tx.env.checksum(tx.env.num(owner));
    a in tx.publicKeys && var (data, tag) := tx.env.seal(tx.publicKeys[a], iv, plain); cells == [data, tag, owner]
  }

  method DecryptEntry(tx: Tx, p: Param, v: seq<Cell>, idx: nat, j: nat, ghost rec: seq<Cell>,
                      ghost f: nat -> seq<Cell>, ghost ready: nat -> bool) returns (res: Option<seq<Cell>>)
    requires ParamOk(tx, p) && OwnedPerKey(p) && j < tx.keysSize(p.name)
    requires |rec| == RecordLen(tx, p, true) && idx + |rec| <= |v| && rec == v[idx..idx + |rec|]
    requires EntryBlocks(tx, p, rec, f, ready)
    ensures res == if ready(j) then Some(f(j)) else None
    ensures res.Some? ==> res.value != [] && OpensTo(tx, v, idx + DataAt(p, j), res.value[|res.value| - 1])
  {
    assert EntryBlock(tx, p, rec, f, ready, j);
    var block := ReadKeyBlock(tx, p, j);
    var dataPos := DataPosition(tx, p, idx, j);
    EntryReads(v, idx, |rec|, DataAt(p, j));
    var senderAddr := tx.env.num(v[dataPos + 2]);
    if senderAddr == 0 {
      return Some(block + [tx.env.zero]);
    }
    if tx.env.checksum(senderAddr) !in tx.publicKeys {
      return None;
    }
    var key := tx.publicKeys[tx.env.checksum(senderAddr)];
    res := Some(block + [tx.env.open(key, v[dataPos], v[dataPos + 1])]);
  }

  /** The key cells of entry j, cut out of the flat list. */
  method ReadKeyBlock(tx: Tx, p: Param, j: nat) returns (block: seq<Cell>)
    requires ParamOk(tx, p) && OwnedPerKey(p) && j < tx.keysSize(p.name)
    ensures block == KeyBlock(tx, p, j)
  {
    var mappingKeys := tx.mappingKeys(p.name);
    var depth := p.shape.depth;
    TimesMono(depth, j + 1, tx.keysSize(p.name));
    TimesIsMul(depth, j);
    TimesIsMul(depth, j + 1);
    block := mappingKeys[j * depth..(j + 1) * depth];
  }

  /** Where the sealed value of entry j starts. */
  method DataPosition(tx: Tx, p: Param, idx: nat, j: nat) returns (pos: nat)
    requires ParamOk(tx, p) && OwnedPerKey(p) && j < tx.keysSize(p.name)
    ensures pos == idx + DataAt(p, j) && DataAt(p, j) + 3 <= RecordLen(tx, p, true)
  {
    var depth := p.shape.depth;
    TimesMono(3 + depth, j + 1, tx.keysSize(p.name));
    TimesIsMul(3 + depth, j);
    pos := idx + 2 + depth + j * (depth + 3);
  }

  lemma EntryReads(v: seq<Cell>, idx: nat, len: nat, at: nat)
    requires idx + len <= |v| && at + 3 <= len
    ensures var rec := v[idx..idx + len];
            && v[idx + at] == CellAt(rec, at)
            && v[idx + at + 1] == CellAt(rec, at + 1)
            && v[idx + at + 2] == CellAt(rec, at + 2)
  {
  }

  /** The addresses of the owner variables, read from the vector of before at this one's offsets. */
  method CollectAddresses(tx: Tx, newStates: seq<Cell>, prior: seq<Cell>) returns (addresses: map<string, Cell>)
    requires Complete(tx, newStates, false) && Offset(tx, false, |tx.states|) <= |prior|
    ensures addresses == AddressesOf(tx, prior, |tx.states|)
  {
    var visits := VisitComplete(tx, newStates, false);
    addresses := map[];
    for i := 0 to |visits|
      invariant addresses == AddressesOf(tx, prior, i)
    {
      assert VisitAt(tx, false, visits, i);
      var (id, idx) := visits[i];
      OffsetMono(tx, false, i + 1, |tx.states|);
      if tx.states[id].shape == Single(true) && tx.states[id].owner.All? {
        addresses := addresses[tx.states[id].name := tx.env.checksum(tx.env.num(prior[idx + 1]))];
      }
    }
  }

  /** Encrypt a state vector, record by record. */
  method EncryptStates(tx: Tx, newStates: seq<Cell>, prior: seq<Cell>, ivs: nat -> nat -> nat)
    returns (res: Option<seq<Cell>>)
    requires TxOk(tx) && Complete(tx, newStates, false) && Offset(tx, false, |tx.states|) <= |prior|
    ensures res == SealedStates(tx, newStates, prior, ivs)
  {
    var addresses := CollectAddresses(tx, newStates, prior);
    var visits := VisitComplete(tx, newStates, false);
    ghost var f := SealedBlocks(tx, newStates, addresses, ivs);
    res := EncryptVisits(tx, newStates, visits, addresses, ivs, f);
    SlotsEqual(f, SealedRecords(tx, newStates, addresses, ivs), |tx.states|);
  }

  method EncryptVisits(tx: Tx, v: seq<Cell>, visits: seq<(nat, nat)>, addresses: map<string, Cell>,
                       ivs: nat -> nat -> nat, ghost f: nat -> seq<Cell>)
    returns (res: Option<seq<Cell>>)
    requires TxOk(tx) && Complete(tx, v, false) && |visits| == |tx.states|
    requires VisitsAre(tx, false, visits)
    requires SealedAs(tx, v, addresses, ivs, f)
    ensures res == if SealsReady(tx, addresses, |tx.states|) then Some(Slots(f, |tx.states|)) else None
  {
    var out := [];
    for i := 0 to |visits|
      invariant out == Slots(f, i) && SealsReady(tx, addresses, i)
    {
      assert VisitAt(tx, false, visits, i);
      var cells := EncryptRecord(tx, v, visits[i].0, visits[i].1, addresses, ivs);
      if cells.None? {
        SealsReadyIff(tx, addresses, |tx.states|);
        return None;
      }
      assert IsSealAt(tx, v, addresses, ivs, f, i);
      assert cells.value == f(i);
      SlotsNext(f, i);
      out := out + cells.value;
    }
    res := Some(out);
  }

  /** f gives the sealed records; stated record by record. */
  ghost predicate SealedAs(tx: Tx, v: seq<Cell>, addresses: map<string, Cell>, ivs: nat -> nat -> nat,
                           f: nat -> seq<Cell>)
    requires TxOk(tx) && Complete(tx, v, false)
  {
    forall k :: 0 <= k < |tx.states| ==> IsSealAt(tx, v, addresses, ivs, f, k)
  }

  ghost predicate IsSealAt(tx: Tx, v: seq<Cell>, addresses: map<string, Cell>, ivs: nat -> nat -> nat,
                           f: nat -> seq<Cell>, k: nat)
    requires TxOk(tx) && Complete(tx, v, false) && k < |tx.states|
  {
    f(k) == SealAt(tx, v, addresses, ivs, k)
  }

  /** The sealed records, block by block. */
  lemma SealedBlocks(tx: Tx, v: seq<Cell>, addresses: map<string, Cell>, ivs: nat -> nat -> nat)
    returns (f: nat -> seq<Cell>)
    requires TxOk(tx) && Complete(tx, v, false)
    ensures SealedAs(tx, v, addresses, ivs, f)
    ensures forall k {:trigger f(k)} :: 0 <= k < |tx.states| ==>
              f(k) == SealAt(tx, v, addresses, ivs, k) == SealedRecords(tx, v, addresses, ivs)(k)
  {
    f := SealedRecords(tx, v, addresses, ivs);
  }

  method EncryptRecord(tx: Tx, v: seq<Cell>, id: nat, idx: nat, addresses: map<string, Cell>, ivs: nat -> nat -> nat)
    returns (res: Option<seq<Cell>>)
    requires TxOk(tx) && Complete(tx, v, false) && id < |tx.states| && idx == Offset(tx, false, id)
    ensures res == if SealReady(tx, tx.states[id], addresses) then Some(SealAt(tx, v, addresses, ivs, id)) else None
  {
    OffsetMono(tx, false, id + 1, |tx.states|);
    assert CompleteAt(tx, v, false, id);
    var p := tx.states[id];
    assert ParamOk(tx, p);
    ghost var rec := Slice(tx, v, false, id);
    match p.owner
    case All =>
      var cells := CopyRecord(tx, p, v, idx, rec);
      res := Some(cells);
    case PerKey(_, _) =>
      if !p.shape.Mapping? {
        return None;
      }
      var entries := EncryptEntries(tx, p, v, idx, rec, ivs(id));
      if entries.None? {
        return None;
      }
      HeadOf(v, idx, rec);
      res := Some([v[idx], v[idx + 1]] + entries.value);
    case _ =>
      res := EncryptSingle(tx, p, v, idx, rec, addresses, ivs(id));
  }

  method EncryptSingle(tx: Tx, p: Param, v: seq<Cell>, idx: nat, ghost rec: seq<Cell>, addresses: map<string, Cell>,
                       iv: nat -> nat)
    returns (res: Option<seq<Cell>>)
    requires ParamOk(tx, p) && (p.owner.Tee? || p.owner.Identifier?)
    requires |rec| == RecordLen(tx, p, false) && idx + |rec| <= |v| && rec == v[idx..idx + |rec|]
    ensures res == if SealReady(tx, p, addresses) then Some(SealRecord(tx, p, rec, addresses, iv)) else None
  {
    if p.owner.Identifier? && (p.owner.state !in addresses || addresses[p.owner.state] !in tx.publicKeys) {
      return None;
    }
    var senderAddr := if p.owner.Tee? then tx.env.teeAddress else addresses[p.owner.state];
    var key := if p.owner.Tee? then tx.env.teeKey else tx.publicKeys[senderAddr];
    var (data, tag) := tx.env.seal(key, iv(0), v[idx + 1]);
    assert Sealed(tx, key, iv(0), v[idx + 1], senderAddr) == [data, tag, senderAddr];
    res := Some([v[idx]] + [data, tag, senderAddr]);
  }

  /** The entries of a mapping with an owner per key. */
  method EncryptEntries(tx: Tx, p: Param, v: seq<Cell>, idx: nat, ghost rec: seq<Cell>, iv: nat -> nat)
    returns (res: Option<seq<Cell>>)
    requires ParamOk(tx, p) && OwnedPerKey(p)
    requires |rec| == RecordLen(tx, p, false) && idx + |rec| <= |v| && rec == v[idx..idx + |rec|]
    ensures res == if KeysListed(tx, p, tx.keysSize(p.name))
                   then Some(Slots(SealedEntries(tx, p, rec, iv), tx.keysSize(p.name))) else None
  {
    ghost var f := SealedEntryBlocks(tx, p, rec, iv);
    res := EncryptBlocks(tx, p, v, idx, rec, iv, f);
  }

  method EncryptBlocks(tx: Tx, p: Param, v: seq<Cell>, idx: nat, ghost rec: seq<Cell>, iv: nat -> nat,
                       ghost f: nat -> seq<Cell>)
    returns (res: Option<seq<Cell>>)
    requires ParamOk(tx, p) && OwnedPerKey(p)
    requires |rec| == RecordLen(tx, p, false) && idx + |rec| <= |v| && rec == v[idx..idx + |rec|]
    requires forall j :: 0 <= j < tx.keysSize(p.name) ==> IsSealedEntry(tx, p, rec, iv, f, j)
    ensures res == if KeysListed(tx, p, tx.keysSize(p.name)) then Some(Slots(f, tx.keysSize(p.name))) else None
  {
    var keysSize := tx.keysSize(p.name);
    var out := [];
    for j := 0 to keysSize
      invariant out == Slots(f, j) && KeysListed(tx, p, j)
    {
      var entry := EncryptEntry(tx, p, v, idx, j, rec, iv);
      if entry.None? {
        KeysListedIff(tx, p, keysSize);
        return None;
      }
      assert IsSealedEntry(tx, p, rec, iv, f, j);
      SlotsNext(f, j);
      out := out + entry.value;
    }
    res := Some(out);
  }

  ghost predicate IsSealedEntry(tx: Tx, p: Param, rec: seq<Cell>, iv: nat -> nat, f: nat -> seq<Cell>, j: nat)
    requires p.shape.Mapping?
  {
    f(j) == SealedEntry(tx, p, rec, iv, j)
  }

  lemma SealedEntryBlocks(tx: Tx, p: Param, rec: seq<Cell>, iv: nat -> nat) returns (f: nat -> seq<Cell>)
    requires p.shape.Mapping?
    ensures forall j :: 0 <= j < tx.keysSize(p.name) ==> IsSealedEntry(tx, p, rec, iv, f, j)
    ensures Slots(f, tx.keysSize(p.name)) == Slots(SealedEntries(tx, p, rec, iv), tx.keysSize(p.name))
  {
    f := SealedEntries(tx, p, rec, iv);
  }

  method EncryptEntry(tx: Tx, p: Param, v: seq<Cell>, idx: nat, j: nat, ghost rec: seq<Cell>, iv: nat -> nat)
    returns (res: Option<seq<Cell>>)
    requires ParamOk(tx, p) && OwnedPerKey(p) && j < tx.keysSize(p.name)
    requires |rec| == RecordLen(tx, p, false) && idx + |rec| <= |v| && rec == v[idx..idx + |rec|]
    ensures res == if KeyListed(tx, p, j) then Some(SealedEntry(tx, p, rec, iv, j)) else None
    ensures res.Some? ==> |res.value| >= 3 && SealsInto(tx, CellAt(tx.mappingKeys(p.name), j), iv(j),
                                                       CellAt(v, idx + 3 + 2 * j), res.value[|res.value| - 3..])
  {
    var block := ReadKeyBlock(tx, p, j);
    SealBounds(tx, p, j);
    var owner := tx.mappingKeys(p.name)[j];
    var msgSender := tx.env.checksum(tx.env.num(owner));
    if msgSender !in tx.publicKeys {
      return None;
    }
    var (data, tag) := tx.env.seal(tx.publicKeys[msgSender], iv(j), v[idx + 3 + j * 2]);
    assert rec[3 + 2 * j] == v[idx + 3 + j * 2];
    res := Some(block + [data, tag, owner]);
    assert (block + [data, tag, owner])[|block|..] == [data, tag, owner];
  }

  /** The cells encryption reads for entry j exist. */
  lemma SealBounds(tx: Tx, p: Param, j: nat)
    requires ParamOk(tx, p) && OwnedPerKey(p) && j < tx.keysSize(p.name)
    ensures j < |tx.mappingKeys(p.name)| && 3 + 2 * j < RecordLen(tx, p, false)
  {
    var n, d := tx.keysSize(p.name), p.shape.depth;
    TimesAtLeast(d, 1, n);
    TimesAtLeast(1 + d, 2, n);
    TimesIsMul(1, n);
    TimesIsMul(2, n);
    assert RecordLen(tx, p, false) == 2 + Times(1 + d, n) >= 2 + 2 * n;
  }

  lemma {:induction false} TimesAtLeast(w: nat, least: nat, n: nat)
    requires w >= least
    ensures Times(w, n) >= Times(least, n)
  {
    if n > 0 {
      TimesAtLeast(w, least, n - 1);
    }
  }
}
