/** The public keys that decryption looks up in an encrypted vector, and whether they are among those asked for. */
module StateLookups {
  import opened Wrappers
  import opened Blocks
  import opened PolicyFunction
  import opened StateRecords
  import opened StateOwners
  import opened StateRequests

  /** The key of a mapping entry's owner was asked for; a zero owner needs none. */
  predicate OwnerAsked(tx: Tx, owner: Cell, asked: seq<Cell>)
  {
    tx.env.num(owner) == 0 || OwnerAddress(tx, owner) in asked
  }

  /** The same for a single value, whose owner cell is converted first. */
  predicate SenderAsked(tx: Tx, owner: Cell, asked: seq<Cell>)
  {
    tx.env.num(OwnerAddress(tx, owner)) == 0 || OwnerAddress(tx, owner) in asked
  }

  /** Every public key that decryption looks up for the record was asked for. */
  ghost predicate RecordAsked(tx: Tx, p: Param, rec: seq<Cell>, asked: seq<Cell>)
  {
    && (OwnedPerKey(p) ==>
          forall j :: 0 <= j < tx.keysSize(p.name) ==> OwnerAsked(tx, CellAt(rec, DataAt(p, j) + 2), asked))
    && (p.owner.Identifier? ==> SenderAsked(tx, CellAt(rec, 3), asked))
  }

  ghost predicate AskedAt(tx: Tx, v: seq<Cell>, k: nat, asked: seq<Cell>)
    requires Complete(tx, v, true) && k < |tx.states|
  {
    OffsetMono(tx, true, k + 1, |tx.states|);
    RecordAsked(tx, tx.states[k], Slice(tx, v, true, k), asked)
  }

  /** Every public key that decryption of the vector looks up was asked for because of that vector. */
  ghost predicate DecryptionAsked(tx: Tx, v: seq<Cell>)
    requires Complete(tx, v, true)
  {
    var r := Requests(tx, OwnAddressesOf(tx, v, |tx.states|), |tx.states|);
    r.Some? && forall k :: 0 <= k < |tx.states| ==> AskedAt(tx, v, k, r.value)
  }

  lemma {:induction false} EntriesReadyIff(tx: Tx, p: Param, rec: seq<Cell>, n: nat)
    requires p.shape.Mapping?
    ensures EntriesReady(tx, p, rec, n) <==> forall j :: 0 <= j < n ==> EntryReady(tx, CellAt(rec, DataAt(p, j) + 2))
  {
    if n > 0 {
      EntriesReadyIff(tx, p, rec, n - 1);
    }
  }

  lemma {:induction false} AllReadyIff(tx: Tx, v: seq<Cell>, n: nat)
    requires TxOk(tx) && Complete(tx, v, true) && n <= |tx.states|
    ensures AllReady(tx, v, n) <==> forall k :: 0 <= k < n ==> ReadyAt(tx, v, k)
  {
    if n > 0 {
      AllReadyIff(tx, v, n - 1);
    }
  }

  lemma RecordReady(tx: Tx, p: Param, rec: seq<Cell>, asked: seq<Cell>)
    requires ParamOk(tx, p) && Regular(p) && Answered(tx, asked) && OnlyAnswered(tx, asked)
    ensures OpenReady(tx, p, rec) <==> RecordAsked(tx, p, rec, asked)
  {
    if p.owner.PerKey? {
      EntriesReadyIff(tx, p, rec, tx.keysSize(p.name));
      forall j | 0 <= j < tx.keysSize(p.name)
        ensures EntryReady(tx, CellAt(rec, DataAt(p, j) + 2)) <==> OwnerAsked(tx, CellAt(rec, DataAt(p, j) + 2), asked)
      {
      }
    }
  }

  /** With the answers to its requests and no other keys, decryption succeeds exactly when every key it looks up was
      asked for. */
  lemma AnsweredOpens(tx: Tx, v: seq<Cell>)
    requires TxOk(tx) && AllRegular(tx) && Complete(tx, v, true)
    requires var asked := Requests(tx, OwnAddressesOf(tx, v, |tx.states|), |tx.states|);
             asked.Some? && Answered(tx, asked.value) && OnlyAnswered(tx, asked.value)
    ensures OpenedStates(tx, v).Some? <==> DecryptionAsked(tx, v)
  {
    var asked := Requests(tx, OwnAddressesOf(tx, v, |tx.states|), |tx.states|).value;
    AllReadyIff(tx, v, |tx.states|);
    forall k | 0 <= k < |tx.states| ensures ReadyAt(tx, v, k) <==> AskedAt(tx, v, k, asked) {
      OffsetMono(tx, true, k + 1, |tx.states|);
      RecordReady(tx, tx.states[k], Slice(tx, v, true, k), asked);
    }
  }

  /** The keys that decryption will look up for a record that encryption made, told from the policy: those of the first
      key cells, and that of the owner it was sealed for. */
  ghost predicate SealedAsked(tx: Tx, p: Param, addresses: map<string, Cell>, asked: seq<Cell>)
  {
    && (OwnedPerKey(p) ==>
          forall j :: 0 <= j < tx.keysSize(p.name) ==> OwnerAsked(tx, CellAt(tx.mappingKeys(p.name), j), asked))
    && (p.owner.Identifier? ==> SenderAsked(tx, SingleOwner(tx, p, addresses), asked))
  }

  lemma OwnerOfEntry(tx: Tx, p: Param, rec: seq<Cell>, iv: nat -> nat, j: nat)
    requires ParamOk(tx, p) && OwnedPerKey(p) && |rec| == RecordLen(tx, p, false) && j < tx.keysSize(p.name)
    ensures CellAt(SealMapping(tx, p, rec, iv), DataAt(p, j) + 2) == CellAt(tx.mappingKeys(p.name), j)
  {
    var body := Slots(SealedEntries(tx, p, rec, iv), tx.keysSize(p.name));
    SealedEntriesLength(tx, p, rec, iv);
    SealedCells(tx, p, rec, iv, j, rec[..2], body, SealMapping(tx, p, rec, iv));
  }

  lemma SealedRecordAsked(tx: Tx, p: Param, rec: seq<Cell>, addresses: map<string, Cell>, iv: nat -> nat,
                          asked: seq<Cell>)
    requires ParamOk(tx, p) && Regular(p) && |rec| == RecordLen(tx, p, false)
    ensures RecordAsked(tx, p, SealRecord(tx, p, rec, addresses, iv), asked) <==> SealedAsked(tx, p, addresses, asked)
  {
    var sealed := SealRecord(tx, p, rec, addresses, iv);
    if OwnedPerKey(p) {
      forall j | 0 <= j < tx.keysSize(p.name)
        ensures CellAt(sealed, DataAt(p, j) + 2) == CellAt(tx.mappingKeys(p.name), j)
      {
        OwnerOfEntry(tx, p, rec, iv, j);
      }
    }
  }

  /** Record k of w is the sealed one of v. */
  ghost predicate SealedIn(tx: Tx, v: seq<Cell>, addresses: map<string, Cell>, ivs: nat -> nat -> nat, w: seq<Cell>,
                           k: nat)
    requires TxOk(tx) && Complete(tx, v, false) && Complete(tx, w, true) && k < |tx.states|
  {
    OffsetMono(tx, true, k + 1, |tx.states|);
    Slice(tx, w, true, k) == SealAt(tx, v, addresses, ivs, k)
  }

  ghost predicate SealsTo(tx: Tx, v: seq<Cell>, addresses: map<string, Cell>, ivs: nat -> nat -> nat, w: seq<Cell>)
    requires TxOk(tx) && Complete(tx, v, false)
  {
    Complete(tx, w, true) && forall k :: 0 <= k < |tx.states| ==> SealedIn(tx, v, addresses, ivs, w, k)
  }

  lemma SliceIs(tx: Tx, w: seq<Cell>, k: nat, rec: seq<Cell>)
    requires k < |tx.states| && BlockAt(w, Offset(tx, true, k), rec) && |rec| == RecordLen(tx, tx.states[k], true)
    ensures Offset(tx, true, k + 1) <= |w| && Slice(tx, w, true, k) == rec
  {
  }

  lemma SealedStatesAre(tx: Tx, v: seq<Cell>, prior: seq<Cell>, ivs: nat -> nat -> nat, w: seq<Cell>)
    requires TxOk(tx) && AllRegular(tx) && Complete(tx, v, false) && SealedStates(tx, v, prior, ivs) == Some(w)
    ensures SealsTo(tx, v, AddressesOf(tx, prior, |tx.states|), ivs, w)
  {
    SealedIsComplete(tx, v, prior, ivs);
    var addresses := AddressesOf(tx, prior, |tx.states|);
    forall k | 0 <= k < |tx.states| ensures SealedIn(tx, v, addresses, ivs, w, k) {
      SealedBlock(tx, v, prior, ivs, k);
      assert Regular(tx.states[k]);
      SliceIs(tx, w, k, SealAt(tx, v, addresses, ivs, k));
    }
  }

  lemma SecondOf(w: seq<Cell>, at: nat, len: nat)
    requires at + len <= |w| && len >= 2
    ensures w[at..at + len][1] == CellAt(w, at + 1)
  {
  }

  /** What is in the clear stays in place. */
  lemma VariableKept(tx: Tx, v: seq<Cell>, addresses: map<string, Cell>, ivs: nat -> nat -> nat, w: seq<Cell>, k: nat)
    requires TxOk(tx) && Complete(tx, v, false) && Complete(tx, w, true)
    requires k < |tx.states| && NamesOwner(tx.states[k]) && SealedIn(tx, v, addresses, ivs, w, k)
    ensures VariableCell(tx, w, true, k) == VariableCell(tx, v, false, k)
  {
    OffsetMono(tx, false, k + 1, |tx.states|);
    OffsetMono(tx, true, k + 1, |tx.states|);
    SecondOf(w, Offset(tx, true, k), RecordLen(tx, tx.states[k], true));
    SecondOf(v, Offset(tx, false, k), RecordLen(tx, tx.states[k], false));
  }

  /** So the variables of the encrypted vector hold the addresses of the plaintext one. */
  lemma {:induction false} AddressesKept(tx: Tx, v: seq<Cell>, w: seq<Cell>, n: nat)
    requires n <= |tx.states|
    requires forall k :: 0 <= k < n && NamesOwner(tx.states[k]) ==>
               VariableCell(tx, w, true, k) == VariableCell(tx, v, false, k)
    ensures OwnAddressesOf(tx, w, n) == AddressesOf(tx, v, n)
  {
    if n > 0 {
      AddressesKept(tx, v, w, n - 1);
      if NamesOwner(tx.states[n - 1]) {
        assert VariableCell(tx, w, true, n - 1) == VariableCell(tx, v, false, n - 1);
      }
    }
  }

  /** What the vector that encryption makes of v will be asked for. */
  ghost function NextRequests(tx: Tx, v: seq<Cell>): (r: Option<seq<Cell>>)
  {
    Requests(tx, AddressesOf(tx, v, |tx.states|), |tx.states|)
  }

  lemma SealedRequests(tx: Tx, v: seq<Cell>, addresses: map<string, Cell>, ivs: nat -> nat -> nat, w: seq<Cell>)
    requires TxOk(tx) && Complete(tx, v, false) && SealsTo(tx, v, addresses, ivs, w)
    ensures OwnAddressesOf(tx, w, |tx.states|) == AddressesOf(tx, v, |tx.states|)
  {
    forall k | 0 <= k < |tx.states| && NamesOwner(tx.states[k])
      ensures VariableCell(tx, w, true, k) == VariableCell(tx, v, false, k)
    {
      VariableKept(tx, v, addresses, ivs, w, k);
    }
    AddressesKept(tx, v, w, |tx.states|);
  }

  /** All keys that decryption will look up in the vector that encryption makes of v are asked for because of it. */
  ghost predicate NextAsked(tx: Tx, v: seq<Cell>, prior: seq<Cell>)
  {
    var r, addresses := NextRequests(tx, v), AddressesOf(tx, prior, |tx.states|);
    r.Some? && forall k :: 0 <= k < |tx.states| ==> SealedAsked(tx, tx.states[k], addresses, r.value)
  }

  lemma SealedAskedAt(tx: Tx, v: seq<Cell>, addresses: map<string, Cell>, ivs: nat -> nat -> nat, w: seq<Cell>, k: nat,
                      asked: seq<Cell>)
    requires TxOk(tx) && AllRegular(tx) && Complete(tx, v, false) && SealsTo(tx, v, addresses, ivs, w)
    requires k < |tx.states|
    ensures AskedAt(tx, w, k, asked) <==> SealedAsked(tx, tx.states[k], addresses, asked)
  {
    assert SealedIn(tx, v, addresses, ivs, w, k) && Regular(tx.states[k]);
    OffsetMono(tx, false, k + 1, |tx.states|);
    SealedRecordAsked(tx, tx.states[k], Slice(tx, v, false, k), addresses, ivs(k), asked);
  }

  /** Of a vector that encryption made, the keys that decryption looks up are asked for exactly when the first key
      cells' are, and those of the owners found in the vector before are among what the new vector asks for. */
  lemma SealedLookups(tx: Tx, v: seq<Cell>, prior: seq<Cell>, ivs: nat -> nat -> nat, w: seq<Cell>)
    requires TxOk(tx) && AllRegular(tx) && Complete(tx, v, false) && SealedStates(tx, v, prior, ivs) == Some(w)
    ensures Complete(tx, w, true) && (DecryptionAsked(tx, w) <==> NextAsked(tx, v, prior))
  {
    var addresses := AddressesOf(tx, prior, |tx.states|);
    SealedStatesAre(tx, v, prior, ivs, w);
    SealedRequests(tx, v, addresses, ivs, w);
    if NextRequests(tx, v).Some? {
      var asked := NextRequests(tx, v).value;
      forall k | 0 <= k < |tx.states|
        ensures AskedAt(tx, w, k, asked) <==> SealedAsked(tx, tx.states[k], addresses, asked)
      {
        SealedAskedAt(tx, v, addresses, ivs, w, k, asked);
      }
    }
  }

  /** An address that is asked for as a part of a key, whatever the variables hold. */
  ghost predicate AskedByKeys(tx: Tx, a: Cell)
  {
    exists k :: 0 <= k < |tx.states| && PartAsked(tx, tx.states[k], a)
  }

  predicate PartAsked(tx: Tx, p: Param, a: Cell)
  {
    && p.owner.PerKey? && p.owner.pos != -1
    && var parts := tx.keyParts(p.name, p.owner.pos); parts.Some? && a in parts.value
  }

  /** Where all variables hold b, what is asked for is b and the parts of keys. */
  lemma {:induction false} AskedOrB(tx: Tx, addresses: map<string, Cell>, n: nat, a: Cell, b: Cell)
    requires n <= |tx.states| && Requests(tx, addresses, n).Some? && a in Requests(tx, addresses, n).value
    requires forall s :: s in addresses ==> addresses[s] == b
    ensures a == b || AskedByKeys(tx, a)
  {
    if n > 0 {
      var p := tx.states[n - 1];
      if a in Requests(tx, addresses, n - 1).value {
        AskedOrB(tx, addresses, n - 1, a, b);
      } else if a != b {
        assert PartAsked(tx, p, a);
      }
    }
  }

  lemma KeysAskedAnyway(tx: Tx, addresses: map<string, Cell>, a: Cell)
    requires Requests(tx, addresses, |tx.states|).Some? && AskedByKeys(tx, a)
    ensures a in Requests(tx, addresses, |tx.states|).value
  {
    var k :| 0 <= k < |tx.states| && PartAsked(tx, tx.states[k], a);
    RequestsContain(tx, addresses, k, |tx.states|, a);
  }

  lemma {:induction false} VariableRead(tx: Tx, prior: seq<Cell>, k: nat, n: nat)
    requires k < n <= |tx.states| && NamesOwner(tx.states[k])
    ensures tx.states[k].name in AddressesOf(tx, prior, n)
  {
    if k < n - 1 {
      VariableRead(tx, prior, k, n - 1);
    }
  }

  lemma VariablesRead(tx: Tx, prior: seq<Cell>, name: string)
    requires IsVariable(tx.states, name)
    ensures name in AddressesOf(tx, prior, |tx.states|)
  {
    var k :| 0 <= k < |tx.states| && NamesOwner(tx.states[k]) && tx.states[k].name == name;
    VariableRead(tx, prior, k, |tx.states|);
  }

  lemma NextSucceeds(tx: Tx, v: seq<Cell>)
    requires RequestsStand(tx)
    ensures NextRequests(tx, v).Some?
  {
    var addresses := AddressesOf(tx, v, |tx.states|);
    forall k | 0 <= k < |tx.states| ensures RequestsOf(tx, tx.states[k], addresses).Some? {
      var p := tx.states[k];
      assert RequestStands(tx, p);
      if p.owner.Identifier? {
        VariablesRead(tx, v, p.owner.state);
      } else if p.owner.PerKey? && p.owner.pos == -1 {
        VariablesRead(tx, v, p.owner.variable);
      }
    }
    RequestsSucceed(tx, addresses, |tx.states|);
  }

  /** The address has no key to look up, or its key is asked for as a part of a key. */
  ghost predicate AlwaysThere(tx: Tx, zero: bool, a: Cell)
  {
    zero || AskedByKeys(tx, a)
  }

  ghost predicate FixedAt(tx: Tx, p: Param, addresses: map<string, Cell>)
  {
    && (OwnedPerKey(p) ==>
          forall j :: 0 <= j < tx.keysSize(p.name) ==> EntryFixed(tx, CellAt(tx.mappingKeys(p.name), j)))
    && (p.owner.Identifier? ==>
          var a := OwnerAddress(tx, SingleOwner(tx, p, addresses)); AlwaysThere(tx, tx.env.num(a) == 0, a))
  }

  ghost predicate EntryFixed(tx: Tx, owner: Cell)
  {
    AlwaysThere(tx, tx.env.num(owner) == 0, OwnerAddress(tx, owner))
  }

  /** Every key that decryption will look up, in what encryption makes after `prior`, belongs to an address that is
      asked for as a part of a key. */
  ghost predicate LookupsFixed(tx: Tx, prior: seq<Cell>)
  {
    forall k :: 0 <= k < |tx.states| ==> FixedAt(tx, tx.states[k], AddressesOf(tx, prior, |tx.states|))
  }

  /** An address that is not asked for as a part of a key: a plaintext vector whose variables ask for another. */
  lemma MissingAddress(tx: Tx, word: nat -> Cell, a: Cell) returns (v: seq<Cell>)
    requires Numerals(tx.env, word) && RequestsStand(tx) && !AskedByKeys(tx, a)
    ensures Complete(tx, v, false) && NextRequests(tx, v).Some? && a !in NextRequests(tx, v).value
  {
    var m: nat, n: nat :| tx.env.checksum(m) != tx.env.checksum(n);
    var b := if a == tx.env.checksum(m) then n else m;
    assert tx.env.num(word(b)) == b;
    v := BlankVector(tx, word, word(b), false);
    NextSucceeds(tx, v);
    AddressesAre(tx, v, |tx.states|, word(b));
    if a in NextRequests(tx, v).value {
      AskedOrB(tx, AddressesOf(tx, v, |tx.states|), |tx.states|, a, tx.env.checksum(b));
    }
  }

  lemma {:induction false} AddressesAre(tx: Tx, v: seq<Cell>, n: nat, c: Cell)
    requires n <= |tx.states|
    requires forall k :: 0 <= k < n && NamesOwner(tx.states[k]) ==> VariableCell(tx, v, false, k) == c
    ensures forall s :: s in AddressesOf(tx, v, n) ==> AddressesOf(tx, v, n)[s] == OwnerAddress(tx, c)
  {
    if n > 0 {
      AddressesAre(tx, v, n - 1, c);
      if NamesOwner(tx.states[n - 1]) {
        assert VariableCell(tx, v, false, n - 1) == c;
      }
    }
  }

  /** What is looked up and not fixed can be missed. */
  lemma NotFixed(tx: Tx, prior: seq<Cell>, word: nat -> Cell, k: nat) returns (v: seq<Cell>)
    requires Numerals(tx.env, word) && RequestsStand(tx) && k < |tx.states|
    requires !FixedAt(tx, tx.states[k], AddressesOf(tx, prior, |tx.states|))
    ensures Complete(tx, v, false) && !NextAsked(tx, v, prior)
  {
    var p, addresses := tx.states[k], AddressesOf(tx, prior, |tx.states|);
    if p.owner.Identifier? {
      v := MissingAddress(tx, word, OwnerAddress(tx, SingleOwner(tx, p, addresses)));
    } else {
      var j :| 0 <= j < tx.keysSize(p.name) && !EntryFixed(tx, CellAt(tx.mappingKeys(p.name), j));
      v := MissingAddress(tx, word, OwnerAddress(tx, CellAt(tx.mappingKeys(p.name), j)));
      assert !OwnerAsked(tx, CellAt(tx.mappingKeys(p.name), j), NextRequests(tx, v).value);
    }
    assert !SealedAsked(tx, p, addresses, NextRequests(tx, v).value);
  }

  lemma FixedIsAsked(tx: Tx, v: seq<Cell>, prior: seq<Cell>)
    requires RequestsStand(tx) && LookupsFixed(tx, prior)
    ensures NextAsked(tx, v, prior)
  {
    var addresses := AddressesOf(tx, prior, |tx.states|);
    NextSucceeds(tx, v);
    var asked := NextRequests(tx, v).value;
    forall k | 0 <= k < |tx.states| ensures SealedAsked(tx, tx.states[k], addresses, asked) {
      var p := tx.states[k];
      assert FixedAt(tx, p, addresses);
      if OwnedPerKey(p) {
        forall j | 0 <= j < tx.keysSize(p.name) ensures OwnerAsked(tx, CellAt(tx.mappingKeys(p.name), j), asked) {
          var owner := CellAt(tx.mappingKeys(p.name), j);
          assert EntryFixed(tx, owner);
          if tx.env.num(owner) != 0 {
            KeysAskedAnyway(tx, AddressesOf(tx, v, |tx.states|), OwnerAddress(tx, owner));
          }
        }
      } else if p.owner.Identifier? {
        var a := OwnerAddress(tx, SingleOwner(tx, p, addresses));
        if tx.env.num(a) != 0 {
          KeysAskedAnyway(tx, AddressesOf(tx, v, |tx.states|), a);
        }
      }
    }
  }

  /** Whatever encryption makes can be decrypted with what is asked for then. */
  ghost predicate AlwaysReadable(tx: Tx, prior: seq<Cell>, ivs: nat -> nat -> nat)
    requires TxOk(tx)
  {
    forall v :: Complete(tx, v, false) ==> ReadableAfter(tx, v, prior, ivs)
  }

  ghost predicate ReadableAfter(tx: Tx, v: seq<Cell>, prior: seq<Cell>, ivs: nat -> nat -> nat)
    requires TxOk(tx) && Complete(tx, v, false)
  {
    var sealed := SealedStates(tx, v, prior, ivs);
    sealed.Some? ==> Complete(tx, sealed.value, true) && DecryptionAsked(tx, sealed.value)
  }

  /** Where encryption succeeds, every vector it can make is readable with the keys asked for because of it exactly when
      no lookup depends on a variable: the owners found before and the first key cells are asked for as parts of
      keys. */
  lemma StaysReadable(tx: Tx, prior: seq<Cell>, ivs: nat -> nat -> nat, word: nat -> Cell)
    requires TxOk(tx) && AllRegular(tx) && Numerals(tx.env, word) && RequestsStand(tx)
    requires SealsReady(tx, AddressesOf(tx, prior, |tx.states|), |tx.states|)
    ensures AlwaysReadable(tx, prior, ivs) <==> LookupsFixed(tx, prior)
  {
    if LookupsFixed(tx, prior) {
      forall v | Complete(tx, v, false) ensures ReadableAfter(tx, v, prior, ivs) {
        FixedIsAsked(tx, v, prior);
        SealedLookups(tx, v, prior, ivs, SealedStates(tx, v, prior, ivs).value);
      }
    } else {
      var k :| 0 <= k < |tx.states| && !FixedAt(tx, tx.states[k], AddressesOf(tx, prior, |tx.states|));
      var v := NotFixed(tx, prior, word, k);
      SealedLookups(tx, v, prior, ivs, SealedStates(tx, v, prior, ivs).value);
      assert !ReadableAfter(tx, v, prior, ivs);
    }
  }

  /** The part of that condition that concerns mapping entries. */
  ghost predicate EntriesFixed(tx: Tx)
  {
    forall k, j :: 0 <= k < |tx.states| && OwnedPerKey(tx.states[k]) && 0 <= j < tx.keysSize(tx.states[k].name) ==>
      EntryFixed(tx, CellAt(tx.mappingKeys(tx.states[k].name), j))
  }

  lemma NamedIsAsked(states: seq<Param>, fn: Function, val: string -> Value, publicKeys: map<Cell, Cell>, env: Env,
                     name: string)
    requires PolicyOk(states, fn) && Asked(states, fn, name)
    ensures AskedByKeys(TxWith(states, fn, val, publicKeys, env), val(name).plain)
  {
    var tx := TxWith(states, fn, val, publicKeys, env);
    var k :| 0 <= k < |states| && AsksFor(fn, states[k], name);
    assert StateOk(states, fn, states[k]);
    AskedPart(states, fn, val, publicKeys, env, states[k], name);
    assert PartAsked(tx, tx.states[k], val(name).plain);
  }

  lemma CoveredIsFixed(states: seq<Param>, fn: Function, val: string -> Value, publicKeys: map<Cell, Cell>, env: Env)
    requires PolicyOk(states, fn) && NamesCovered(states, fn) && PlainLookups(states, fn, env, val)
    ensures EntriesFixed(TxWith(states, fn, val, publicKeys, env))
  {
    var tx := TxWith(states, fn, val, publicKeys, env);
    forall k, j | 0 <= k < |states| && OwnedPerKey(states[k]) && 0 <= j < tx.keysSize(states[k].name)
      ensures EntryFixed(tx, CellAt(tx.mappingKeys(states[k].name), j))
    {
      assert StateOk(states, fn, states[k]);
      LookupNamed(states, fn, val, publicKeys, env, states[k], j);
      var name := LookedUp(fn, states[k])[j];
      NamedIsAsked(states, fn, val, publicKeys, env, name);
      assert PlainAddress(env, val(name));
    }
  }

  /** All parts that are asked for have the plain form b. */
  lemma OnlyPartB(states: seq<Param>, fn: Function, val: string -> Value, publicKeys: map<Cell, Cell>, env: Env,
                  a: Cell, b: Cell)
    requires PolicyOk(states, fn) && forall s :: Asked(states, fn, s) ==> val(s).plain == b
    ensures AskedByKeys(TxWith(states, fn, val, publicKeys, env), a) ==> a == b
  {
    var tx := TxWith(states, fn, val, publicKeys, env);
    if AskedByKeys(tx, a) {
      var k :| 0 <= k < |states| && PartAsked(tx, tx.states[k], a);
      var p := states[k];
      assert StateOk(states, fn, p);
      KeysAreValues(states, fn, val, publicKeys, env, p);
      var names := NamesAt(KeysOf(fn.accesses, p.name), p.owner.pos);
      var i :| 0 <= i < |names| && Forms(val, false, names)[i] == a;
      assert AsksFor(fn, p, names[i]);
    }
  }

  /** A name whose address is not zero and not asked for. */
  lemma EntryMissed(states: seq<Param>, fn: Function, val: string -> Value, publicKeys: map<Cell, Cell>, env: Env,
                    k: nat, name: string)
    requires PolicyOk(states, fn) && k < |states| && OwnedPerKey(states[k]) && name in LookedUp(fn, states[k])
    requires !EntryFixed(TxWith(states, fn, val, publicKeys, env), val(name).encoded)
    ensures !EntriesFixed(TxWith(states, fn, val, publicKeys, env))
  {
    var tx := TxWith(states, fn, val, publicKeys, env);
    assert StateOk(states, fn, states[k]);
    var j :| 0 <= j < |LookedUp(fn, states[k])| && LookedUp(fn, states[k])[j] == name;
    LookupNamed(states, fn, val, publicKeys, env, states[k], j);
    assert !EntryFixed(tx, CellAt(tx.mappingKeys(tx.states[k].name), j));
  }

  lemma MissedName(states: seq<Param>, fn: Function, publicKeys: map<Cell, Cell>, env: Env, word: nat -> Cell, k: nat,
                   name: string)
    returns (val: string -> Value)
    requires Numerals(env, word) && PolicyOk(states, fn) && k < |states| && OwnedPerKey(states[k])
    requires name in LookedUp(fn, states[k]) && (!Asked(states, fn, name) || name != "msg.sender")
    ensures PlainSender(env, val) && !EntriesFixed(TxWith(states, fn, val, publicKeys, env))
  {
    var m: nat, n: nat :| env.checksum(m) != env.checksum(n);
    var a, b := if m == 0 then n else m, if m == 0 then m else n;
    assert env.num(word(a)) == a && env.num(word(b)) == b;
    val := Telling(env, word, name, a, if Asked(states, fn, name) then b else a, b);
    OnlyPartB(states, fn, val, publicKeys, env, env.checksum(a), env.checksum(b));
    EntryMissed(states, fn, val, publicKeys, env, k, name);
  }

  lemma SomeMissed(states: seq<Param>, fn: Function) returns (k: nat, name: string)
    requires !NamesCovered(states, fn) || !OnlySender(states, fn)
    ensures k < |states| && OwnedPerKey(states[k]) && name in LookedUp(fn, states[k])
    ensures !Asked(states, fn, name) || name != "msg.sender"
  {
    if !OnlySender(states, fn) {
      k, name :| 0 <= k < |states| && OwnedPerKey(states[k]) && name in LookedUp(fn, states[k]) &&
        name != "msg.sender";
    } else {
      k, name :| 0 <= k < |states| && OwnedPerKey(states[k]) && name in LookedUp(fn, states[k]) &&
        !Asked(states, fn, name);
    }
  }

  ghost predicate FixedWith(states: seq<Param>, fn: Function, val: string -> Value, publicKeys: map<Cell, Cell>,
                            env: Env)
  {
    PlainSender(env, val) ==> EntriesFixed(TxWith(states, fn, val, publicKeys, env))
  }

  /** Whatever the client sends, the entries of its mappings stay readable exactly when the names taken for owners are
      asked for and none of them is an input: the condition under which encryption never misses a key. */
  lemma EntriesStayReadable(states: seq<Param>, fn: Function, publicKeys: map<Cell, Cell>, env: Env,
                            word: nat -> Cell)
    requires Numerals(env, word) && PolicyOk(states, fn)
    ensures (forall val :: FixedWith(states, fn, val, publicKeys, env)) <==>
            NamesCovered(states, fn) && OnlySender(states, fn)
  {
    if NamesCovered(states, fn) && OnlySender(states, fn) {
      forall val ensures FixedWith(states, fn, val, publicKeys, env) {
        if PlainSender(env, val) {
          CoveredIsFixed(states, fn, val, publicKeys, env);
        }
      }
    } else {
      var k, name := SomeMissed(states, fn);
      var val := MissedName(states, fn, publicKeys, env, word, k, name);
      assert !FixedWith(states, fn, val, publicKeys, env);
    }
  }

  /** A policy whose requests succeed whatever the values are has the variables and parts it needs. */
  lemma PolicyStands(states: seq<Param>, fn: Function, val: string -> Value, publicKeys: map<Cell, Cell>, env: Env)
    requires PolicyOk(states, fn)
    ensures RequestsStand(TxWith(states, fn, val, publicKeys, env))
  {
    var tx := TxWith(states, fn, val, publicKeys, env);
    forall k | 0 <= k < |states| ensures RequestStands(tx, tx.states[k]) {
      assert StateOk(states, fn, states[k]);
      KeysAreValues(states, fn, val, publicKeys, env, states[k]);
    }
  }

  lemma SealedIsAsked(tx: Tx, p: Param, addresses: map<string, Cell>, asked: seq<Cell>)
    requires Regular(p) && SealReady(tx, p, addresses) && OnlyAnswered(tx, asked)
    requires p.owner.Identifier? ==> OwnerAddress(tx, SingleOwner(tx, p, addresses)) == SingleOwner(tx, p, addresses)
    ensures SealedAsked(tx, p, addresses, asked)
  {
    if OwnedPerKey(p) {
      KeysListedIff(tx, p, tx.keysSize(p.name));
      forall j | 0 <= j < tx.keysSize(p.name) ensures OwnerAsked(tx, CellAt(tx.mappingKeys(p.name), j), asked) {
        assert KeyListed(tx, p, j);
      }
    }
  }

  /** After a transaction that found its owners, with the keys it asked for and no others, what it made is readable as
      long as the owner variables keep their addresses. */
  lemma KeptOwnersReadable(tx: Tx, v: seq<Cell>, prior: seq<Cell>, ivs: nat -> nat -> nat)
    requires TxOk(tx) && AllRegular(tx) && EnvOk(tx.env) && Complete(tx, v, false) && FindsOwners(tx, prior)
    requires var asked := Requests(tx, OwnAddressesOf(tx, prior, |tx.states|), |tx.states|);
             asked.Some? && OnlyAnswered(tx, asked.value)
    requires AddressesOf(tx, v, |tx.states|) == OwnAddressesOf(tx, prior, |tx.states|)
    ensures ReadableAfter(tx, v, prior, ivs)
  {
    if SealedStates(tx, v, prior, ivs).Some? {
      var n, addresses := |tx.states|, AddressesOf(tx, prior, |tx.states|);
      SealsReadyIff(tx, addresses, n);
      AddressesAreAddresses(tx, prior, n);
      forall k | 0 <= k < n ensures SealedAsked(tx, tx.states[k], addresses, NextRequests(tx, v).value) {
        assert SealReady(tx, tx.states[k], addresses) && Regular(tx.states[k]);
        SealedIsAsked(tx, tx.states[k], addresses, NextRequests(tx, v).value);
      }
      SealedLookups(tx, v, prior, ivs, SealedStates(tx, v, prior, ivs).value);
    }
  }
}
