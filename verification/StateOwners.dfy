/** Which address encryption finds for an owner variable in the vector it was given before. */
module StateOwners {
  import opened Bits
  import opened Blocks
  import opened PolicyFunction
  import opened StateRecords

  /** Encrypting makes the record longer. */
  predicate Grows(tx: Tx, p: Param)
  {
    !p.owner.All? && (p.shape.Mapping? ==> tx.keysSize(p.name) > 0)
  }

  /** Nothing before state k grows. */
  predicate NothingGrowsBefore(tx: Tx, k: nat)
    requires k <= |tx.states|
  {
    forall j :: 0 <= j < k ==> !Grows(tx, tx.states[j])
  }

  /** The plaintext offset of a state is its encrypted one exactly while nothing before it grows. */
  lemma {:induction false} OffsetsAgree(tx: Tx, k: nat)
    requires k <= |tx.states|
    ensures Offset(tx, false, k) <= Offset(tx, true, k)
    ensures Offset(tx, false, k) == Offset(tx, true, k) <==> NothingGrowsBefore(tx, k)
  {
    if k > 0 {
      OffsetsAgree(tx, k - 1);
      var p := tx.states[k - 1];
      if p.shape.Mapping? {
        TimesIsMul(3 + p.shape.depth, tx.keysSize(p.name));
        TimesIsMul(1 + p.shape.depth, tx.keysSize(p.name));
        SealingCost(p.shape.depth, tx.keysSize(p.name));
      }
    }
  }

  lemma SealingCost(depth: nat, n: nat)
    ensures (3 + depth) * n >= (1 + depth) * n && ((3 + depth) * n == (1 + depth) * n <==> n == 0)
  {
    assert (3 + depth) * n - (1 + depth) * n == 2 * n;
  }

  /** The address in the variable's own record of an encrypted vector. */
  function OwnAddress(tx: Tx, prior: seq<Cell>, k: nat): (r: Cell)
    requires k < |tx.states|
  {
    OwnerAddress(tx, CellAt(prior, Offset(tx, true, k) + 1))
  }

  /** The address that encryption reads for it. */
  function ReadAddress(tx: Tx, prior: seq<Cell>, k: nat): (r: Cell)
    requires k < |tx.states|
  {
    OwnerAddress(tx, CellAt(prior, Offset(tx, false, k) + 1))
  }

  /** Every number has a cell, and there are two addresses. */
  ghost predicate Numerals(env: Env, word: nat -> Cell)
  {
    (forall n: nat :: env.num(word(n)) == n) && exists a: nat, b: nat :: env.checksum(a) != env.checksum(b)
  }

  /** A record of state k with its id and count, and otherwise c in every cell. */
  function BlankRecord(tx: Tx, word: nat -> Cell, c: Cell, encrypted: bool, k: nat): (r: seq<Cell>)
    requires k < |tx.states|
  {
    var p := tx.states[k];
    [word(k), if p.shape.Mapping? then word(tx.keysSize(p.name)) else c] + seq(RecordLen(tx, p, encrypted) - 2, _ => c)
  }

  lemma BlankFits(tx: Tx, word: nat -> Cell, c: Cell, encrypted: bool, k: nat)
    requires Numerals(tx.env, word) && k < |tx.states|
    ensures Fits(tx, encrypted, BlankRecord(tx, word, c, encrypted, k), k)
    ensures NamesOwner(tx.states[k]) ==> BlankRecord(tx, word, c, encrypted, k)[1] == c
  {
  }

  lemma BlankRecords(tx: Tx, word: nat -> Cell, c: Cell, encrypted: bool) returns (f: nat -> seq<Cell>)
    requires Numerals(tx.env, word)
    ensures forall k {:trigger f(k)} :: 0 <= k < |tx.states| ==>
              Fits(tx, encrypted, f(k), k) && (NamesOwner(tx.states[k]) ==> f(k)[1] == c)
  {
    f := (k: nat) => if k < |tx.states| then BlankRecord(tx, word, c, encrypted, k) else [];
    forall k | 0 <= k < |tx.states|
      ensures Fits(tx, encrypted, f(k), k) && (NamesOwner(tx.states[k]) ==> f(k)[1] == c)
    {
      BlankFits(tx, word, c, encrypted, k);
      assert f(k) == BlankRecord(tx, word, c, encrypted, k);
    }
  }

  lemma SecondCell(s: seq<Cell>, at: nat, rec: seq<Cell>)
    requires BlockAt(s, at, rec) && |rec| >= 2
    ensures CellAt(s, at + 1) == rec[1]
  {
  }

  /** The value of a variable's record. */
  function VariableCell(tx: Tx, v: seq<Cell>, encrypted: bool, k: nat): (r: Cell)
    requires k < |tx.states|
  {
    CellAt(v, Offset(tx, encrypted, k) + 1)
  }

  /** There is a complete vector with c in all owner variables. */
  lemma BlankVector(tx: Tx, word: nat -> Cell, c: Cell, encrypted: bool) returns (v: seq<Cell>)
    requires Numerals(tx.env, word)
    ensures Complete(tx, v, encrypted)
    ensures forall k :: 0 <= k < |tx.states| && NamesOwner(tx.states[k]) ==> VariableCell(tx, v, encrypted, k) == c
  {
    var f := BlankRecords(tx, word, c, encrypted);
    v := PlacedRecords(tx, encrypted, f);
    forall k | 0 <= k < |tx.states| && NamesOwner(tx.states[k]) ensures VariableCell(tx, v, encrypted, k) == c {
      assert Fits(tx, encrypted, f(k), k);
      SecondCell(v, Offset(tx, encrypted, k), f(k));
    }
  }

  lemma PlacedRecords(tx: Tx, encrypted: bool, f: nat -> seq<Cell>) returns (v: seq<Cell>)
    requires forall k {:trigger f(k)} :: 0 <= k < |tx.states| ==> Fits(tx, encrypted, f(k), k)
    ensures Complete(tx, v, encrypted)
    ensures forall k {:trigger f(k)} :: 0 <= k < |tx.states| ==> BlockAt(v, Offset(tx, encrypted, k), f(k))
  {
    RecordsComplete(tx, encrypted, f);
    v := Slots(f, |tx.states|);
  }

  /** The value of an owner variable can be anything. */
  lemma ValueIsFree(tx: Tx, v: seq<Cell>, k: nat, c: Cell)
    requires Complete(tx, v, true) && k < |tx.states| && NamesOwner(tx.states[k])
    ensures Offset(tx, true, k) + 1 < |v| && Complete(tx, v[Offset(tx, true, k) + 1 := c], true)
  {
    assert CompleteAt(tx, v, true, k);
    var w := v[Offset(tx, true, k) + 1 := c];
    forall j | 0 <= j < |tx.states| ensures CompleteAt(tx, w, true, j) {
      assert CompleteAt(tx, v, true, j);
      if j < k {
        OffsetMono(tx, true, j + 1, k);
      } else if j > k {
        OffsetMono(tx, true, k + 1, j);
      }
    }
  }

  /** Where something before the variable grows, some vector makes encryption read another address. */
  lemma ReadsAnother(tx: Tx, word: nat -> Cell, k: nat) returns (prior: seq<Cell>)
    requires Numerals(tx.env, word) && k < |tx.states| && NamesOwner(tx.states[k]) && !NothingGrowsBefore(tx, k)
    ensures Complete(tx, prior, true) && ReadAddress(tx, prior, k) != OwnAddress(tx, prior, k)
  {
    var v := BlankVector(tx, word, word(0), true);
    var at, own := Offset(tx, false, k) + 1, Offset(tx, true, k) + 1;
    OffsetsAgree(tx, k);
    var a: nat, b: nat :| tx.env.checksum(a) != tx.env.checksum(b);
    var c := if OwnerAddress(tx, CellAt(v, at)) == tx.env.checksum(a) then word(b) else word(a);
    assert tx.env.num(word(a)) == a && tx.env.num(word(b)) == b;
    ValueIsFree(tx, v, k, c);
    prior := v[own := c];
    assert CellAt(prior, at) == CellAt(v, at) && CellAt(prior, own) == c;
  }

  ghost predicate ReadsOwn(tx: Tx, prior: seq<Cell>, k: nat)
    requires k < |tx.states|
  {
    ReadAddress(tx, prior, k) == OwnAddress(tx, prior, k)
  }

  /** Encryption reads an owner variable's own address from every complete encrypted vector exactly when nothing before
      the variable grows by encryption. */
  lemma OwnerIsRead(tx: Tx, word: nat -> Cell, k: nat)
    requires Numerals(tx.env, word) && k < |tx.states| && NamesOwner(tx.states[k])
    ensures (forall prior :: Complete(tx, prior, true) ==> ReadsOwn(tx, prior, k)) <==> NothingGrowsBefore(tx, k)
  {
    OffsetsAgree(tx, k);
    if !NothingGrowsBefore(tx, k) {
      var prior := ReadsAnother(tx, word, k);
      assert !ReadsOwn(tx, prior, k);
    }
  }

  /** The addresses as they stand in the variables' own records. */
  ghost function OwnAddressesOf(tx: Tx, prior: seq<Cell>, k: nat): (m: map<string, Cell>)
    requires k <= |tx.states|
  {
    if k == 0 then map[]
    else var p, m := tx.states[k - 1], OwnAddressesOf(tx, prior, k - 1);
      if NamesOwner(p) then m[p.name := OwnAddress(tx, prior, k - 1)] else m
  }

  lemma {:induction false} AddressesAgree(tx: Tx, prior: seq<Cell>, n: nat)
    requires n <= |tx.states|
    requires forall k :: 0 <= k < n && NamesOwner(tx.states[k]) ==> NothingGrowsBefore(tx, k)
    ensures AddressesOf(tx, prior, n) == OwnAddressesOf(tx, prior, n)
  {
    if n > 0 {
      AddressesAgree(tx, prior, n - 1);
      OffsetsAgree(tx, n - 1);
    }
  }

  /** The last owner variable is not overwritten. */
  lemma {:induction false} LastStands(tx: Tx, prior: seq<Cell>, k: nat, n: nat)
    requires k < n <= |tx.states| && NamesOwner(tx.states[k]) && forall j :: k < j < n ==> !NamesOwner(tx.states[j])
    ensures tx.states[k].name in AddressesOf(tx, prior, n) && tx.states[k].name in OwnAddressesOf(tx, prior, n)
    ensures AddressesOf(tx, prior, n)[tx.states[k].name] == ReadAddress(tx, prior, k)
    ensures OwnAddressesOf(tx, prior, n)[tx.states[k].name] == OwnAddress(tx, prior, k)
  {
    if k < n - 1 {
      LastStands(tx, prior, k, n - 1);
    }
  }

  lemma {:induction false} LastOwner(tx: Tx, k: nat, n: nat) returns (last: nat)
    requires k < n <= |tx.states| && NamesOwner(tx.states[k])
    ensures k <= last < n && NamesOwner(tx.states[last]) && forall j :: last < j < n ==> !NamesOwner(tx.states[j])
  {
    if NamesOwner(tx.states[n - 1]) {
      last := n - 1;
    } else {
      last := LastOwner(tx, k, n - 1);
    }
  }

  ghost predicate FindsOwners(tx: Tx, prior: seq<Cell>)
  {
    AddressesOf(tx, prior, |tx.states|) == OwnAddressesOf(tx, prior, |tx.states|)
  }

  /** Encryption finds all owners right, for every complete encrypted vector, exactly when nothing that grows by
      encryption comes before an owner variable. */
  lemma OwnersAreFound(tx: Tx, word: nat -> Cell)
    requires Numerals(tx.env, word)
    ensures (forall prior :: Complete(tx, prior, true) ==> FindsOwners(tx, prior)) <==>
            (forall k :: 0 <= k < |tx.states| && NamesOwner(tx.states[k]) ==> NothingGrowsBefore(tx, k))
  {
    var n := |tx.states|;
    if forall k :: 0 <= k < n && NamesOwner(tx.states[k]) ==> NothingGrowsBefore(tx, k) {
      forall prior | Complete(tx, prior, true) ensures FindsOwners(tx, prior) {
        AddressesAgree(tx, prior, n);
      }
    } else {
      var k :| 0 <= k < n && NamesOwner(tx.states[k]) && !NothingGrowsBefore(tx, k);
      var last := LastOwner(tx, k, n);
      assert !NothingGrowsBefore(tx, last);
      var prior := ReadsAnother(tx, word, last);
      LastStands(tx, prior, last, n);
      assert !FindsOwners(tx, prior);
    }
  }

  lemma IdentifierRecord(tx: Tx, v: seq<Cell>, addresses: map<string, Cell>, ivs: nat -> nat -> nat, k: nat, s: string)
    requires TxOk(tx) && Complete(tx, v, false) && k < |tx.states| && tx.states[k].owner == Identifier(s) &&
             s in addresses
    ensures var rec := SealAt(tx, v, addresses, ivs, k); |rec| == 4 && rec[3] == addresses[s]
  {
  }

  lemma OwnerCellOf(tx: Tx, v: seq<Cell>, addresses: map<string, Cell>, ivs: nat -> nat -> nat, k: nat, s: string,
                    sealed: seq<Cell>)
    requires TxOk(tx) && Complete(tx, v, false) && k < |tx.states| && tx.states[k].owner == Identifier(s) &&
             s in addresses
    requires BlockAt(sealed, Offset(tx, true, k), SealAt(tx, v, addresses, ivs, k))
    ensures OwnerCellIs(tx, sealed, k, addresses[s])
  {
    IdentifierRecord(tx, v, addresses, ivs, k, s);
    var at, rec := Offset(tx, true, k), SealAt(tx, v, addresses, ivs, k);
    assert sealed[at + 3] == rec[3];
  }

  /** The owner cell of the singly owned record k. */
  ghost predicate OwnerCellIs(tx: Tx, sealed: seq<Cell>, k: nat, owner: Cell)
    requires k < |tx.states|
  {
    Offset(tx, true, k) + 3 < |sealed| && sealed[Offset(tx, true, k) + 3] == owner
  }

  /** What a successful encryption consists of. */
  lemma SealedBlock(tx: Tx, v: seq<Cell>, prior: seq<Cell>, ivs: nat -> nat -> nat, k: nat)
    requires TxOk(tx) && AllRegular(tx) && Complete(tx, v, false) && SealedStates(tx, v, prior, ivs).Some? &&
             k < |tx.states|
    ensures var addresses := AddressesOf(tx, prior, |tx.states|);
            && SealReady(tx, tx.states[k], addresses)
            && BlockAt(SealedStates(tx, v, prior, ivs).value, Offset(tx, true, k), SealAt(tx, v, addresses, ivs, k))
  {
    var addresses := AddressesOf(tx, prior, |tx.states|);
    SealsReadyIff(tx, addresses, |tx.states|);
    SealedRecordsComplete(tx, v, addresses, ivs);
  }

  /** The owner cell that encryption writes is the address it found. */
  lemma SealedOwnerCell(tx: Tx, v: seq<Cell>, prior: seq<Cell>, ivs: nat -> nat -> nat, k: nat, s: string)
    requires TxOk(tx) && AllRegular(tx) && Complete(tx, v, false) && SealedStates(tx, v, prior, ivs).Some?
    requires k < |tx.states| && tx.states[k].owner == Identifier(s)
    ensures s in AddressesOf(tx, prior, |tx.states|)
    ensures OwnerCellIs(tx, SealedStates(tx, v, prior, ivs).value, k, AddressesOf(tx, prior, |tx.states|)[s])
  {
    var addresses := AddressesOf(tx, prior, |tx.states|);
    SealedBlock(tx, v, prior, ivs, k);
    OwnerCellOf(tx, v, addresses, ivs, k, s, SealedStates(tx, v, prior, ivs).value);
  }
}
