/** Concrete policies and vectors on which encryption goes wrong; cells are unary numbers and the cipher hides
    nothing. */
module StateExamples {
  import opened Wrappers
  import opened Bits
  import opened Blocks
  import opened PolicyFunction
  import opened StateRecords
  import opened StateOwners
  import opened StateRequests
  import opened StateLookups

  function Word(n: nat): (c: Cell)
    ensures |c.hex| == n
  {
    Cell(seq(n, _ => '1'))
  }

  function Unary(): (env: Env)
  {
    Env(num := (c: Cell) => |c.hex|,
        checksum := (n: nat) => Word(n),
        seal := (key: Cell, iv: nat, plain: Cell) => (plain, Word(iv)),
        open := (key: Cell, data: Cell, tag: Cell) => data,
        teeKey := Word(1), teeAddress := Word(7), zero := Word(0), zeros := (n: nat) => Word(0))
  }

  lemma UnaryOk()
    ensures EnvOk(Unary())
  {
  }

  /** A mapping by address of which key 7 is accessed, an address variable, and a value of the address in it.
      The public keys are those of the two addresses that are asked for, 7 and 9. */
  function Owned(): (tx: Tx)
  {
    Tx([Param("m", Mapping(1), PerKey(0, "")), Param("owner", Single(true), All),
        Param("balance", Single(false), Identifier("owner"))],
       name => if name == "m" then [Word(7)] else [], name => if name == "m" then 1 else 0,
       (name, pos) => Some(if name == "m" then [Word(7)] else []),
       map[Word(7) := Word(2), Word(9) := Word(3)], Unary())
  }

  /** Encrypted: id, count, key 7, data, tag and owner 7; id and address 9; id, data, tag and owner 9. */
  function OwnedBefore(): (v: seq<Cell>)
  {
    [Word(0), Word(1), Word(7), Word(5), Word(0), Word(7), Word(1), Word(9), Word(2), Word(6), Word(0), Word(9)]
  }

  function OwnedAfter(): (v: seq<Cell>)
  {
    [Word(0), Word(1), Word(7), Word(5), Word(1), Word(9), Word(2), Word(6)]
  }

  lemma OwnedOffsets()
    ensures var tx := Owned();
            && Offset(tx, false, 0) == 0 && Offset(tx, false, 1) == 4 && Offset(tx, false, 2) == 6
            && Offset(tx, false, 3) == 8
            && Offset(tx, true, 0) == 0 && Offset(tx, true, 1) == 6 && Offset(tx, true, 2) == 8
            && Offset(tx, true, 3) == 12
  {
    var tx := Owned();
    assert Times(2, 1) == 2 + Times(2, 0) && Times(4, 1) == 4 + Times(4, 0);
    assert RecordLen(tx, tx.states[0], false) == 4 && RecordLen(tx, tx.states[0], true) == 6;
    assert RecordLen(tx, tx.states[1], false) == 2 && RecordLen(tx, tx.states[1], true) == 2;
    assert RecordLen(tx, tx.states[2], false) == 2 && RecordLen(tx, tx.states[2], true) == 4;
  }

  lemma OwnedComplete()
    ensures TxOk(Owned()) && AllRegular(Owned())
    ensures Complete(Owned(), OwnedBefore(), true) && Complete(Owned(), OwnedAfter(), false)
  {
    var tx := Owned();
    OwnedOffsets();
    assert Times(1, 1) == 1 + Times(1, 0);
    forall k | 0 <= k < |tx.states|
      ensures CompleteAt(tx, OwnedBefore(), true, k) && CompleteAt(tx, OwnedAfter(), false, k)
    {
      assert k == 0 || k == 1 || k == 2;
    }
  }

  lemma OwnedAddresses()
    ensures AddressesOf(Owned(), OwnedBefore(), 3) == map["owner" := Word(7)]
  {
    var tx, prior := Owned(), OwnedBefore();
    OwnedOffsets();
    assert AddressesOf(tx, prior, 0) == map[] && AddressesOf(tx, prior, 1) == map[];
    assert CellAt(prior, 5) == Word(7);
    assert AddressesOf(tx, prior, 2) == map["owner" := Word(7)];
  }

  lemma OwnedReady()
    ensures SealsReady(Owned(), map["owner" := Word(7)], 3)
  {
    var tx, addresses := Owned(), map["owner" := Word(7)];
    assert KeyListed(tx, tx.states[0], 0) && KeysListed(tx, tx.states[0], 0) && KeysListed(tx, tx.states[0], 1);
    assert SealsReady(tx, addresses, 1) && SealsReady(tx, addresses, 2);
    assert SealReady(tx, tx.states[2], addresses);
  }

  /** What is asked for: the key of the mapping and the address in the variable. */
  lemma OwnedRequests()
    ensures Requests(Owned(), OwnAddressesOf(Owned(), OwnedBefore(), 3), 3) == Some([Word(7), Word(9)])
  {
    var tx, prior := Owned(), OwnedBefore();
    OwnedOffsets();
    assert OwnAddressesOf(tx, prior, 0) == map[] && OwnAddressesOf(tx, prior, 1) == map[];
    assert CellAt(prior, 7) == Word(9);
    var addresses := map["owner" := Word(9)];
    assert OwnAddressesOf(tx, prior, 2) == addresses && OwnAddressesOf(tx, prior, 3) == addresses;
    assert Requests(tx, addresses, 0) == Some([]);
    assert [] + [Word(7)] == [Word(7)] && Requests(tx, addresses, 1) == Some([Word(7)]);
    assert [Word(7)] + [] == [Word(7)] && Requests(tx, addresses, 2) == Some([Word(7)]);
    assert [Word(7)] + [Word(9)] == [Word(7), Word(9)];
  }

  /** The variable says 9, encryption reads the mapping's owner cell before it, and the value is sealed for 7. */
  lemma WrongOwnerSealed(ivs: nat -> nat -> nat)
    ensures TxOk(Owned()) && Complete(Owned(), OwnedBefore(), true) && Complete(Owned(), OwnedAfter(), false)
    ensures Requests(Owned(), OwnAddressesOf(Owned(), OwnedBefore(), 3), 3) == Some([Word(7), Word(9)])
    ensures OwnAddress(Owned(), OwnedBefore(), 1) == Word(9) != Word(7)
    ensures var sealed := SealedStates(Owned(), OwnedAfter(), OwnedBefore(), ivs);
            sealed.Some? && OwnerCellIs(Owned(), sealed.value, 2, Word(7))
  {
    OwnedComplete();
    OwnedAddresses();
    OwnedReady();
    OwnedRequests();
    assert OwnAddress(Owned(), OwnedBefore(), 1) == Word(9) by {
      OwnedOffsets();
    }
    assert |Word(9).hex| != |Word(7).hex|;
    SealedOwnerCell(Owned(), OwnedAfter(), OwnedBefore(), ivs, 2, "owner");
  }

  /** A mapping of depth two with one entry, at keys 4 and 8. */
  function Deep(): (tx: Tx)
  {
    Tx([Param("allowance", Mapping(2), PerKey(0, ""))], _ => [Word(4), Word(8)], _ => 1, (_, _) => Some([Word(4)]),
       map[Word(4) := Word(2)], Unary())
  }

  function DeepRecord(): (rec: seq<Cell>)
  {
    [Word(0), Word(1), Word(4), Word(8), Word(5)]
  }

  lemma DeepFits()
    ensures var tx, rec := Deep(), DeepRecord(); var p := tx.states[0];
            ParamOk(tx, p) && OwnedPerKey(p) && |rec| == RecordLen(tx, p, false) && SealReady(tx, p, map[])
  {
    var tx := Deep();
    var p := tx.states[0];
    assert Times(2, 1) == 2 + Times(2, 0) && Times(3, 1) == 3 + Times(3, 0);
    assert KeysListed(tx, p, 0) && KeyListed(tx, p, 0);
  }

  lemma DeepEntryBack()
    ensures var tx, rec := Deep(), DeepRecord();
            Slots(EntriesBack(tx, tx.states[0], rec), 1) == [Word(4), Word(8), Word(8)]
  {
    var tx, rec := Deep(), DeepRecord();
    var p := tx.states[0];
    assert Times(2, 1) == 2 + Times(2, 0);
    assert KeyBlock(tx, p, 0) == [Word(4), Word(8)];
    assert EntriesBack(tx, p, rec)(0) == [Word(4), Word(8), Word(8)];
    assert Slots(EntriesBack(tx, p, rec), 1) == Slots(EntriesBack(tx, p, rec), 0) + EntriesBack(tx, p, rec)(0);
  }

  /** Its record with value 5 comes back with value 8, the second key. */
  lemma DeepValueLost(iv: nat -> nat)
    ensures var tx, rec := Deep(), DeepRecord(); var p := tx.states[0];
            && ParamOk(tx, p) && |rec| == RecordLen(tx, p, false) && SealReady(tx, p, map[])
            && var sealed := SealRecord(tx, p, rec, map[], iv);
               |sealed| == RecordLen(tx, p, true) && OpenRecord(tx, p, sealed) == rec[4 := Word(8)] != rec
  {
    var tx, rec := Deep(), DeepRecord();
    UnaryOk();
    DeepFits();
    DeepEntryBack();
    MappingReadBack(tx, tx.states[0], rec, map[], iv);
    assert rec[..2] + [Word(4), Word(8), Word(8)] == rec[4 := Word(8)];
    assert |Word(8).hex| != |Word(5).hex|;
  }

  /** A mapping owned by the tee, of which key 4 is accessed. */
  function TeeMapping(): (tx: Tx)
  {
    Tx([Param("m", Mapping(1), Tee)], _ => [Word(4)], _ => 1, (_, _) => Some([Word(4)]), map[], Unary())
  }

  /** Encrypted: id, count, key, data, tag and owner. In the clear: id, count, key and value. */
  function TeeBefore(): (v: seq<Cell>)
  {
    [Word(0), Word(1), Word(4), Word(5), Word(0), Word(7)]
  }

  function TeeAfter(): (v: seq<Cell>)
  {
    [Word(0), Word(1), Word(4), Word(5)]
  }

  lemma TeeFits()
    ensures var tx := TeeMapping();
            TxOk(tx) && Complete(tx, TeeBefore(), true) && Complete(tx, TeeAfter(), false)
  {
    var tx := TeeMapping();
    assert Times(1, 1) == 1 + Times(1, 0) && Times(2, 1) == 2 + Times(2, 0) && Times(4, 1) == 4 + Times(4, 0);
    assert Offset(tx, true, 0) == 0 && Offset(tx, true, 1) == 6 && Offset(tx, false, 0) == 0 &&
      Offset(tx, false, 1) == 4;
    assert CompleteAt(tx, TeeBefore(), true, 0) && CompleteAt(tx, TeeAfter(), false, 0);
  }

  lemma OneSlot(f: nat -> seq<Cell>)
    ensures Slots(f, 1) == f(0)
  {
    assert Slots(f, 1) == Slots(f, 0) + f(0) == [] + f(0);
  }

  /** Decryption makes two cells of it, the id and the count deciphered. */
  lemma TeeMappingOpened()
    ensures TxOk(TeeMapping()) && Complete(TeeMapping(), TeeBefore(), true)
    ensures OpenedStates(TeeMapping(), TeeBefore()) == Some([Word(0), Word(1)])
  {
    var tx, v := TeeMapping(), TeeBefore();
    TeeFits();
    assert AllReady(tx, v, 0) && ReadyAt(tx, v, 0) && AllReady(tx, v, 1);
    OneSlot(OpenedRecords(tx, v));
    OpenedAt(tx, v, 0);
    assert Times(4, 1) == 4 + Times(4, 0);
    assert Slice(tx, v, true, 0) == v;
    assert OpenAt(tx, v, 0) == [Word(0), Word(1)];
  }

  /** Encryption makes four cells of it, with the count sealed and the value lost. */
  lemma TeeMappingSealed(ivs: nat -> nat -> nat)
    ensures TxOk(TeeMapping()) && Complete(TeeMapping(), TeeAfter(), false)
    ensures SealedStates(TeeMapping(), TeeAfter(), TeeBefore(), ivs) ==
            Some([Word(0), Word(1), Word(ivs(0)(0)), Word(7)])
  {
    var tx, v := TeeMapping(), TeeAfter();
    TeeFits();
    var addresses := AddressesOf(tx, TeeBefore(), 1);
    assert SealsReady(tx, addresses, 0) && SealReady(tx, tx.states[0], addresses) && SealsReady(tx, addresses, 1);
    OneSlot(SealedRecords(tx, v, addresses, ivs));
    SealedAt(tx, v, addresses, ivs, 0);
    assert Times(2, 1) == 2 + Times(2, 0);
    assert Slice(tx, v, false, 0) == v;
    var rec := [Word(0), Word(1), Word(ivs(0)(0)), Word(7)];
    assert SealAt(tx, v, addresses, ivs, 0) == [Word(0)] + [Word(1), Word(ivs(0)(0)), Word(7)] == rec;
    assert SealedStates(tx, v, TeeBefore(), ivs) == Some(rec);
  }

  /** A mapping of depth two whose owner is the second key, with one entry at keys 4 and 8, and the answer to what is
      asked for. */
  function Spender(): (tx: Tx)
  {
    Tx([Param("allowance", Mapping(2), PerKey(1, ""))], _ => [Word(4), Word(8)], _ => 1,
       (_, pos) => if pos == 1 then Some([Word(8)]) else Some([Word(4)]), map[Word(8) := Word(2)], Unary())
  }

  lemma SpenderFits()
    ensures TxOk(Spender()) && Complete(Spender(), DeepRecord(), false)
  {
    var tx := Spender();
    assert Times(2, 1) == 2 + Times(2, 0) && Times(3, 1) == 3 + Times(3, 0);
    assert Offset(tx, false, 0) == 0 && Offset(tx, false, 1) == 5;
    assert CompleteAt(tx, DeepRecord(), false, 0);
  }

  /** A mapping is all there is: what is asked for are its parts. */
  lemma OneRequest(tx: Tx, addresses: map<string, Cell>, parts: seq<Cell>)
    requires |tx.states| == 1 && tx.states[0].owner.PerKey? && tx.states[0].owner.pos != -1
    requires tx.keyParts(tx.states[0].name, tx.states[0].owner.pos) == Some(parts)
    ensures Requests(tx, addresses, 1) == Some(parts)
  {
    assert Requests(tx, addresses, 0) == Some([]) && [] + parts == parts;
  }

  lemma UnlistedFails(tx: Tx, v: seq<Cell>, prior: seq<Cell>, ivs: nat -> nat -> nat)
    requires TxOk(tx) && Complete(tx, v, false) && |tx.states| == 1 && OwnedPerKey(tx.states[0])
    requires tx.keysSize(tx.states[0].name) == 1 && !KeyListed(tx, tx.states[0], 0)
    ensures SealedStates(tx, v, prior, ivs).None?
  {
    assert !KeysListed(tx, tx.states[0], 1);
  }

  /** Only the key of 8 is asked for, the key of 4 is looked up, and encryption fails. */
  lemma SpenderFails(prior: seq<Cell>, ivs: nat -> nat -> nat)
    ensures TxOk(Spender()) && Complete(Spender(), DeepRecord(), false)
    ensures Requests(Spender(), OwnAddressesOf(Spender(), prior, 1), 1) == Some([Word(8)])
    ensures SealedStates(Spender(), DeepRecord(), prior, ivs).None?
  {
    var tx := Spender();
    SpenderFits();
    OneRequest(tx, OwnAddressesOf(tx, prior, 1), [Word(8)]);
    assert |Word(4).hex| != |Word(8).hex|;
    assert !KeyListed(tx, tx.states[0], 0);
    UnlistedFails(tx, DeepRecord(), prior, ivs);
  }

  /** The text a client sent for address 4, not in checksum form. */
  const RAW := Cell("a")

  /** A function that accesses a mapping by its input. */
  function RawAccess(): (fn: Function)
  {
    Function([Access("m", [["to"]])], [Input("to", Value(Word(4), RAW))])
  }

  /** A mapping of depth one owned by its key, called by 9, and the answer to what is asked for. */
  function RawInput(): (tx: Tx)
  {
    TxOf([Param("m", Mapping(1), PerKey(0, ""))], RawAccess(), Value(Word(9), Word(9)), map[RAW := Word(2)], Unary())
  }

  lemma RawKeys()
    ensures KeysOf(RawAccess().accesses, "m") == [["to"]]
  {
    var accesses := RawAccess().accesses;
    assert accesses[..0] == [] && KeysOf([], "m") == [];
    assert [] + [["to"]] == [["to"]];
  }

  lemma RawCells(encoded: bool)
    ensures AllKeyCells(RawAccess(), Value(Word(9), Word(9)), encoded, [["to"]]) == [if encoded then Word(4) else RAW]
  {
    var fn, sender := RawAccess(), Value(Word(9), Word(9));
    var cell := if encoded then Word(4) else RAW;
    assert fn.inputs[..0] == [] && Matching([], "to", encoded) == [] && [] + [cell] == [cell];
    assert PartCells(fn, sender, encoded, "to") == [cell];
    var key := ["to"];
    assert key[..0] == [] && KeyCells(fn, sender, encoded, []) == [];
    assert KeyCells(fn, sender, encoded, key) == [cell];
    var keys := [key];
    assert keys[..0] == [] && AllKeyCells(fn, sender, encoded, []) == [];
  }

  lemma RawFits()
    ensures TxOk(RawInput()) && Complete(RawInput(), TeeAfter(), false)
    ensures RawInput().mappingKeys("m") == [Word(4)] && RawInput().keysSize("m") == 1
    ensures RawInput().keyParts("m", 0) == Some([RAW])
  {
    var tx := RawInput();
    RawKeys();
    RawCells(true);
    RawCells(false);
    var keys := [["to"]];
    assert AllPickable(keys, 0) && PickAll(keys, 0) == keys;
    assert Times(1, 1) == 1 + Times(1, 0) && Times(2, 1) == 2 + Times(2, 0);
    assert Offset(tx, false, 0) == 0 && Offset(tx, false, 1) == 4;
    assert CompleteAt(tx, TeeAfter(), false, 0);
  }

  /** The key of 4 is asked for as the client wrote it and looked up in checksum form, and encryption fails. */
  lemma RawInputFails(tx: Tx, prior: seq<Cell>, ivs: nat -> nat -> nat)
    requires tx == RawInput()
    ensures TxOk(tx) && Complete(tx, TeeAfter(), false)
    ensures Requests(tx, OwnAddressesOf(tx, prior, 1), 1) == Some([RAW])
    ensures SealedStates(tx, TeeAfter(), prior, ivs).None?
  {
    RawFits();
    OneRequest(tx, OwnAddressesOf(tx, prior, 1), [RAW]);
    assert |Word(4).hex| != |RAW.hex|;
    assert !KeyListed(tx, tx.states[0], 0);
    UnlistedFails(tx, TeeAfter(), prior, ivs);
  }

  /** An owner variable and a value of the address in it, with the public key of 9. */
  function Handover(): (tx: Tx)
  {
    Tx([Param("owner", Single(true), All), Param("note", Single(false), Identifier("owner"))],
       _ => [], _ => 0, (_, _) => Some([]), map[Word(9) := Word(3)], Unary())
  }

  /** Encrypted: id and address 9; id, data, tag and owner 9. In the clear: id and address 8; id and value. */
  function HandoverBefore(): (v: seq<Cell>)
  {
    [Word(0), Word(9), Word(1), Word(6), Word(0), Word(9)]
  }

  function HandoverAfter(): (v: seq<Cell>)
  {
    [Word(0), Word(8), Word(1), Word(6)]
  }

  lemma HandoverFits()
    ensures var tx := Handover();
            && TxOk(tx) && AllRegular(tx)
            && Complete(tx, HandoverBefore(), true) && Complete(tx, HandoverAfter(), false)
            && Offset(tx, true, 1) == 2 && Offset(tx, false, 1) == 2
  {
    var tx := Handover();
    assert Offset(tx, true, 0) == 0 && Offset(tx, true, 1) == 2 && Offset(tx, true, 2) == 6;
    assert Offset(tx, false, 0) == 0 && Offset(tx, false, 1) == 2 && Offset(tx, false, 2) == 4;
    forall k | 0 <= k < 2
      ensures CompleteAt(tx, HandoverBefore(), true, k) && CompleteAt(tx, HandoverAfter(), false, k)
    {
      assert k == 0 || k == 1;
    }
  }

  lemma {:induction false} HandoverAddresses(v: seq<Cell>, a: nat)
    requires |v| >= 2 && v[1] == Word(a)
    ensures AddressesOf(Handover(), v, 2) == map["owner" := Word(a)]
    ensures OwnAddressesOf(Handover(), v, 2) == map["owner" := Word(a)]
  {
    var tx := Handover();
    assert Offset(tx, true, 0) == 0 && Offset(tx, false, 0) == 0;
    assert AddressesOf(tx, v, 0) == map[] && OwnAddressesOf(tx, v, 0) == map[];
    assert CellAt(v, 1) == Word(a);
    assert AddressesOf(tx, v, 1) == map["owner" := Word(a)] && OwnAddressesOf(tx, v, 1) == map["owner" := Word(a)];
  }

  lemma HandoverRequests(a: nat)
    ensures Requests(Handover(), map["owner" := Word(a)], 2) == Some([Word(a)])
  {
    var tx, addresses := Handover(), map["owner" := Word(a)];
    var none: seq<Cell> := [];
    assert none + none == none && none + [Word(a)] == [Word(a)];
    assert Requests(tx, addresses, 0) == Some(none) && Requests(tx, addresses, 1) == Some(none);
  }

  lemma HandoverReady()
    ensures SealsReady(Handover(), map["owner" := Word(9)], 2)
  {
    var tx, addresses := Handover(), map["owner" := Word(9)];
    assert SealsReady(tx, addresses, 0) && SealsReady(tx, addresses, 1) && SealReady(tx, tx.states[1], addresses);
  }

  lemma HandoverMissed()
    ensures var tx := Handover(); !SealedAsked(tx, tx.states[1], map["owner" := Word(9)], [Word(8)])
  {
    assert |Word(9).hex| != |Word(8).hex|;
    assert !SenderAsked(Handover(), Word(9), [Word(8)]);
  }

  /** A transaction that hands the variable from 9 to 8 asked for the key of 9 and succeeds, but seals the value for 9;
      the vector it makes asks for the key of 8 only, and 9 is looked up. */
  lemma HandoverUnreadable(ivs: nat -> nat -> nat)
    ensures TxOk(Handover()) && AllRegular(Handover())
    ensures Complete(Handover(), HandoverBefore(), true) && Complete(Handover(), HandoverAfter(), false)
    ensures Requests(Handover(), OwnAddressesOf(Handover(), HandoverBefore(), 2), 2) == Some([Word(9)])
    ensures var sealed := SealedStates(Handover(), HandoverAfter(), HandoverBefore(), ivs);
            && sealed.Some? && Complete(Handover(), sealed.value, true)
            && NextRequests(Handover(), HandoverAfter()) == Some([Word(8)])
            && !DecryptionAsked(Handover(), sealed.value)
  {
    var tx, v, prior := Handover(), HandoverAfter(), HandoverBefore();
    HandoverFits();
    HandoverAddresses(prior, 9);
    HandoverAddresses(v, 8);
    HandoverRequests(9);
    HandoverRequests(8);
    var addresses := map["owner" := Word(9)];
    HandoverReady();
    SealedLookups(tx, v, prior, ivs, SealedStates(tx, v, prior, ivs).value);
    HandoverMissed();
    assert !SealedAsked(tx, tx.states[1], addresses, [Word(8)]);
  }
}
