/** The cells of the vectors that encryption and decryption return, one by one: what is where, and under whose key. */
module StateCells {
  import opened Wrappers
  import opened Bits
  import opened Blocks
  import opened PolicyFunction
  import opened StateRecords
  import opened StateLookups

  /** n cells of w from i on are those of u from k on. */
  predicate Copied(w: seq<Cell>, i: nat, u: seq<Cell>, k: nat, n: nat)
  {
    forall m :: 0 <= m < n ==> CopiedAt(w, i, u, k, m)
  }

  predicate CopiedAt(w: seq<Cell>, i: nat, u: seq<Cell>, k: nat, m: nat)
  {
    CellAt(w, i + m) == CellAt(u, k + m)
  }

  // ---------------------------------------------------------------------------------------------------- encryption

  /** Two cells hold a value sealed under this key, the third its owner. */
  predicate SealedUnder(tx: Tx, key: Cell, iv: nat, plain: Cell, owner: Cell, w: seq<Cell>, at: nat)
  {
    (CellAt(w, at), CellAt(w, at + 1)) == tx.env.seal(key, iv, plain) && CellAt(w, at + 2) == owner
  }

  /** The key cells of entry j stand from `at` on. */
  predicate KeysStand(tx: Tx, p: Param, j: nat, w: seq<Cell>, at: nat)
    requires p.shape.Mapping?
  {
    Copied(w, at, tx.mappingKeys(p.name), Times(p.shape.depth, j), p.shape.depth)
  }

  /** Entry j of a mapping with owners per key, in the record at i, from the plaintext record at i0: its keys, then the
      cell at 3 + 2j sealed under the public key of the address in the j-th key cell, and that cell as owner. */
  predicate EntrySealed(tx: Tx, p: Param, v: seq<Cell>, i0: nat, iv: nat -> nat, w: seq<Cell>, i: nat, j: nat)
    requires p.shape.Mapping?
  {
    var at, owner := i + DataAt(p, j), CellAt(tx.mappingKeys(p.name), j);
    var a := tx.env.checksum(tx.env.num(owner));
    && KeysStand(tx, p, j, w, at - p.shape.depth)
    && a in tx.publicKeys && SealedUnder(tx, tx.publicKeys[a], iv(j), CellAt(v, i0 + 3 + 2 * j), owner, w, at)
  }

  /** The encrypted record at i of the plaintext record at i0. */
  ghost predicate RecordSealed(tx: Tx, p: Param, v: seq<Cell>, i0: nat, addresses: map<string, Cell>, iv: nat -> nat,
                               w: seq<Cell>, i: nat)
  {
    && CellAt(w, i) == CellAt(v, i0)
    && match p.owner
       case All => Copied(w, i, v, i0, RecordLen(tx, p, false))
       case Tee => SealedUnder(tx, tx.env.teeKey, iv(0), CellAt(v, i0 + 1), tx.env.teeAddress, w, i + 1)
       case Identifier(s) =>
         && s in addresses && addresses[s] in tx.publicKeys
         && SealedUnder(tx, tx.publicKeys[addresses[s]], iv(0), CellAt(v, i0 + 1), addresses[s], w, i + 1)
       case PerKey(_, _) =>
         && p.shape.Mapping? && CellAt(w, i + 1) == CellAt(v, i0 + 1)
         && forall j :: 0 <= j < tx.keysSize(p.name) ==> EntrySealed(tx, p, v, i0, iv, w, i, j)
  }

  lemma BlockKeys(tx: Tx, p: Param, j: nat, tail: seq<Cell>, at: nat, head: seq<Cell>, body: seq<Cell>, w: seq<Cell>)
    requires ParamOk(tx, p) && p.shape.Mapping? && j < tx.keysSize(p.name) && |head| == 2 && w == head + body
    requires BlockAt(body, at, KeyBlock(tx, p, j) + tail)
    ensures KeysStand(tx, p, j, w, 2 + at)
  {
    KeyBlockLength(tx, p, j);
    TimesMono(p.shape.depth, j + 1, tx.keysSize(p.name));
    var block, keys, from := KeyBlock(tx, p, j), tx.mappingKeys(p.name), Times(p.shape.depth, j);
    var start := 2 + at;
    forall m | 0 <= m < p.shape.depth ensures CopiedAt(w, start, keys, from, m) {
      assert (block + tail)[m] == block[m] == keys[from + m];
      assert w[start + m] == body[at + m] == (block + tail)[m];
    }
  }

  lemma EntryCells(tx: Tx, p: Param, rec: seq<Cell>, iv: nat -> nat, j: nat, body: seq<Cell>, r: seq<Cell>)
    requires ParamOk(tx, p) && OwnedPerKey(p) && |rec| >= 2 && r == rec[..2] + body
    requires j < tx.keysSize(p.name) && KeyListed(tx, p, j)
    requires Tiled(body, SealedEntries(tx, p, rec, iv), 3 + p.shape.depth, tx.keysSize(p.name))
    ensures EntrySealed(tx, p, rec, 0, iv, r, 0, j)
  {
    SealedCells(tx, p, rec, iv, j, rec[..2], body, r);
    SealedEntryIs(tx, p, rec, iv, j);
    BlockKeys(tx, p, j, SealedValue(tx, p, rec, iv, j), Times(3 + p.shape.depth, j), rec[..2], body, r);
  }

  /** The record that encryption makes is sealed as it should. */
  lemma RecordCells(tx: Tx, p: Param, rec: seq<Cell>, addresses: map<string, Cell>, iv: nat -> nat)
    requires ParamOk(tx, p) && Regular(p) && |rec| == RecordLen(tx, p, false) && SealReady(tx, p, addresses)
    ensures RecordSealed(tx, p, rec, 0, addresses, iv, SealRecord(tx, p, rec, addresses, iv), 0)
  {
    if p.owner.PerKey? {
      KeysListedIff(tx, p, tx.keysSize(p.name));
      SealedEntriesLength(tx, p, rec, iv);
      var body, r := Slots(SealedEntries(tx, p, rec, iv), tx.keysSize(p.name)), SealMapping(tx, p, rec, iv);
      forall j | 0 <= j < tx.keysSize(p.name) ensures EntrySealed(tx, p, rec, 0, iv, r, 0, j) {
        assert KeyListed(tx, p, j);
        EntryCells(tx, p, rec, iv, j, body, r);
      }
    }
  }

  /** A record and its place in the vector have the same cells. */
  lemma InPlace(v: seq<Cell>, i: nat, rec: seq<Cell>, m: nat)
    requires i + |rec| <= |v| && rec == v[i..i + |rec|] && m < |rec|
    ensures CellAt(v, i + m) == CellAt(rec, m)
  {
  }

  /** The cells of entry j are inside the records. */
  lemma EntryInside(p: Param, n: nat, j: nat)
    requires p.shape.Mapping? && p.shape.depth >= 1 && j < n
    ensures 3 + 2 * j < 2 + Times(1 + p.shape.depth, n) && DataAt(p, j) + 2 < 2 + Times(3 + p.shape.depth, n)
    ensures 2 + Times(1 + p.shape.depth, j) + p.shape.depth < 2 + Times(1 + p.shape.depth, n)
  {
    TimesMono(3 + p.shape.depth, j + 1, n);
    TimesMono(1 + p.shape.depth, j + 1, n);
    TimesIsMul(1 + p.shape.depth, j + 1);
    assert (1 + p.shape.depth) * (j + 1) >= 2 * (j + 1);
  }

  lemma KeysInPlace(tx: Tx, p: Param, j: nat, w: seq<Cell>, i: nat, r: seq<Cell>, at: nat)
    requires p.shape.Mapping? && i + |r| <= |w| && r == w[i..i + |r|] && at + p.shape.depth <= |r|
    requires KeysStand(tx, p, j, r, at)
    ensures KeysStand(tx, p, j, w, i + at)
  {
    var keys, from, start := tx.mappingKeys(p.name), Times(p.shape.depth, j), i + at;
    forall m | 0 <= m < p.shape.depth ensures CopiedAt(w, start, keys, from, m) {
      assert CopiedAt(r, at, keys, from, m);
      InPlace(w, i, r, at + m);
    }
  }

  lemma EntryInPlace(tx: Tx, p: Param, v: seq<Cell>, i0: nat, rec: seq<Cell>, iv: nat -> nat, w: seq<Cell>, i: nat,
                     r: seq<Cell>, j: nat)
    requires ParamOk(tx, p) && OwnedPerKey(p) && j < tx.keysSize(p.name)
    requires |rec| == RecordLen(tx, p, false) && i0 + |rec| <= |v| && rec == v[i0..i0 + |rec|]
    requires |r| == RecordLen(tx, p, true) && i + |r| <= |w| && r == w[i..i + |r|]
    requires EntrySealed(tx, p, rec, 0, iv, r, 0, j)
    ensures EntrySealed(tx, p, v, i0, iv, w, i, j)
  {
    var at := DataAt(p, j);
    EntryInside(p, tx.keysSize(p.name), j);
    KeysInPlace(tx, p, j, w, i, r, at - p.shape.depth);
    InPlace(v, i0, rec, 3 + 2 * j);
    InPlace(w, i, r, at);
    InPlace(w, i, r, at + 1);
    InPlace(w, i, r, at + 2);
  }

  lemma CopiedInPlace(v: seq<Cell>, i0: nat, w: seq<Cell>, i: nat, rec: seq<Cell>)
    requires i0 + |rec| <= |v| && rec == v[i0..i0 + |rec|] && i + |rec| <= |w| && rec == w[i..i + |rec|]
    ensures Copied(w, i, v, i0, |rec|)
  {
    forall m | 0 <= m < |rec| ensures CopiedAt(w, i, v, i0, m) {
      InPlace(v, i0, rec, m);
      InPlace(w, i, rec, m);
    }
  }

  lemma SealedInPlace(tx: Tx, p: Param, v: seq<Cell>, i0: nat, rec: seq<Cell>, addresses: map<string, Cell>,
                      iv: nat -> nat, w: seq<Cell>, i: nat, r: seq<Cell>)
    requires ParamOk(tx, p) && Regular(p) && SealReady(tx, p, addresses)
    requires |rec| == RecordLen(tx, p, false) && i0 + |rec| <= |v| && rec == v[i0..i0 + |rec|]
    requires |r| == RecordLen(tx, p, true) && i + |r| <= |w| && r == w[i..i + |r|]
    requires r == SealRecord(tx, p, rec, addresses, iv)
    ensures RecordSealed(tx, p, v, i0, addresses, iv, w, i)
  {
    RecordCells(tx, p, rec, addresses, iv);
    InPlace(v, i0, rec, 0);
    InPlace(v, i0, rec, 1);
    InPlace(w, i, r, 0);
    InPlace(w, i, r, 1);
    match p.owner
    case All => CopiedInPlace(v, i0, w, i, rec);
    case PerKey(_, _) =>
      forall j | 0 <= j < tx.keysSize(p.name) ensures EntrySealed(tx, p, v, i0, iv, w, i, j) {
        EntryInPlace(tx, p, v, i0, rec, iv, w, i, r, j);
      }
    case _ =>
      InPlace(w, i, r, 2);
      InPlace(w, i, r, 3);
  }

  lemma SealedSlice(tx: Tx, v: seq<Cell>, addresses: map<string, Cell>, ivs: nat -> nat -> nat, w: seq<Cell>, k: nat)
    requires TxOk(tx) && Complete(tx, v, false) && Complete(tx, w, true) && k < |tx.states|
    requires SealedIn(tx, v, addresses, ivs, w, k)
    ensures Offset(tx, false, k + 1) <= |v| && Offset(tx, true, k + 1) <= |w|
    ensures ParamOk(tx, tx.states[k])
    ensures Slice(tx, w, true, k) == SealRecord(tx, tx.states[k], Slice(tx, v, false, k), addresses, ivs(k))
  {
    OffsetMono(tx, false, k + 1, |tx.states|);
    OffsetMono(tx, true, k + 1, |tx.states|);
    assert Slice(tx, w, true, k) == SealAt(tx, v, addresses, ivs, k);
  }

  lemma SealedRecordAt(tx: Tx, v: seq<Cell>, addresses: map<string, Cell>, ivs: nat -> nat -> nat, w: seq<Cell>, k: nat)
    requires TxOk(tx) && Complete(tx, v, false) && Complete(tx, w, true) && k < |tx.states| && Regular(tx.states[k])
    requires SealedIn(tx, v, addresses, ivs, w, k) && SealReady(tx, tx.states[k], addresses)
    ensures RecordSealed(tx, tx.states[k], v, Offset(tx, false, k), addresses, ivs(k), w, Offset(tx, true, k))
  {
    SealedSlice(tx, v, addresses, ivs, w, k);
    var i0, i, rec, r := Offset(tx, false, k), Offset(tx, true, k), Slice(tx, v, false, k), Slice(tx, w, true, k);
    assert rec == v[i0..i0 + |rec|] && r == w[i..i + |r|];
    SealedInPlace(tx, tx.states[k], v, i0, rec, addresses, ivs(k), w, i, r);
  }

  /** Every record of what encryption returns: ids, counts, keys and owners where they belong, and each value sealed
      under its owner's public key; a value of the tee under the tee's, one with a named owner under that of the address
      found for the name. */
  lemma EncryptedCells(tx: Tx, v: seq<Cell>, prior: seq<Cell>, ivs: nat -> nat -> nat, w: seq<Cell>, k: nat)
    requires TxOk(tx) && AllRegular(tx) && Complete(tx, v, false) && SealedStates(tx, v, prior, ivs) == Some(w)
    requires k < |tx.states|
    ensures RecordSealed(tx, tx.states[k], v, Offset(tx, false, k), AddressesOf(tx, prior, |tx.states|), ivs(k),
                         w, Offset(tx, true, k))
  {
    var addresses := AddressesOf(tx, prior, |tx.states|);
    SealedStatesAre(tx, v, prior, ivs, w);
    SealsReadyIff(tx, addresses, |tx.states|);
    assert SealedIn(tx, v, addresses, ivs, w, k) && Regular(tx.states[k]);
    SealedRecordAt(tx, v, addresses, ivs, w, k);
  }

  // ---------------------------------------------------------------------------------------------------- decryption

  /** Entry j: its keys, then zero where the owner cell is zero, and otherwise what the public key of the owner's
      address makes of the two cells before the owner cell. */
  predicate EntryOpened(tx: Tx, p: Param, w: seq<Cell>, i: nat, v: seq<Cell>, i0: nat, j: nat)
    requires p.shape.Mapping?
  {
    var to := i0 + 2 + Times(1 + p.shape.depth, j) + p.shape.depth;
    KeysStand(tx, p, j, v, to - p.shape.depth) && OpensTo(tx, w, i + DataAt(p, j), CellAt(v, to))
  }

  /** The plaintext record at i0 of the encrypted record at i. */
  ghost predicate RecordOpened(tx: Tx, p: Param, w: seq<Cell>, i: nat, v: seq<Cell>, i0: nat)
  {
    var a := tx.env.checksum(tx.env.num(CellAt(w, i + 3)));
    var blank := if p.shape.Array? then tx.env.zeros(p.shape.size) else tx.env.zero;
    && CellAt(v, i0) == CellAt(w, i)
    && match p.owner
       case All => Copied(v, i0, w, i, RecordLen(tx, p, false))
       case Tee =>
         CellAt(v, i0 + 1) == if tx.env.num(a) == 0 then blank
                              else tx.env.open(tx.env.teeKey, CellAt(w, i + 1), CellAt(w, i + 2))
       case Identifier(_) =>
         if tx.env.num(a) == 0 then CellAt(v, i0 + 1) == blank
         else && a in tx.publicKeys
              && CellAt(v, i0 + 1) == tx.env.open(tx.publicKeys[a], CellAt(w, i + 1), CellAt(w, i + 2))
       case PerKey(_, _) =>
         && p.shape.Mapping? && CellAt(v, i0 + 1) == CellAt(w, i + 1)
         && forall j :: 0 <= j < tx.keysSize(p.name) ==> EntryOpened(tx, p, w, i, v, i0, j)
  }

  /** The value that entry j of an encrypted record opens to. */
  function ValueOf(tx: Tx, p: Param, r: seq<Cell>, j: nat): (c: Cell)
    requires p.shape.Mapping?
  {
    OpenEntry(tx, CellAt(r, DataAt(p, j)), CellAt(r, DataAt(p, j) + 1), CellAt(r, DataAt(p, j) + 2))
  }

  lemma OpenedBlock(tx: Tx, p: Param, r: seq<Cell>, body: seq<Cell>, j: nat)
    requires ParamOk(tx, p) && p.shape.Mapping? && j < tx.keysSize(p.name)
    requires body == Slots(Opened(tx, p, r), tx.keysSize(p.name))
    ensures BlockAt(body, Times(1 + p.shape.depth, j), KeyBlock(tx, p, j) + [ValueOf(tx, p, r, j)])
  {
    OpenedLength(tx, p, r);
    UniformAt(Opened(tx, p, r), 1 + p.shape.depth, tx.keysSize(p.name), j);
    assert Opened(tx, p, r)(j) == OpenedEntry(tx, p, r, j);
  }

  lemma OpenedEntryCells(tx: Tx, p: Param, r: seq<Cell>, rec: seq<Cell>, body: seq<Cell>, j: nat)
    requires ParamOk(tx, p) && OwnedPerKey(p) && |r| == RecordLen(tx, p, true) && rec == r[..2] + body
    requires j < tx.keysSize(p.name) && EntryReady(tx, CellAt(r, DataAt(p, j) + 2))
    requires BlockAt(body, Times(1 + p.shape.depth, j), KeyBlock(tx, p, j) + [ValueOf(tx, p, r, j)])
    ensures EntryOpened(tx, p, r, 0, rec, 0, j)
  {
    var at := Times(1 + p.shape.depth, j);
    BlockKeys(tx, p, j, [ValueOf(tx, p, r, j)], at, r[..2], body, rec);
    KeyBlockLength(tx, p, j);
    LastOfBlock(r[..2], body, at, KeyBlock(tx, p, j), ValueOf(tx, p, r, j), rec);
  }

  lemma LastOfBlock(head: seq<Cell>, body: seq<Cell>, at: nat, block: seq<Cell>, c: Cell, rec: seq<Cell>)
    requires |head| == 2 && rec == head + body && BlockAt(body, at, block + [c])
    ensures CellAt(rec, 2 + at + |block|) == c
  {
    assert (block + [c])[|block|] == c;
  }

  lemma OpenedCells(tx: Tx, p: Param, r: seq<Cell>, rec: seq<Cell>)
    requires ParamOk(tx, p) && Regular(p) && |r| == RecordLen(tx, p, true) && OpenReady(tx, p, r)
    requires rec == OpenRecord(tx, p, r)
    ensures RecordOpened(tx, p, r, 0, rec, 0)
  {
    if p.owner.PerKey? {
      EntriesReadyIff(tx, p, r, tx.keysSize(p.name));
      var body := Slots(Opened(tx, p, r), tx.keysSize(p.name));
      forall j | 0 <= j < tx.keysSize(p.name) ensures EntryOpened(tx, p, r, 0, rec, 0, j) {
        OpenedBlock(tx, p, r, body, j);
        OpenedEntryCells(tx, p, r, rec, body, j);
      }
    }
  }

  lemma EntryOpenedInPlace(tx: Tx, p: Param, w: seq<Cell>, i: nat, r: seq<Cell>, v: seq<Cell>, i0: nat, rec: seq<Cell>,
                           j: nat)
    requires ParamOk(tx, p) && OwnedPerKey(p) && j < tx.keysSize(p.name)
    requires |rec| == RecordLen(tx, p, false) && i0 + |rec| <= |v| && rec == v[i0..i0 + |rec|]
    requires |r| == RecordLen(tx, p, true) && i + |r| <= |w| && r == w[i..i + |r|]
    requires EntryOpened(tx, p, r, 0, rec, 0, j)
    ensures EntryOpened(tx, p, w, i, v, i0, j)
  {
    var at, to := DataAt(p, j), 2 + Times(1 + p.shape.depth, j) + p.shape.depth;
    EntryInside(p, tx.keysSize(p.name), j);
    KeysInPlace(tx, p, j, v, i0, rec, to - p.shape.depth);
    InPlace(v, i0, rec, to);
    InPlace(w, i, r, at);
    InPlace(w, i, r, at + 1);
    InPlace(w, i, r, at + 2);
  }

  lemma OpenedInPlace(tx: Tx, p: Param, w: seq<Cell>, i: nat, r: seq<Cell>, v: seq<Cell>, i0: nat, rec: seq<Cell>)
    requires ParamOk(tx, p) && Regular(p) && OpenReady(tx, p, r)
    requires |rec| == RecordLen(tx, p, false) && i0 + |rec| <= |v| && rec == v[i0..i0 + |rec|]
    requires |r| == RecordLen(tx, p, true) && i + |r| <= |w| && r == w[i..i + |r|]
    requires rec == OpenRecord(tx, p, r)
    ensures RecordOpened(tx, p, w, i, v, i0)
  {
    OpenedCells(tx, p, r, rec);
    InPlace(v, i0, rec, 0);
    InPlace(v, i0, rec, 1);
    InPlace(w, i, r, 0);
    InPlace(w, i, r, 1);
    match p.owner
    case All => CopiedInPlace(w, i, v, i0, rec);
    case PerKey(_, _) =>
      forall j | 0 <= j < tx.keysSize(p.name) ensures EntryOpened(tx, p, w, i, v, i0, j) {
        EntryOpenedInPlace(tx, p, w, i, r, v, i0, rec, j);
      }
    case _ =>
      InPlace(w, i, r, 2);
      InPlace(w, i, r, 3);
  }

  lemma OpenedSlice(tx: Tx, w: seq<Cell>, v: seq<Cell>, k: nat)
    requires TxOk(tx) && AllRegular(tx) && Complete(tx, w, true) && OpenedStates(tx, w) == Some(v) && k < |tx.states|
    ensures Complete(tx, v, false) && Offset(tx, false, k + 1) <= |v| && Slice(tx, v, false, k) == OpenAt(tx, w, k)
    ensures ReadyAt(tx, w, k)
  {
    OpenedIsComplete(tx, w);
    var f := OpenedRecords(tx, w);
    forall j | 0 <= j < |tx.states| ensures f(j) == OpenAt(tx, w, j) && Fits(tx, false, f(j), j) {
      OpenedAt(tx, w, j);
      assert Regular(tx.states[j]);
    }
    RecordsComplete(tx, false, f);
    AllReadyIff(tx, w, |tx.states|);
    PlacedSlice(tx, v, k, f(k));
  }

  lemma PlacedSlice(tx: Tx, v: seq<Cell>, k: nat, rec: seq<Cell>)
    requires k < |tx.states| && BlockAt(v, Offset(tx, false, k), rec) && |rec| == RecordLen(tx, tx.states[k], false)
    ensures Offset(tx, false, k + 1) <= |v| && Slice(tx, v, false, k) == rec
  {
  }

  lemma OpenedRecordAt(tx: Tx, w: seq<Cell>, v: seq<Cell>, k: nat)
    requires TxOk(tx) && Complete(tx, w, true) && k < |tx.states| && Regular(tx.states[k]) && ReadyAt(tx, w, k)
    requires Offset(tx, false, k + 1) <= |v| && Slice(tx, v, false, k) == OpenAt(tx, w, k)
    ensures RecordOpened(tx, tx.states[k], w, Offset(tx, true, k), v, Offset(tx, false, k))
  {
    OffsetMono(tx, true, k + 1, |tx.states|);
    OpenedInPlace(tx, tx.states[k], w, Offset(tx, true, k), Slice(tx, w, true, k),
                  v, Offset(tx, false, k), Slice(tx, v, false, k));
  }

  /** Every record of what decryption returns: ids, counts and keys where they belong, and each value as its owner's
      public key makes it of the two cells before the owner cell, the tee's key for the tee; zero where the owner is. */
  lemma DecryptedCells(tx: Tx, w: seq<Cell>, v: seq<Cell>, k: nat)
    requires TxOk(tx) && AllRegular(tx) && Complete(tx, w, true) && OpenedStates(tx, w) == Some(v)
    requires k < |tx.states|
    ensures RecordOpened(tx, tx.states[k], w, Offset(tx, true, k), v, Offset(tx, false, k))
  {
    OpenedSlice(tx, w, v, k);
    assert Regular(tx.states[k]);
    OpenedRecordAt(tx, w, v, k);
  }

  // ------------------------------------------------------------------------------------------------------- failures

  /** There is a public key for the address that a cell stands for. */
  predicate HasKey(tx: Tx, owner: Cell)
  {
    tx.env.checksum(tx.env.num(owner)) in tx.publicKeys
  }

  /** What encryption needs for a state. */
  ghost predicate CanSeal(tx: Tx, p: Param, addresses: map<string, Cell>)
  {
    && (p.owner.PerKey? ==>
          && p.shape.Mapping?
          && forall j :: 0 <= j < tx.keysSize(p.name) ==> HasKey(tx, CellAt(tx.mappingKeys(p.name), j)))
    && (p.owner.Identifier? ==> p.owner.state in addresses && addresses[p.owner.state] in tx.publicKeys)
  }

  /** Encryption succeeds exactly when no owner per key is asked of what is no mapping, the first key cells of each
      mapping with owners per key have public keys, and each named owner has an address with one. */
  lemma EncryptsIff(tx: Tx, v: seq<Cell>, prior: seq<Cell>, ivs: nat -> nat -> nat)
    requires TxOk(tx) && Complete(tx, v, false)
    ensures SealedStates(tx, v, prior, ivs).Some? <==>
            forall k :: 0 <= k < |tx.states| ==> CanSeal(tx, tx.states[k], AddressesOf(tx, prior, |tx.states|))
  {
    var addresses := AddressesOf(tx, prior, |tx.states|);
    SealsReadyIff(tx, addresses, |tx.states|);
    forall k | 0 <= k < |tx.states|
      ensures CanSeal(tx, tx.states[k], addresses) <==> SealReady(tx, tx.states[k], addresses)
    {
      SealsIff(tx, tx.states[k], addresses);
    }
  }

  lemma SealsIff(tx: Tx, p: Param, addresses: map<string, Cell>)
    ensures CanSeal(tx, p, addresses) <==> SealReady(tx, p, addresses)
  {
    KeysListedIff(tx, p, tx.keysSize(p.name));
    forall j: nat ensures KeyListed(tx, p, j) <==> HasKey(tx, CellAt(tx.mappingKeys(p.name), j)) {
    }
  }

  /** What decryption needs for the record at i: keys for the owner cells that are not zero. */
  ghost predicate CanOpen(tx: Tx, p: Param, w: seq<Cell>, i: nat)
  {
    && (p.owner.PerKey? ==>
          p.shape.Mapping? && forall j :: 0 <= j < tx.keysSize(p.name) ==> CanOpenEntry(tx, p, w, i, j))
    && (p.owner.Identifier? ==>
          tx.env.num(tx.env.checksum(tx.env.num(CellAt(w, i + 3)))) == 0 || HasKey(tx, CellAt(w, i + 3)))
  }

  predicate CanOpenEntry(tx: Tx, p: Param, w: seq<Cell>, i: nat, j: nat)
    requires p.shape.Mapping?
  {
    var owner := CellAt(w, i + DataAt(p, j) + 2);
    tx.env.num(owner) == 0 || HasKey(tx, owner)
  }

  lemma OpensIff(tx: Tx, p: Param, w: seq<Cell>, i: nat, r: seq<Cell>)
    requires ParamOk(tx, p) && |r| == RecordLen(tx, p, true) && i + |r| <= |w| && r == w[i..i + |r|]
    ensures OpenReady(tx, p, r) <==> CanOpen(tx, p, w, i)
  {
    if OwnedPerKey(p) {
      EntriesReadyIff(tx, p, r, tx.keysSize(p.name));
      forall j | 0 <= j < tx.keysSize(p.name)
        ensures EntryReady(tx, CellAt(r, DataAt(p, j) + 2)) <==> CanOpenEntry(tx, p, w, i, j)
      {
        EntryInside(p, tx.keysSize(p.name), j);
        InPlace(w, i, r, DataAt(p, j) + 2);
      }
    } else if p.owner.Identifier? {
      SingleInside(tx, p);
      InPlace(w, i, r, 3);
    }
  }

  /** A record with a single owner has an owner cell. */
  lemma SingleInside(tx: Tx, p: Param)
    requires ParamOk(tx, p) && p.owner.Identifier?
    ensures RecordLen(tx, p, true) >= 4
  {
    if p.shape.Mapping? {
      TimesMono(3 + p.shape.depth, 1, tx.keysSize(p.name));
    }
  }

  /** Decryption succeeds exactly when no owner per key is asked of what is no mapping and the owner cells that are not
      zero have public keys. */
  lemma DecryptsIff(tx: Tx, w: seq<Cell>)
    requires TxOk(tx) && Complete(tx, w, true)
    ensures OpenedStates(tx, w).Some? <==>
            forall k :: 0 <= k < |tx.states| ==> CanOpen(tx, tx.states[k], w, Offset(tx, true, k))
  {
    AllReadyIff(tx, w, |tx.states|);
    forall k | 0 <= k < |tx.states| ensures ReadyAt(tx, w, k) <==> CanOpen(tx, tx.states[k], w, Offset(tx, true, k)) {
      OffsetMono(tx, true, k + 1, |tx.states|);
      assert ParamOk(tx, tx.states[k]);
      OpensIff(tx, tx.states[k], w, Offset(tx, true, k), Slice(tx, w, true, k));
    }
  }
}
