/**
 * `StateChange::write_to_db`: the net diff of a bundle applied to the
 * present-value tables `PlainStorageState`, `PlainAccountState` and `Bytecodes`.
 */
module StateChange {
  import opened Wrappers
  import opened Primitives
  import opened StorageList
  import opened Tables

  /** The new storage of one address; `wiped` is carried but ignored here (reverts do the wiping). */
  datatype StorageChange = StorageChange(address: Address, wiped: bool, slots: Slots)

  datatype AccountChange = AccountChange(address: Address, info: Option<Account>)

  datatype ContractChange = ContractChange(hash: Hash, code: Bytecode)

  /** The sorted plain changeset handed over by the foreign bundle. */
  datatype StateChangeset = StateChangeset(
    storage: seq<StorageChange>,
    accounts: seq<AccountChange>,
    contracts: seq<ContractChange>
  )

  /** What a persisted slot reads as after writing `v`: zero is stored as absence. */
  function Persisted(v: U256): Option<U256> {
    if v != 0 then Some(v) else None
  }

  // ---------------------------------------------------------------------------
  // Storage
  // ---------------------------------------------------------------------------

  /** One slot write on the table; an address left without entries disappears from it. */
  function WriteSlot(t: PlainStorage, a: Address, e: StorageEntry): (t': PlainStorage)
    ensures WellFormedStorage(t) ==> WellFormedStorage(t')
    ensures WellFormedStorage(t) ==> Lookup(t', a, e.key) == Persisted(e.value)
    ensures WellFormedStorage(t) ==>
      forall b, k :: (b != a || k != e.key) ==> Lookup(t', b, k) == Lookup(t, b, k)
  {
    var s := SetSlot(StorageOf(t, a), e.key, e.value);
    if s == [] then t - {a} else t[a := s]
  }

  /** The slot writes of one address, in order. */
  function WriteSlots(t: PlainStorage, a: Address, slots: Slots): PlainStorage
    decreases |slots|
  {
    if slots == [] then t else WriteSlots(WriteSlot(t, a, slots[0]), a, slots[1..])
  }

  /** Storage writes of all addresses, in order. */
  function WriteStorage(t: PlainStorage, changes: seq<StorageChange>): PlainStorage
    decreases |changes|
  {
    if changes == [] then t
    else WriteStorage(WriteSlots(t, changes[0].address, changes[0].slots), changes[1..])
  }

  /** The value of the last entry for slot `k` in `slots`, if any. */
  function LastSlotValue(slots: Slots, k: U256): Option<U256>
    decreases |slots|
  {
    if slots == [] then None
    else
      var later := LastSlotValue(slots[1..], k);
      if later.Some? then later
      else if slots[0].key == k then Some(slots[0].value)
      else None
  }

  /** The value of the last write to (a, k) in the whole storage diff, if any. */
  function LastStorageWrite(changes: seq<StorageChange>, a: Address, k: U256): Option<U256>
    decreases |changes|
  {
    if changes == [] then None
    else
      var later := LastStorageWrite(changes[1..], a, k);
      if later.Some? then later
      else if changes[0].address == a then LastSlotValue(changes[0].slots, k)
      else None
  }

  lemma {:induction false} WriteSlotsEffect(t: PlainStorage, a: Address, slots: Slots)
    requires WellFormedStorage(t)
    ensures WellFormedStorage(WriteSlots(t, a, slots))
    ensures forall b, k :: Lookup(WriteSlots(t, a, slots), b, k) ==
              (if b == a && LastSlotValue(slots, k).Some? then Persisted(LastSlotValue(slots, k).value)
               else Lookup(t, b, k))
    decreases |slots|
  {
    if slots != [] {
      WriteSlotsEffect(WriteSlot(t, a, slots[0]), a, slots[1..]);
    }
  }

  /**
   * After the storage part of the write, a slot some change wrote holds the
   * last value written there (absent when that value is zero); every other
   * slot is untouched.
   */
  lemma {:induction false} WriteStorageEffect(t: PlainStorage, changes: seq<StorageChange>)
    requires WellFormedStorage(t)
    ensures WellFormedStorage(WriteStorage(t, changes))
    ensures forall a, k :: Lookup(WriteStorage(t, changes), a, k) ==
              (if LastStorageWrite(changes, a, k).Some? then Persisted(LastStorageWrite(changes, a, k).value)
               else Lookup(t, a, k))
    decreases |changes|
  {
    if changes != [] {
      var c := changes[0];
      WriteSlotsEffect(t, c.address, c.slots);
      WriteStorageEffect(WriteSlots(t, c.address, c.slots), changes[1..]);
    }
  }

  // ---------------------------------------------------------------------------
  // Accounts
  // ---------------------------------------------------------------------------

  /** Upsert on `Some`; on `None` delete, but only when `seek_exact` finds the account. */
  function WriteAccount(m: map<Address, Account>, c: AccountChange): (m': map<Address, Account>)
    ensures AccountAt(m', c.address) == c.info
    ensures forall b :: b != c.address ==> AccountAt(m', b) == AccountAt(m, b)
    ensures c.info.None? && c.address !in m ==> m' == m
  {
    if c.info.Some? then m[c.address := c.info.value]
    else if c.address in m then m - {c.address}
    else m
  }

  function WriteAccounts(m: map<Address, Account>, changes: seq<AccountChange>): map<Address, Account>
    decreases |changes|
  {
    if changes == [] then m else WriteAccounts(WriteAccount(m, changes[0]), changes[1..])
  }

  /** The last account write for `a`: `Some(info)` when `a` is written, `None` otherwise. */
  function LastAccountWrite(changes: seq<AccountChange>, a: Address): Option<Option<Account>>
    decreases |changes|
  {
    if changes == [] then None
    else
      var later := LastAccountWrite(changes[1..], a);
      if later.Some? then later
      else if changes[0].address == a then Some(changes[0].info)
      else None
  }

  /**
   * After the account part of the write, a written address holds its last
   * written info (`None` meaning absent) and every other address is untouched.
   */
  lemma {:induction false} WriteAccountsEffect(m: map<Address, Account>, changes: seq<AccountChange>, a: Address)
    ensures AccountAt(WriteAccounts(m, changes), a) ==
      (if LastAccountWrite(changes, a).Some? then LastAccountWrite(changes, a).value else AccountAt(m, a))
    decreases |changes|
  {
    if changes != [] {
      WriteAccountsEffect(WriteAccount(m, changes[0]), changes[1..], a);
    }
  }

  // ---------------------------------------------------------------------------
  // Bytecodes
  // ---------------------------------------------------------------------------

  function WriteBytecodes(m: map<Hash, Bytecode>, changes: seq<ContractChange>): map<Hash, Bytecode>
    decreases |changes|
  {
    if changes == [] then m
    else WriteBytecodes(m[changes[0].hash := changes[0].code], changes[1..])
  }

  function LastBytecodeWrite(changes: seq<ContractChange>, h: Hash): Option<Bytecode>
    decreases |changes|
  {
    if changes == [] then None
    else
      var later := LastBytecodeWrite(changes[1..], h);
      if later.Some? then later
      else if changes[0].hash == h then Some(changes[0].code)
      else None
  }

  /** Every written hash holds its (last) code; every other hash is untouched. */
  lemma {:induction false} WriteBytecodesEffect(m: map<Hash, Bytecode>, changes: seq<ContractChange>, h: Hash)
    ensures BytecodeAt(WriteBytecodes(m, changes), h) ==
      (if LastBytecodeWrite(changes, h).Some? then LastBytecodeWrite(changes, h) else BytecodeAt(m, h))
    decreases |changes|
  {
    if changes != [] {
      WriteBytecodesEffect(m[changes[0].hash := changes[0].code], changes[1..], h);
    }
  }

  // ---------------------------------------------------------------------------
  // The whole write
  // ---------------------------------------------------------------------------

  /** Storage first, then accounts, then bytecodes; history and receipt tables are not touched. */
  function Write(db: Db, change: StateChangeset): (db': Db)
    ensures db'.accountChangeSets == db.accountChangeSets
    ensures db'.storageChangeSets == db.storageChangeSets
    ensures db'.receipts == db.receipts
  {
    db.(plainStorage := WriteStorage(db.plainStorage, change.storage),
        plainAccounts := WriteAccounts(db.plainAccounts, change.accounts),
        bytecodes := WriteBytecodes(db.bytecodes, change.contracts))
  }

  /**
   * The net diff's effect on the present-value tables: each written slot is
   * present exactly when its new value is non-zero and then holds it; each
   * written account holds `Some(a)` as `a` and `None` as absence; each
   * bytecode hash maps to its code; everything not written is unchanged.
   */
  lemma WriteEffect(db: Db, change: StateChangeset)
    requires WellFormedStorage(db.plainStorage)
    ensures WellFormedStorage(Write(db, change).plainStorage)
    ensures forall a, k :: Lookup(Write(db, change).plainStorage, a, k) ==
              (if LastStorageWrite(change.storage, a, k).Some?
               then Persisted(LastStorageWrite(change.storage, a, k).value)
               else Lookup(db.plainStorage, a, k))
    ensures forall a :: AccountAt(Write(db, change).plainAccounts, a) ==
              (if LastAccountWrite(change.accounts, a).Some? then LastAccountWrite(change.accounts, a).value
               else AccountAt(db.plainAccounts, a))
    ensures forall h :: BytecodeAt(Write(db, change).bytecodes, h) ==
              (if LastBytecodeWrite(change.contracts, h).Some? then LastBytecodeWrite(change.contracts, h)
               else BytecodeAt(db.bytecodes, h))
  {
    WriteStorageEffect(db.plainStorage, change.storage);
    forall a ensures AccountAt(Write(db, change).plainAccounts, a) ==
      (if LastAccountWrite(change.accounts, a).Some? then LastAccountWrite(change.accounts, a).value
       else AccountAt(db.plainAccounts, a))
    {
      WriteAccountsEffect(db.plainAccounts, change.accounts, a);
    }
    forall h ensures BytecodeAt(Write(db, change).bytecodes, h) ==
      (if LastBytecodeWrite(change.contracts, h).Some? then LastBytecodeWrite(change.contracts, h)
       else BytecodeAt(db.bytecodes, h))
    {
      WriteBytecodesEffect(db.bytecodes, change.contracts, h);
    }
  }

  /** The zero-write invariant: writing 0 to a slot leaves no entry for it, whatever was there. */
  lemma ZeroWriteLeavesNoEntry(db: Db, a: Address, k: U256)
    requires WellFormedStorage(db.plainStorage)
    ensures Lookup(Write(db, StateChangeset([StorageChange(a, false, [StorageEntry(k, 0)])], [], [])).plainStorage, a, k) == None
  {
    var change := StateChangeset([StorageChange(a, false, [StorageEntry(k, 0)])], [], []);
    WriteEffect(db, change);
    assert LastSlotValue([StorageEntry(k, 0)], k) == Some(0);
    assert LastStorageWrite(change.storage, a, k) == Some(0);
  }
}
