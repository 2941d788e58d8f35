/**
 * The persistent tables the changeset engine writes, as finite maps and
 * append-only row logs. Only the tables `change.rs` touches are present.
 */
module Tables {
  import opened Wrappers
  import opened Primitives
  import opened StorageList

  /** `PlainStorageState`: per address, its dup-sorted (slot, value) entries. */
  type PlainStorage = map<Address, Slots>

  /** One duplicate of `AccountChangeSet`: keyed by block, value (address, prior info). */
  datatype AccountChangeRow = AccountChangeRow(block: u64, address: Address, info: Option<Account>)

  /** One duplicate of `StorageChangeSet`: keyed by (block, address), value (slot, prior value). */
  datatype StorageChangeRow = StorageChangeRow(block: u64, address: Address, entry: StorageEntry)

  /** One row of `Receipts`, keyed by the global receipt number. */
  datatype ReceiptRow = ReceiptRow(index: nat, receipt: Receipt)

  datatype Db = Db(
    plainAccounts: map<Address, Account>,
    plainStorage: PlainStorage,
    accountChangeSets: seq<AccountChangeRow>,
    storageChangeSets: seq<StorageChangeRow>,
    receipts: seq<ReceiptRow>,
    bytecodes: map<Hash, Bytecode>
  )

  /**
   * A dup-sorted table as the store keeps it: every address present has at
   * least one entry and its entries are in strictly ascending slot order.
   */
  predicate WellFormedStorage(t: PlainStorage) {
    forall a :: a in t ==> t[a] != [] && StrictlySorted(t[a])
  }

  /** The entries an ascending scan from `seek_exact(address)` visits. */
  function StorageOf(t: PlainStorage, a: Address): (s: Slots)
    ensures WellFormedStorage(t) ==> StrictlySorted(s)
    ensures s == [] <==> a !in t || t[a] == []
  {
    if a in t then t[a] else []
  }

  /** The persisted value of one (address, slot); `None` when no entry exists. */
  function Lookup(t: PlainStorage, a: Address, k: U256): Option<U256> {
    Get(StorageOf(t, a), k)
  }

  function AccountAt(m: map<Address, Account>, a: Address): Option<Account> {
    if a in m then Some(m[a]) else None
  }

  function BytecodeAt(m: map<Hash, Bytecode>, h: Hash): Option<Bytecode> {
    if h in m then Some(m[h]) else None
  }
}
