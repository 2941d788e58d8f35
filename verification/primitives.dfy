/**
 * Primitive types of the execution client as far as the changeset engine
 * sees them: fixed-width integers, addresses, hashes, accounts, receipts and
 * the (slot, value) storage entry.
 */
module Primitives {
  import opened Wrappers

  /** 2^64: block numbers (`BlockNumber`) and `usize` are 64-bit. */
  const U64_LIMIT: nat := 0x1_0000_0000_0000_0000

  type u64 = x: nat | x < 0x1_0000_0000_0000_0000

  /** A 256-bit word; storage slots and values are `U256`. */
  type U256 = x: nat | x < 0x1_0000_0000_0000_0000_0000_0000_0000_0000_0000_0000_0000_0000_0000_0000

  /** A 160-bit account address. */
  type Address = x: nat | x < 0x1_0000_0000_0000_0000_0000_0000_0000_0000_0000

  /**
   * A 32-byte hash (`H256`). A slot key is stored as the big-endian bytes of
   * its `U256`, so byte order and numeric order agree; keys are compared as numbers.
   */
  type Hash = U256

  type Byte = x: nat | x < 256

  datatype Account = Account(nonce: u64, balance: U256, bytecodeHash: Option<Hash>)

  datatype Bytecode = Bytecode(code: seq<Byte>)

  datatype Log = Log(address: Address, topics: seq<Hash>, data: seq<Byte>)

  datatype Receipt = Receipt(txType: nat, success: bool, cumulativeGasUsed: u64, logs: seq<Log>)

  /** One duplicate of the `PlainStorageState` / `StorageChangeSet` tables. */
  datatype StorageEntry = StorageEntry(key: U256, value: U256)

  /**
   * `a + b` on `u64` as a release build computes it: wrapping at 2^64.
   * `b` is a `usize` converted with `as u64`, which is lossless on 64-bit targets.
   */
  function WrappingAdd(a: u64, b: nat): (r: u64)
    ensures a + b < U64_LIMIT ==> r == a + b
    ensures U64_LIMIT <= a + b && b < U64_LIMIT ==> r == a + b - U64_LIMIT && r < a
  {
    (a + b) % U64_LIMIT
  }
}
