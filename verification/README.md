# reth `change.rs` changeset engine, modelled in Dafny

This project models the bookkeeping and write rules of reth's
`crates/storage/provider/src/change.rs`:

- `BundleState` is a foreign revm bundle plus one receipt list per block of
  the window `[first_block, first_block + len)`. The model covers its range
  queries (`block_number_to_index`, `len`, `last_block`, `receipts_by_block`,
  `logs`), the window algebra (`revert_to`, `detach_lower_part_at`,
  `extend`) and the receipt numbering of `write_to_db`.
- `StateReverts::write_to_db` turns the per-block revert journal into
  `StorageChangeSet` and `AccountChangeSet` rows. Along the way it captures and
  deletes the plain storage of wiped addresses, and merges the captured slots
  with each revert record.
- `StateChange::write_to_db` applies the net diff to `PlainStorageState`,
  `PlainAccountState` and `Bytecodes`.

Modules, one per file:

- `Wrappers` holds `Option`.
- `Primitives` holds the `u64` block number with its wrap-around addition,
  plus `U256`, addresses, accounts, receipts and storage entries.
- `StorageList` covers ascending slot lists: lookup, the two-cursor merge and
  single-slot delete/insert.
- `Tables` is the database as finite maps (present-value tables) and
  append-only row logs (history tables and `Receipts`).
- `StateChange`, `StateReverts` and `Bundle` follow the three Rust types.

The revm bundle is foreign code. It is modelled as the symbolic term
`Bundle.RevmBundle`, which records only which calls the wrapper makes on it and
with which arguments: `revert(n)`, `detach_lower_part_reverts(n)` and
`extend(other)`. What `take_reverts` and `take_sorted_plain_change_inner` return
becomes parameters of `Bundle.WriteToDb`.

`Bundle.Len` is the receipt count. It has no contract of its own; the members
below state everything about it.

## Model

| member | source | states |
|---|---|---|
| Primitives.WrappingAdd | crates/storage/provider/src/change.rs:247-249 | `u64` addition as a release build computes it: the exact sum when it fits, and a result below the first operand when it overflows |
| Bundle.LastBlock | crates/storage/provider/src/change.rs:247-249 | one past the window is `first_block + len` when that fits in `u64`, and wraps below `first_block` when it does not |
| Bundle.BlockNumberToIndex | crates/storage/provider/src/change.rs:195-204 | `None` exactly when the block is below `first_block` or at least `len` blocks past it; otherwise a valid receipts index that, added to `first_block`, gives back the block |
| Bundle.IndexIffInWindow | crates/storage/provider/src/change.rs:195-204 | when the window does not overflow, a block has an index exactly when `first_block <= b < last_block` |
| Bundle.ReceiptsByBlock | crates/storage/provider/src/change.rs:230-234 | an empty slice for a block outside the window, otherwise that block's receipt list |
| Bundle.LogsOfAppend | crates/storage/provider/src/change.rs:207-210 | flattening the logs of receipts distributes over concatenation, so a block's logs are its receipts' logs in order |
| Bundle.Logs | crates/storage/provider/src/change.rs:206-210 | `Some` exactly for blocks inside the window, holding the flattened logs of that block's receipts (empty for a block without receipts) |
| Bundle.Truncate | crates/storage/provider/src/change.rs:262 | `Vec::truncate`: the result is a prefix of the input, of length `min(n, len)` |
| Bundle.RevertToAsWritten | crates/storage/provider/src/change.rs:254-265 | as the arithmetic reads: a block outside the window is a no-op; otherwise `first_block` stays, `len - (index + 1)` blocks remain, and the count handed to `bundle.revert` equals the number of blocks dropped |
| Bundle.RevertToAsWrittenKeepsBlockIff | crates/storage/provider/src/change.rs:253-262 | the as-written arithmetic keeps the given block exactly when `2 * index + 1 < len`, contrary to the doc-comment's promise that the block stays |
| Bundle.RevertToAsWrittenCounterexample | crates/storage/provider/src/change.rs:254-265 | for blocks 100..102, reverting to 102 as written drops all three blocks and reverts three transitions, where the corrected `RevertTo` keeps all three and reverts none |
| Bundle.RevertTo | crates/storage/provider/src/change.rs:251-265 | corrected `revert_to`: a no-op outside the window; otherwise the first `index + 1` blocks stay, the given block is the new last block, `first_block` is unchanged, and `bundle.revert` gets the number of blocks dropped |
| Bundle.DetachLowerPartAt | crates/storage/provider/src/change.rs:275-304 | `None` for `b >= last_block` and `Some(default)` for `b < first_block`, with `self` untouched in both cases; otherwise, with `k = b - first_block + 1`, `self` keeps receipts `[k..]`, starts at `b + 1` and keeps its `last_block`, its bundle detaches `k` lower blocks, and the detached part holds receipts `[..k]` from the old `first_block` |
| Bundle.DetachLowerPartAtAsWritten | crates/storage/provider/src/change.rs:275-304 | `detach_lower_part_at` as written: the same `None` and `Some(default)` cases; in range, `self` is updated exactly as in the corrected detach, and the lower part built by the as-written `revert_to` holds receipts `[..len - k]` from the old `first_block`, with `bundle.revert(k)` |
| Bundle.DetachAsWrittenPartitionsIff | crates/storage/provider/src/change.rs:288-301 | the as-written lower part followed by the remaining part equals the original receipts exactly when `len == 2k`; otherwise the parts overlap or leave a gap |
| Bundle.DetachAsWrittenCounterexample | crates/storage/provider/src/change.rs:288-301 | for blocks 100..102, detaching at 100 as written returns blocks 100 and 101 with `revert(1)` while `self` keeps 101 and 102; the corrected detach returns block 100 with `revert(2)` |
| Bundle.DetachPartitions | crates/storage/provider/src/change.rs:288-301 | the corrected in-range detach splits the window: lower receipts followed by remaining receipts are the originals, and the remaining part starts where the lower part ends |
| Bundle.Extend | crates/storage/provider/src/change.rs:311-314 | `first_block` unchanged, `len` grows by `other.len()`, receipts are the old ones followed by `other`'s, the bundle is extended with `other`'s, and every block already in the window keeps its index and receipts |
| Bundle.ExtendContiguous | crates/storage/provider/src/change.rs:306-314 | when `other` starts right after `self`, each of `other`'s blocks finds its own receipts in the extended bundle at offset `len` |
| Bundle.RevertThenExtendRestores | crates/storage/provider/src/change.rs:254-314 | for the corrected `RevertTo`, reverting to a block and extending with the dropped blocks restores the receipts and the window start |
| Bundle.RevertAsWrittenThenExtendRestores | crates/storage/provider/src/change.rs:254-314 | for `revert_to` as written, extending with the blocks its arithmetic drops (`[len - (index + 1)..]`) restores the receipts and the window start |
| Bundle.DetachThenExtendRestores | crates/storage/provider/src/change.rs:275-314 | for the corrected detach, extending the detached lower part with the remaining bundle restores the original receipts and window start |
| Bundle.NextReceiptIndex | crates/storage/provider/src/change.rs:327 | the first receipt number is 0 for an empty table and otherwise one past the last row's number; in an ascending table it exceeds every existing number |
| Bundle.Numbered | crates/storage/provider/src/change.rs:328-332 | row `k` carries receipt `k` under number `start + k`, one row per receipt |
| Bundle.WriteReceipts | crates/storage/provider/src/change.rs:325-333 | the table is extended by every receipt of every block, in order, under consecutive numbers starting after the last existing one (or at 0); it grows by the sum of the per-block counts and stays ascending |
| Bundle.WriteToDb | crates/storage/provider/src/change.rs:320-340 | receipts are appended as numbered; account history gets exactly the journal's rows; every storage revert entry of journal block `b` is appended to storage history under `first_block + b` and its address, and every appended storage row carries `first_block + b` and the address of a record of some journal block `b`; plain storage is the wiped addresses removed and then the net diff applied; accounts and bytecodes get the net diff |
| StorageList.MergeKeys | crates/storage/provider/src/change.rs:399-446 | the merge emits exactly the keys of the wiped list and of the revert record |
| StorageList.MergeSorted | crates/storage/provider/src/change.rs:402-446 | merging two strictly ascending lists yields a strictly ascending list |
| StorageList.MergeMembers | crates/storage/provider/src/change.rs:419-438 | an entry is emitted exactly when it is in the revert record, or it is wiped and the revert record does not mention its slot |
| StorageList.MergeKeepsRevert | crates/storage/provider/src/change.rs:426-436 | every entry of the revert record is emitted, whatever the inputs' order |
| StorageList.MergeLookup | crates/storage/provider/src/change.rs:431-436 | a shared slot reads the revert record's value, and a wiped-only slot reads the wiped value |
| StorageList.MergeLoop | crates/storage/provider/src/change.rs:402-445 | the two-cursor loop emits exactly the recursive merge; for ascending inputs the result is ascending, and its key set is the union |
| StorageList.DeleteSlot | crates/storage/provider/src/change.rs:489-493 | seek then delete-if-exact removes slot `k` and leaves every other slot's value; ascending order is kept |
| StorageList.InsertSlot | crates/storage/provider/src/change.rs:495-497 | inserting a slot adds exactly its key; a fresh slot reads back its value, keeps the list ascending and leaves every other slot |
| StorageList.SetSlot | crates/storage/provider/src/change.rs:486-498 | after one write, slot `k` holds `v` when `v` is non-zero and is absent when `v` is zero; other slots are unchanged and order is kept |
| Tables.StorageOf | crates/storage/provider/src/change.rs:379-383 | the scan from `seek_exact(address)` visits that address's ascending entries, and is empty exactly when the address has none |
| StateChange.WriteSlot | crates/storage/provider/src/change.rs:486-498 | one slot write keeps the table well formed, makes the slot read its persisted value, and leaves every other (address, slot) unchanged |
| StateChange.WriteSlotsEffect | crates/storage/provider/src/change.rs:486-498 | after one address's writes, each written slot holds its last written value (absent if zero); everything else is unchanged |
| StateChange.WriteStorageEffect | crates/storage/provider/src/change.rs:483-499 | after the storage part, each (address, slot) the diff writes holds the last value written (absent if zero); every other slot is unchanged; the table stays well formed |
| StateChange.WriteAccount | crates/storage/provider/src/change.rs:504-512 | `Some(a)` makes the address read `a`; `None` makes it absent, and changes nothing when it was already absent; other addresses are unchanged |
| StateChange.WriteAccountsEffect | crates/storage/provider/src/change.rs:503-512 | after the account part, a written address holds its last written info (`None` meaning absent), and any other address is unchanged |
| StateChange.WriteBytecodesEffect | crates/storage/provider/src/change.rs:516-519 | each written hash maps to its last written code, and any other hash is unchanged |
| StateChange.Write | crates/storage/provider/src/change.rs:479-521 | the net diff leaves the history tables and the receipts untouched |
| StateChange.WriteEffect | crates/storage/provider/src/change.rs:479-521 | the whole net diff: written slots present exactly when non-zero and then holding the value, written accounts as given, bytecodes upserted, all else unchanged, storage well formed |
| StateChange.ZeroWriteLeavesNoEntry | crates/storage/provider/src/change.rs:489-497 | writing zero to a slot leaves no entry for it, whatever was stored before |
| StateReverts.BlockAt | crates/storage/provider/src/change.rs:366-367 | journal entry `i` is numbered `first_block + i` when that fits in `u64` |
| StateReverts.Captured | crates/storage/provider/src/change.rs:376-388 | with a wipe, the captured list holds the address's current slots in ascending order, each slot reading the value stored in plain storage; without one, nothing is captured |
| StateReverts.RevertEntries | crates/storage/provider/src/change.rs:389-446 | nothing captured means the revert record is written verbatim; otherwise the emitted keys are the union, every revert entry is kept, and for ascending inputs the output is ascending, holds exactly the revert entries plus the wiped entries of unmentioned slots, and reads the revert value on shared slots |
| StateReverts.WriteStorageRevert | crates/storage/provider/src/change.rs:370-446 | one record: a wipe deletes the address's plain storage and nothing else; the table stays well formed; exactly the merged entries (`RevertEntries` of the captured storage and the record) are appended under (block, address); other tables are untouched |
| StateReverts.WriteStorageRevertEntry | crates/storage/provider/src/change.rs:389-446 | every entry of the merge of the captured storage and the record is appended under (block, address) |
| StateReverts.WipedSlotMerged | crates/storage/provider/src/change.rs:376-432 | a captured slot that the record does not mention is in the merge with its pre-wipe value |
| StateReverts.WriteStorageRevertWipedSlot | crates/storage/provider/src/change.rs:376-446 | a wiped slot that the record does not mention is still appended under (block, address), with the value it held in plain storage before the wipe |
| StateReverts.WriteStorageRecordsPlain | crates/storage/provider/src/change.rs:370-388 | one block's records delete exactly the plain storage of the addresses wiped in it |
| StateReverts.WriteStorageRecordsOthers | crates/storage/provider/src/change.rs:370-446 | one block's records touch no table besides plain storage and its history |
| StateReverts.WriteStorageRecordsGrows | crates/storage/provider/src/change.rs:441-444 | the storage history of one block's records only grows by appending |
| StateReverts.WriteStorageRevertCover | crates/storage/provider/src/change.rs:390-444 | every entry of a revert record is appended under its (block, address) |
| StateReverts.WriteStorageRecordsCover | crates/storage/provider/src/change.rs:370-446 | every entry of every record of a block is appended under that block and the record's address |
| StateReverts.WriteStorageRecordsOrigin | crates/storage/provider/src/change.rs:370-446 | every row a block's records append carries that block and the address of one of its records |
| StateReverts.WriteStorageBlocksPlain | crates/storage/provider/src/change.rs:366-388 | the storage journal deletes exactly the plain storage of the addresses wiped in any block |
| StateReverts.WriteStorageBlocksOthers | crates/storage/provider/src/change.rs:366-448 | the storage journal touches no table besides plain storage and its history |
| StateReverts.WriteStorageBlocksGrows | crates/storage/provider/src/change.rs:366-448 | the storage history only grows by appending |
| StateReverts.WriteStorageBlocksCover | crates/storage/provider/src/change.rs:366-446 | every revert entry of journal block `b` is appended under block `first_block + b` and its record's address |
| StateReverts.WriteStorageBlocksOrigin | crates/storage/provider/src/change.rs:366-446 | every appended storage row carries `first_block + b` for some journal block `b` and the address of one of that block's records |
| StateReverts.WriteAccountBlocksAppends | crates/storage/provider/src/change.rs:450-461 | the account journal appends exactly its rows, block after block, and touches nothing else |
| StateReverts.AccountRowsMembers | crates/storage/provider/src/change.rs:453-460 | a row is written exactly when some revert of journal block `b` gives its address and info and the row is under `first_block + b` |
| StateReverts.WriteEffect | crates/storage/provider/src/change.rs:357-464 | the whole revert write: plain storage loses exactly the wiped addresses, accounts, receipts and bytecodes are untouched, the history tables only grow, account rows are exactly the journal's, every storage revert entry is recorded under its block, and every appended storage row carries the block and address of some journal record |

## Left out

- DatabaseError: `?` propagation of cursor and transaction errors is omitted. Every model operation succeeds.
- MDBX cursor mechanics: append ordering checks, dup-sort placement and transaction atomicity are not modelled. History tables and `Receipts` are append logs, and `PlainStorageState` is a map from address to its ascending entries.
- The revm bundle's internals (`revert`, `detach_lower_part_reverts`, `extend`, `take_reverts`, `take_sorted_plain_change_inner`, account/storage/bytecode accessors) are foreign code. The bundle is a symbolic term and the taken values are parameters.
- Bundle.DetachLowerPartAt: differs from the source on the detached part. It builds that part with the corrected `Bundle.RevertTo`; the source as written returns what `Bundle.DetachLowerPartAtAsWritten` returns. The `.expect("there should be detachments")` panic depends on the foreign bundle and is not modelled in either member.
- Bundle.DetachPartitions: holds for the corrected detach only. For the detach as written, `Bundle.DetachAsWrittenPartitionsIff` states when the parts partition the window.
- Bundle.DetachThenExtendRestores: holds for the corrected detach only. The as-written lower part extended with the rest repeats or drops blocks unless `len == 2k`.
- Bundle.WriteReceipts: receipt numbers are unbounded naturals. A `u64` overflow of `next_number` is not modelled, because 2^64 receipts cannot occur.
- Bundle.LastBlock: follows release-build wrap-around. The debug-build overflow panic is not modelled.
- StateReverts.BlockAt: `first_block + i` at lines 367 and 454 follows release-build wrap-around. The debug-build overflow panic is not modelled.
- `omit_changed_check` is passed to the foreign bundle only, so it is not modelled.
- `hash_state_slow` and `state_root_slow` are left out: they need keccak256 hashing and the external trie engine.
- `logs_bloom`, `block_logs_bloom` and `receipts_root_slow` are left out: they need bloom filters and Merkle roots built from foreign primitives.
- `new`, `new_init`, `receipts()` and `first_block()` only construct or expose fields.
- Tracing and the account/bytecode conversion helpers have no effect on table contents.
- StateChange.WriteSlot: when the slot is re-inserted, the model places the entry at its sorted position. MDBX's `upsert` on a dup-sorted table is assumed to do the same.

## Findings

| source | as written | input that shows it | evidently intended | confidence | as-written member | corrected member |
|---|---|---|---|---|---|---|
| crates/storage/provider/src/change.rs:257-264 | `new_len = len - (index + 1)`; receipts truncated to `new_len`; `bundle.revert(len - new_len)`, i.e. `index + 1` transitions | blocks 100, 101, 102 with `first_block = 100`; `revert_to(102)` leaves no blocks and reverts 3 transitions | keep `index + 1` blocks so that the given block stays as the last one, and revert the `len - (index + 1)` later transitions | high, not executed | Bundle.RevertToAsWritten, Bundle.RevertToAsWrittenKeepsBlockIff, Bundle.RevertToAsWrittenCounterexample | Bundle.RevertTo |
| crates/storage/provider/src/change.rs:290-291 | the lower part is a clone reverted by the as-written `revert_to(block_number)`, so it keeps `len - k` blocks and reverts `k` transitions, while `self` keeps blocks `[k..]` | blocks 100, 101, 102; `detach_lower_part_at(100)` returns blocks 100 and 101 and `self` keeps 101 and 102, so block 101 is on both sides | the lower part holds exactly the `k` detached blocks `[..k]` and reverts the `len - k` later transitions, so that the two parts partition the window | high, not executed | Bundle.DetachLowerPartAtAsWritten, Bundle.DetachAsWrittenPartitionsIff, Bundle.DetachAsWrittenCounterexample | Bundle.DetachLowerPartAt, Bundle.DetachPartitions |

The rest of the model uses `Bundle.RevertTo`. In particular,
`Bundle.DetachLowerPartAt` builds the detached lower part with it, which gives
the split at lines 288-301 the meaning its comments describe.
