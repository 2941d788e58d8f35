/**
 * `StateReverts::write_to_db`: turns the per-block revert journal into the
 * `StorageChangeSet` and `AccountChangeSet` history tables, wiping the plain
 * storage of destroyed accounts on the way.
 */
module StateReverts {
  import opened Wrappers
  import opened Primitives
  import opened StorageList
  import opened Tables

  /** Prior account info of one address in one block (`None`: it did not exist). */
  datatype AccountRevert = AccountRevert(address: Address, info: Option<Account>)

  /** Prior storage of one address in one block, ascending by slot, and whether it was wiped. */
  datatype StorageRevert = StorageRevert(address: Address, wipe: bool, storage: Slots)

  /** The reverts taken from the foreign bundle: entry `i` of each belongs to the bundle's `i`-th block. */
  datatype Reverts = Reverts(storage: seq<seq<StorageRevert>>, accounts: seq<seq<AccountRevert>>)

  /** Block number of the `i`-th journal entry: `first_block + i` on `u64`. */
  function BlockAt(first: u64, i: nat): (b: u64)
    ensures first + i < U64_LIMIT ==> b == first + i
  {
    WrappingAdd(first, i)
  }

  // ---------------------------------------------------------------------------
  // One (block, address) storage revert
  // ---------------------------------------------------------------------------

  /** The plain storage captured before a wipe; nothing is captured without one. */
  function Captured(t: PlainStorage, rev: StorageRevert): (w: Slots)
    ensures WellFormedStorage(t) ==> StrictlySorted(w)
    ensures rev.wipe ==> Keys(w) == Keys(StorageOf(t, rev.address))
    ensures rev.wipe ==> forall k :: Get(w, k) == Lookup(t, rev.address, k)
    ensures !rev.wipe ==> w == []
  {
    if rev.wipe then StorageOf(t, rev.address) else []
  }

  /**
   * The change-set entries written for one revert record: the record verbatim
   * when nothing was captured, otherwise its merge with the captured storage.
   */
  function RevertEntries(wiped: Slots, revert: Slots): (out: Slots)
    ensures wiped == [] ==> out == revert
    ensures Keys(out) == Keys(wiped) + Keys(revert)
    ensures forall e :: e in revert ==> e in out
    ensures StrictlySorted(wiped) && StrictlySorted(revert) ==> StrictlySorted(out)
    ensures StrictlySorted(wiped) && StrictlySorted(revert) ==>
              forall e :: e in out <==> e in revert || (e in wiped && e.key !in Keys(revert))
    ensures StrictlySorted(wiped) && StrictlySorted(revert) ==>
              forall k :: Get(out, k) == (if k in Keys(revert) then Get(revert, k) else Get(wiped, k))
  {
    if wiped == [] then
      assert forall k :: Get(revert, k) == (if k in Keys(revert) then Get(revert, k) else None) by {
        forall k ensures Get(revert, k) == (if k in Keys(revert) then Get(revert, k) else None) {
          GetSomeIffKey(revert, k);
        }
      }
      revert
    else
      MergeKeys(wiped, revert);
      assert forall e :: e in revert ==> e in Merge(wiped, revert) by {
        forall e | e in revert ensures e in Merge(wiped, revert) {
          MergeKeepsRevert(wiped, revert, e);
        }
      }
      assert StrictlySorted(wiped) && StrictlySorted(revert) ==> MergeSortedFacts(wiped, revert) by {
        if StrictlySorted(wiped) && StrictlySorted(revert) {
          MergeSortedFactsHold(wiped, revert);
        }
      }
      Merge(wiped, revert)
  }

  /** What the merge of two strictly ascending lists guarantees. */
  ghost predicate MergeSortedFacts(wiped: Slots, revert: Slots) {
    && StrictlySorted(Merge(wiped, revert))
    && (forall e :: e in Merge(wiped, revert) <==> e in revert || (e in wiped && e.key !in Keys(revert)))
    && (forall k :: Get(Merge(wiped, revert), k) == (if k in Keys(revert) then Get(revert, k) else Get(wiped, k)))
  }

  lemma MergeSortedFactsHold(wiped: Slots, revert: Slots)
    requires StrictlySorted(wiped) && StrictlySorted(revert)
    ensures MergeSortedFacts(wiped, revert)
  {
    MergeSorted(wiped, revert);
    forall e ensures e in Merge(wiped, revert) <==> e in revert || (e in wiped && e.key !in Keys(revert)) {
      MergeMembers(wiped, revert, e);
    }
    forall k ensures Get(Merge(wiped, revert), k) == (if k in Keys(revert) then Get(revert, k) else Get(wiped, k)) {
      MergeLookup(wiped, revert, k);
    }
  }

  /** Change-set rows for one (block, address). */
  function Tag(block: u64, a: Address, entries: Slots): (rows: seq<StorageChangeRow>)
    ensures |rows| == |entries|
    ensures forall k :: 0 <= k < |rows| ==> rows[k] == StorageChangeRow(block, a, entries[k])
  {
    seq(|entries|, k requires 0 <= k < |entries| => StorageChangeRow(block, a, entries[k]))
  }

  /**
   * One revert record of one block: capture and delete the address's plain
   * storage when wiped, then append the revert entries under (block, address).
   */
  function WriteStorageRevert(db: Db, block: u64, rev: StorageRevert): (db': Db)
    ensures forall a :: StorageOf(db'.plainStorage, a) ==
              (if rev.wipe && a == rev.address then [] else StorageOf(db.plainStorage, a))
    ensures rev.wipe ==> rev.address !in db'.plainStorage
    ensures WellFormedStorage(db.plainStorage) ==> WellFormedStorage(db'.plainStorage)
    ensures db'.storageChangeSets ==
              db.storageChangeSets + Tag(block, rev.address, RevertEntries(Captured(db.plainStorage, rev), rev.storage))
    ensures db'.plainAccounts == db.plainAccounts && db'.accountChangeSets == db.accountChangeSets
    ensures db'.receipts == db.receipts && db'.bytecodes == db.bytecodes
  {
    var wiped := Captured(db.plainStorage, rev);
    var plain := if rev.wipe then db.plainStorage - {rev.address} else db.plainStorage;
    db.(plainStorage := plain,
        storageChangeSets := db.storageChangeSets + Tag(block, rev.address, RevertEntries(wiped, rev.storage)))
  }

  // ---------------------------------------------------------------------------
  // All storage reverts
  // ---------------------------------------------------------------------------

  function WriteStorageRecords(db: Db, block: u64, recs: seq<StorageRevert>): Db
    decreases |recs|
  {
    if recs == [] then db else WriteStorageRecords(WriteStorageRevert(db, block, recs[0]), block, recs[1..])
  }

  /** Blocks `i..` of the storage journal, block `i` written under `BlockAt(first, i)`. */
  function WriteStorageBlocks(db: Db, first: u64, blocks: seq<seq<StorageRevert>>, i: nat): Db
    requires i <= |blocks|
    decreases |blocks| - i
  {
    if i == |blocks| then db
    else WriteStorageBlocks(WriteStorageRecords(db, BlockAt(first, i), blocks[i]), first, blocks, i + 1)
  }

  function WipedIn(recs: seq<StorageRevert>): set<Address> {
    set j | 0 <= j < |recs| && recs[j].wipe :: recs[j].address
  }

  function WipedFrom(blocks: seq<seq<StorageRevert>>, i: nat): set<Address>
    requires i <= |blocks|
    decreases |blocks| - i
  {
    if i == |blocks| then {} else WipedIn(blocks[i]) + WipedFrom(blocks, i + 1)
  }

  /** A row appended past `before`, found at some position of `after`. */
  predicate Appended<T(==)>(before: seq<T>, after: seq<T>, row: T) {
    exists k :: |before| <= k < |after| && after[k] == row
  }

  lemma WipedInCons(recs: seq<StorageRevert>)
    requires recs != []
    ensures WipedIn(recs) == (if recs[0].wipe then {recs[0].address} else {}) + WipedIn(recs[1..])
  {
    forall a | a in WipedIn(recs) ensures a in (if recs[0].wipe then {recs[0].address} else {}) + WipedIn(recs[1..]) {
      var j :| 0 <= j < |recs| && recs[j].wipe && recs[j].address == a;
      if j > 0 { assert recs[1..][j - 1] == recs[j]; }
    }
    forall a | a in WipedIn(recs[1..]) ensures a in WipedIn(recs) {
      var j :| 0 <= j < |recs[1..]| && recs[1..][j].wipe && recs[1..][j].address == a;
      assert recs[j + 1] == recs[1..][j];
    }
  }

  lemma RemoveTwice(t: PlainStorage, a: set<Address>, b: set<Address>)
    ensures (t - a) - b == t - (a + b)
  {
  }

  lemma RemoveChain(t: PlainStorage, t1: PlainStorage, t2: PlainStorage, a: set<Address>, b: set<Address>)
    requires t1 == t - a && t2 == t1 - b
    ensures t2 == t - (a + b)
  {
  }

  /** The tables a storage revert never touches. */
  predicate OtherTablesSame(db: Db, db': Db) {
    && db'.plainAccounts == db.plainAccounts && db'.accountChangeSets == db.accountChangeSets
    && db'.receipts == db.receipts && db'.bytecodes == db.bytecodes
  }

  /** The records of one block delete exactly the wiped addresses' plain storage. */
  lemma {:induction false} WriteStorageRecordsPlain(db: Db, block: u64, recs: seq<StorageRevert>)
    ensures WriteStorageRecords(db, block, recs).plainStorage == db.plainStorage - WipedIn(recs)
    decreases |recs|
  {
    if recs == [] {
      assert WipedIn(recs) == {};
    } else {
      var db1 := WriteStorageRevert(db, block, recs[0]);
      WriteStorageRecordsPlain(db1, block, recs[1..]);
      WipedInCons(recs);
      var head: set<Address> := if recs[0].wipe then {recs[0].address} else {};
      assert db1.plainStorage == db.plainStorage - head;
      RemoveTwice(db.plainStorage, head, WipedIn(recs[1..]));
    }
  }

  /** The records of one block touch no table but the plain storage and its history. */
  lemma {:induction false} WriteStorageRecordsOthers(db: Db, block: u64, recs: seq<StorageRevert>)
    ensures OtherTablesSame(db, WriteStorageRecords(db, block, recs))
    decreases |recs|
  {
    if recs != [] {
      WriteStorageRecordsOthers(WriteStorageRevert(db, block, recs[0]), block, recs[1..]);
    }
  }

  lemma {:induction false} WriteStorageRecordsGrows(db: Db, block: u64, recs: seq<StorageRevert>)
    ensures db.storageChangeSets <= WriteStorageRecords(db, block, recs).storageChangeSets
    decreases |recs|
  {
    if recs != [] {
      WriteStorageRecordsGrows(WriteStorageRevert(db, block, recs[0]), block, recs[1..]);
    }
  }

  lemma {:induction false} WriteStorageBlocksGrows(db: Db, first: u64, blocks: seq<seq<StorageRevert>>, i: nat)
    requires i <= |blocks|
    ensures db.storageChangeSets <= WriteStorageBlocks(db, first, blocks, i).storageChangeSets
    decreases |blocks| - i
  {
    if i < |blocks| {
      var db1 := WriteStorageRecords(db, BlockAt(first, i), blocks[i]);
      WriteStorageRecordsGrows(db, BlockAt(first, i), blocks[i]);
      WriteStorageBlocksGrows(db1, first, blocks, i + 1);
    }
  }

  lemma AppendedThenGrown<T>(before: seq<T>, mid: seq<T>, after: seq<T>, row: T)
    requires mid <= after && Appended(before, mid, row)
    ensures Appended(before, after, row)
  {
    var k :| |before| <= k < |mid| && mid[k] == row;
    assert after[k] == row;
  }

  lemma GrownThenAppended<T>(before: seq<T>, mid: seq<T>, after: seq<T>, row: T)
    requires before <= mid && Appended(mid, after, row)
    ensures Appended(before, after, row)
  {
    var k :| |mid| <= k < |after| && after[k] == row;
    assert |before| <= k;
  }

  /** Every merged entry of one record is appended under (block, address). */
  lemma WriteStorageRevertEntry(db: Db, block: u64, rev: StorageRevert, e: StorageEntry)
    requires e in RevertEntries(Captured(db.plainStorage, rev), rev.storage)
    ensures Appended(db.storageChangeSets, WriteStorageRevert(db, block, rev).storageChangeSets,
                     StorageChangeRow(block, rev.address, e))
  {
    var entries := RevertEntries(Captured(db.plainStorage, rev), rev.storage);
    var p :| 0 <= p < |entries| && entries[p] == e;
    var k := |db.storageChangeSets| + p;
    assert WriteStorageRevert(db, block, rev).storageChangeSets[k] == StorageChangeRow(block, rev.address, e);
  }

  lemma WriteStorageRevertCover(db: Db, block: u64, rev: StorageRevert, e: StorageEntry)
    requires e in rev.storage
    ensures Appended(db.storageChangeSets, WriteStorageRevert(db, block, rev).storageChangeSets,
                     StorageChangeRow(block, rev.address, e))
  {
    WriteStorageRevertEntry(db, block, rev, e);
  }

  /** A captured slot the record does not mention survives the merge. */
  lemma WipedSlotMerged(t: PlainStorage, rev: StorageRevert, k: U256, v: U256)
    requires WellFormedStorage(t) && StrictlySorted(rev.storage)
    requires rev.wipe && Lookup(t, rev.address, k) == Some(v)
    requires k !in Keys(rev.storage)
    ensures StorageEntry(k, v) in RevertEntries(Captured(t, rev), rev.storage)
  {
    var wiped := Captured(t, rev);
    GetSorted(wiped, k, v);
  }

  /**
   * A wiped slot the record does not mention is still appended, with the value
   * it held in plain storage just before the wipe.
   */
  lemma WriteStorageRevertWipedSlot(db: Db, block: u64, rev: StorageRevert, k: U256, v: U256)
    requires WellFormedStorage(db.plainStorage) && StrictlySorted(rev.storage)
    requires rev.wipe && Lookup(db.plainStorage, rev.address, k) == Some(v)
    requires k !in Keys(rev.storage)
    ensures Appended(db.storageChangeSets, WriteStorageRevert(db, block, rev).storageChangeSets,
                     StorageChangeRow(block, rev.address, StorageEntry(k, v)))
  {
    WipedSlotMerged(db.plainStorage, rev, k, v);
    WriteStorageRevertEntry(db, block, rev, StorageEntry(k, v));
  }

  /** Every entry of a revert record of the block is appended under (block, address). */
  lemma {:induction false} WriteStorageRecordsCover(db: Db, block: u64, recs: seq<StorageRevert>, j: nat, e: StorageEntry)
    requires j < |recs| && e in recs[j].storage
    ensures Appended(db.storageChangeSets, WriteStorageRecords(db, block, recs).storageChangeSets,
                     StorageChangeRow(block, recs[j].address, e))
    decreases |recs|
  {
    var db1 := WriteStorageRevert(db, block, recs[0]);
    var db' := WriteStorageRecords(db1, block, recs[1..]);
    assert db' == WriteStorageRecords(db, block, recs);
    WriteStorageRecordsGrows(db1, block, recs[1..]);
    var row := StorageChangeRow(block, recs[j].address, e);
    if j == 0 {
      WriteStorageRevertCover(db, block, recs[0], e);
      AppendedThenGrown(db.storageChangeSets, db1.storageChangeSets, db'.storageChangeSets, row);
    } else {
      assert recs[1..][j - 1] == recs[j];
      WriteStorageRecordsCover(db1, block, recs[1..], j - 1, e);
      GrownThenAppended(db.storageChangeSets, db1.storageChangeSets, db'.storageChangeSets, row);
    }
  }

  /** Every row the records of one block append carries the block and the address of one of them. */
  lemma {:induction false} WriteStorageRecordsOrigin(db: Db, block: u64, recs: seq<StorageRevert>, k: nat)
    requires |db.storageChangeSets| <= k < |WriteStorageRecords(db, block, recs).storageChangeSets|
    ensures var row := WriteStorageRecords(db, block, recs).storageChangeSets[k];
      row.block == block && exists j :: 0 <= j < |recs| && row.address == recs[j].address
    decreases |recs|
  {
    var db' := WriteStorageRecords(db, block, recs);
    if recs != [] {
      var db1 := WriteStorageRevert(db, block, recs[0]);
      WriteStorageRecordsGrows(db1, block, recs[1..]);
      if k < |db1.storageChangeSets| {
        assert db'.storageChangeSets[k] == db1.storageChangeSets[k];
        assert db'.storageChangeSets[k].address == recs[0].address;
      } else {
        WriteStorageRecordsOrigin(db1, block, recs[1..], k);
        var j :| 0 <= j < |recs[1..]| && db'.storageChangeSets[k].address == recs[1..][j].address;
        assert recs[1..][j] == recs[j + 1];
      }
    }
  }

  /** The storage half of the write deletes the plain storage of exactly the wiped addresses. */
  lemma {:induction false} WriteStorageBlocksPlain(db: Db, first: u64, blocks: seq<seq<StorageRevert>>, i: nat)
    requires i <= |blocks|
    ensures WriteStorageBlocks(db, first, blocks, i).plainStorage == db.plainStorage - WipedFrom(blocks, i)
    decreases |blocks| - i
  {
    if i < |blocks| {
      var db1 := WriteStorageRecords(db, BlockAt(first, i), blocks[i]);
      var here, later := WipedIn(blocks[i]), WipedFrom(blocks, i + 1);
      WriteStorageRecordsPlain(db, BlockAt(first, i), blocks[i]);
      WriteStorageBlocksPlain(db1, first, blocks, i + 1);
      RemoveChain(db.plainStorage, db1.plainStorage, WriteStorageBlocks(db1, first, blocks, i + 1).plainStorage,
                  here, later);
    }
  }

  /** The storage half of the write touches no other table. */
  lemma {:induction false} WriteStorageBlocksOthers(db: Db, first: u64, blocks: seq<seq<StorageRevert>>, i: nat)
    requires i <= |blocks|
    ensures OtherTablesSame(db, WriteStorageBlocks(db, first, blocks, i))
    decreases |blocks| - i
  {
    if i < |blocks| {
      var db1 := WriteStorageRecords(db, BlockAt(first, i), blocks[i]);
      WriteStorageRecordsOthers(db, BlockAt(first, i), blocks[i]);
      WriteStorageBlocksOthers(db1, first, blocks, i + 1);
    }
  }

  /** Every revert entry of journal block `b` is recorded under block `first_block + b`. */
  lemma {:induction false} WriteStorageBlocksCover(db: Db, first: u64, blocks: seq<seq<StorageRevert>>, i: nat,
                                                   b: nat, j: nat, e: StorageEntry)
    requires i <= b < |blocks| && j < |blocks[b]| && e in blocks[b][j].storage
    ensures Appended(db.storageChangeSets, WriteStorageBlocks(db, first, blocks, i).storageChangeSets,
                     StorageChangeRow(BlockAt(first, b), blocks[b][j].address, e))
    decreases |blocks| - i
  {
    var db1 := WriteStorageRecords(db, BlockAt(first, i), blocks[i]);
    var db' := WriteStorageBlocks(db1, first, blocks, i + 1);
    assert db' == WriteStorageBlocks(db, first, blocks, i);
    var row := StorageChangeRow(BlockAt(first, b), blocks[b][j].address, e);
    if b == i {
      WriteStorageRecordsCover(db, BlockAt(first, i), blocks[i], j, e);
      WriteStorageBlocksGrows(db1, first, blocks, i + 1);
      AppendedThenGrown(db.storageChangeSets, db1.storageChangeSets, db'.storageChangeSets, row);
    } else {
      WriteStorageBlocksCover(db1, first, blocks, i + 1, b, j, e);
      WriteStorageRecordsGrows(db, BlockAt(first, i), blocks[i]);
      GrownThenAppended(db.storageChangeSets, db1.storageChangeSets, db'.storageChangeSets, row);
    }
  }

  /** Every appended storage row carries the block number and address of some revert record. */
  lemma {:induction false} WriteStorageBlocksOrigin(db: Db, first: u64, blocks: seq<seq<StorageRevert>>, i: nat, k: nat)
    requires i <= |blocks|
    requires |db.storageChangeSets| <= k < |WriteStorageBlocks(db, first, blocks, i).storageChangeSets|
    ensures var row := WriteStorageBlocks(db, first, blocks, i).storageChangeSets[k];
      exists b, j :: i <= b < |blocks| && 0 <= j < |blocks[b]| &&
        row.block == BlockAt(first, b) && row.address == blocks[b][j].address
    decreases |blocks| - i
  {
    var db' := WriteStorageBlocks(db, first, blocks, i);
    if i < |blocks| {
      var db1 := WriteStorageRecords(db, BlockAt(first, i), blocks[i]);
      WriteStorageBlocksGrows(db1, first, blocks, i + 1);
      if k < |db1.storageChangeSets| {
        assert db'.storageChangeSets[k] == db1.storageChangeSets[k];
        WriteStorageRecordsOrigin(db, BlockAt(first, i), blocks[i], k);
        var j :| 0 <= j < |blocks[i]| && db1.storageChangeSets[k].address == blocks[i][j].address;
      } else {
        WriteStorageBlocksOrigin(db1, first, blocks, i + 1, k);
      }
    }
  }

  // ---------------------------------------------------------------------------
  // Account reverts
  // ---------------------------------------------------------------------------

  function AccountTag(block: u64, recs: seq<AccountRevert>): (rows: seq<AccountChangeRow>)
    ensures |rows| == |recs|
    ensures forall k :: 0 <= k < |rows| ==> rows[k] == AccountChangeRow(block, recs[k].address, recs[k].info)
  {
    seq(|recs|, k requires 0 <= k < |recs| => AccountChangeRow(block, recs[k].address, recs[k].info))
  }

  /** Blocks `i..` of the account journal, one row per (block, address), no merge. */
  function WriteAccountBlocks(db: Db, first: u64, blocks: seq<seq<AccountRevert>>, i: nat): Db
    requires i <= |blocks|
    decreases |blocks| - i
  {
    if i == |blocks| then db
    else
      var rows := AccountTag(BlockAt(first, i), blocks[i]);
      WriteAccountBlocks(db.(accountChangeSets := db.accountChangeSets + rows), first, blocks, i + 1)
  }

  /** The rows the account journal's blocks `i..` produce, in write order. */
  function AccountRows(first: u64, blocks: seq<seq<AccountRevert>>, i: nat): seq<AccountChangeRow>
    requires i <= |blocks|
    decreases |blocks| - i
  {
    if i == |blocks| then [] else AccountTag(BlockAt(first, i), blocks[i]) + AccountRows(first, blocks, i + 1)
  }

  /** The account half of the write appends the journal's rows and touches nothing else. */
  lemma {:induction false} WriteAccountBlocksAppends(db: Db, first: u64, blocks: seq<seq<AccountRevert>>, i: nat)
    requires i <= |blocks|
    ensures WriteAccountBlocks(db, first, blocks, i) ==
              db.(accountChangeSets := db.accountChangeSets + AccountRows(first, blocks, i))
    decreases |blocks| - i
  {
    if i < |blocks| {
      var rows := AccountTag(BlockAt(first, i), blocks[i]);
      var db1 := db.(accountChangeSets := db.accountChangeSets + rows);
      WriteAccountBlocksAppends(db1, first, blocks, i + 1);
      assert db.accountChangeSets + rows + AccountRows(first, blocks, i + 1) ==
             db.accountChangeSets + AccountRows(first, blocks, i);
    }
  }

  /**
   * Exactly one row per account revert, the `b`-th block's under
   * `first_block + b`: a row is written iff some revert of that block gives it.
   */
  lemma {:induction false} AccountRowsMembers(first: u64, blocks: seq<seq<AccountRevert>>, i: nat, row: AccountChangeRow)
    requires i <= |blocks|
    ensures row in AccountRows(first, blocks, i) <==>
              exists b, j :: i <= b < |blocks| && 0 <= j < |blocks[b]| &&
                row == AccountChangeRow(BlockAt(first, b), blocks[b][j].address, blocks[b][j].info)
    decreases |blocks| - i
  {
    if i < |blocks| {
      var rows := AccountTag(BlockAt(first, i), blocks[i]);
      var later := AccountRows(first, blocks, i + 1);
      assert AccountRows(first, blocks, i) == rows + later;
      AccountRowsMembers(first, blocks, i + 1, row);
      if row in rows {
        var j :| 0 <= j < |rows| && rows[j] == row;
        assert row == AccountChangeRow(BlockAt(first, i), blocks[i][j].address, blocks[i][j].info);
      } else if row in later {
        var b, j :| i + 1 <= b < |blocks| && 0 <= j < |blocks[b]| &&
          row == AccountChangeRow(BlockAt(first, b), blocks[b][j].address, blocks[b][j].info);
        assert i <= b;
      }
      if exists b, j :: i <= b < |blocks| && 0 <= j < |blocks[b]| &&
           row == AccountChangeRow(BlockAt(first, b), blocks[b][j].address, blocks[b][j].info)
      {
        var b, j :| i <= b < |blocks| && 0 <= j < |blocks[b]| &&
          row == AccountChangeRow(BlockAt(first, b), blocks[b][j].address, blocks[b][j].info);
        if b == i {
          assert rows[j] == row;
          assert row in rows;
        } else {
          assert row in later;
        }
      }
    }
  }

  // ---------------------------------------------------------------------------
  // The whole write
  // ---------------------------------------------------------------------------

  /** All storage reverts first, then all account reverts, both numbered from `first`. */
  function Write(db: Db, reverts: Reverts, first: u64): Db {
    var db1 := WriteStorageBlocks(db, first, reverts.storage, 0);
    WriteAccountBlocks(db1, first, reverts.accounts, 0)
  }

  /**
   * The reverts' write as a whole: plain storage loses exactly the wiped
   * addresses; change-set tables only grow; the account rows appended are
   * the journal's rows (see `AccountRowsMembers`); every storage revert entry is
   * recorded under its block number; accounts, receipts and bytecodes are untouched.
   */
  lemma WriteEffect(db: Db, reverts: Reverts, first: u64)
    ensures var db' := Write(db, reverts, first);
      && db'.plainStorage == db.plainStorage - WipedFrom(reverts.storage, 0)
      && db'.plainAccounts == db.plainAccounts
      && db'.receipts == db.receipts && db'.bytecodes == db.bytecodes
      && db.accountChangeSets <= db'.accountChangeSets
      && db.storageChangeSets <= db'.storageChangeSets
      && db'.accountChangeSets == db.accountChangeSets + AccountRows(first, reverts.accounts, 0)
      && (forall b, j, e ::
            0 <= b < |reverts.storage| && 0 <= j < |reverts.storage[b]| && e in reverts.storage[b][j].storage ==>
              Appended(db.storageChangeSets, db'.storageChangeSets,
                       StorageChangeRow(BlockAt(first, b), reverts.storage[b][j].address, e)))
      && (forall k :: |db.storageChangeSets| <= k < |db'.storageChangeSets| ==>
            exists b, j :: 0 <= b < |reverts.storage| && 0 <= j < |reverts.storage[b]| &&
              db'.storageChangeSets[k].block == BlockAt(first, b) &&
              db'.storageChangeSets[k].address == reverts.storage[b][j].address)
  {
    var db1 := WriteStorageBlocks(db, first, reverts.storage, 0);
    var db' := Write(db, reverts, first);
    WriteStorageBlocksPlain(db, first, reverts.storage, 0);
    WriteStorageBlocksOthers(db, first, reverts.storage, 0);
    WriteStorageBlocksGrows(db, first, reverts.storage, 0);
    WriteAccountBlocksAppends(db1, first, reverts.accounts, 0);
    forall b, j, e | 0 <= b < |reverts.storage| && 0 <= j < |reverts.storage[b]| && e in reverts.storage[b][j].storage
      ensures Appended(db.storageChangeSets, db'.storageChangeSets,
                       StorageChangeRow(BlockAt(first, b), reverts.storage[b][j].address, e))
    {
      WriteStorageBlocksCover(db, first, reverts.storage, 0, b, j, e);
    }
    forall k | |db.storageChangeSets| <= k < |db'.storageChangeSets|
      ensures exists b, j :: 0 <= b < |reverts.storage| && 0 <= j < |reverts.storage[b]| &&
                db'.storageChangeSets[k].block == BlockAt(first, b) &&
                db'.storageChangeSets[k].address == reverts.storage[b][j].address
    {
      WriteStorageBlocksOrigin(db, first, reverts.storage, 0, k);
    }
  }
}
