/**
 * The `BundleState` wrapper: a foreign revm bundle plus one receipt list per
 * block of the contiguous window `[first_block, first_block + len)`, with the
 * range queries, the revert / detach / extend algebra on that window, and
 * the flush to the database.
 */
module Bundle {
  import opened Wrappers
  import opened Primitives
  import opened Tables
  import StateReverts
  import StateChange

  /**
   * The revm bundle is foreign code whose internals are not part of this
   * model. It is kept opaque: each value records the calls the wrapper made on
   * it and the arguments it passed, and nothing else is assumed about them.
   */
  datatype RevmBundle =
    | Empty                                               // `RevmBundleState::default()`
    | Built(id: nat)                                      // a bundle handed to `new` / `new_init`
    | Reverted(base: RevmBundle, transitions: nat)        // `bundle.revert(transitions)`
    | LowerRevertsDetached(base: RevmBundle, blocks: nat) // `bundle.detach_lower_part_reverts(blocks)`
    | Extended(base: RevmBundle, other: RevmBundle)       // `bundle.extend(other)`

  datatype BundleState = BundleState(bundle: RevmBundle, receipts: seq<seq<Receipt>>, firstBlock: u64)

  /** `BundleState::default()`: empty bundle, no receipts, first block 0. */
  const Default: BundleState := BundleState(Empty, [], 0)

  /** Number of blocks in the bundle. */
  function Len(s: BundleState): nat {
    |s.receipts|
  }

  /** One past the bundle's last block: `first_block + len`, wrapping on `u64` overflow. */
  function LastBlock(s: BundleState): (r: u64)
    ensures s.firstBlock + Len(s) < U64_LIMIT ==> r == s.firstBlock + Len(s)
    ensures U64_LIMIT <= s.firstBlock + Len(s) < s.firstBlock + U64_LIMIT ==> r < s.firstBlock
  {
    WrappingAdd(s.firstBlock, Len(s))
  }

  // ---------------------------------------------------------------------------
  // Range queries
  // ---------------------------------------------------------------------------

  /**
   * Index of a block in the receipt list: `None` below `first_block` or at
   * and beyond `first_block + len`, else the offset from `first_block`.
   */
  function BlockNumberToIndex(s: BundleState, blockNumber: u64): (r: Option<nat>)
    ensures r.None? <==> blockNumber < s.firstBlock || blockNumber - s.firstBlock >= Len(s)
    ensures r.Some? ==> r.value < Len(s) && s.firstBlock + r.value == blockNumber
  {
    if s.firstBlock > blockNumber then None
    else
      var index := blockNumber - s.firstBlock;
      if index >= |s.receipts| then None else Some(index)
  }

  /** When the window does not overflow, a block has an index exactly when it lies in `[first_block, last_block)`. */
  lemma IndexIffInWindow(s: BundleState, blockNumber: u64)
    requires s.firstBlock + Len(s) < U64_LIMIT
    ensures BlockNumberToIndex(s, blockNumber).Some? <==> s.firstBlock <= blockNumber < LastBlock(s)
  {
  }

  /** The receipts of one block; an empty slice for a block outside the bundle. */
  function ReceiptsByBlock(s: BundleState, blockNumber: u64): (r: seq<Receipt>)
    ensures BlockNumberToIndex(s, blockNumber).None? ==> r == []
    ensures BlockNumberToIndex(s, blockNumber).Some? ==> r == s.receipts[blockNumber - s.firstBlock]
  {
    match BlockNumberToIndex(s, blockNumber)
    case None => []
    case Some(index) => s.receipts[index]
  }

  function LogsOf(receipts: seq<Receipt>): seq<Log>
    decreases |receipts|
  {
    if receipts == [] then [] else LogsOf(receipts[..|receipts| - 1]) + receipts[|receipts| - 1].logs
  }

  /** Flattening the logs distributes over concatenation of receipt lists. */
  lemma {:induction false} LogsOfAppend(a: seq<Receipt>, b: seq<Receipt>)
    ensures LogsOf(a + b) == LogsOf(a) + LogsOf(b)
    decreases |b|
  {
    if b != [] {
      var b' := b[..|b| - 1];
      assert (a + b)[..|a + b| - 1] == a + b';
      LogsOfAppend(a, b');
    } else {
      assert a + b == a;
    }
  }

  /** All logs of one block in receipt order; `None` for a block outside the bundle. */
  function Logs(s: BundleState, blockNumber: u64): (r: Option<seq<Log>>)
    ensures r.Some? <==> BlockNumberToIndex(s, blockNumber).Some?
    ensures r.Some? ==> r.value == LogsOf(ReceiptsByBlock(s, blockNumber))
    ensures r.Some? && ReceiptsByBlock(s, blockNumber) == [] ==> r.value == []
  {
    match BlockNumberToIndex(s, blockNumber)
    case None => None
    case Some(index) => Some(LogsOf(s.receipts[index]))
  }

  // ---------------------------------------------------------------------------
  // revert_to
  // ---------------------------------------------------------------------------

  /** `Vec::truncate`: keep the first `n` elements, or everything when there are fewer. */
  function Truncate<T>(v: seq<T>, n: nat): (r: seq<T>)
    ensures |r| == if n < |v| then n else |v|
    ensures r <= v
  {
    if n < |v| then v[..n] else v
  }

  /**
   * `revert_to` exactly as its arithmetic reads: `new_len = len - (index + 1)`,
   * the receipts are truncated to `new_len` blocks and the bundle is asked to
   * revert `len - new_len` transitions. A block outside the bundle is a no-op.
   */
  function RevertToAsWritten(s: BundleState, blockNumber: u64): (r: BundleState)
    ensures BlockNumberToIndex(s, blockNumber).None? ==> r == s
    ensures BlockNumberToIndex(s, blockNumber).Some? ==>
              var index := blockNumber - s.firstBlock;
              && r.firstBlock == s.firstBlock
              && r.receipts == s.receipts[..Len(s) - (index + 1)]
              && r.bundle == Reverted(s.bundle, Len(s) - Len(r))
  {
    match BlockNumberToIndex(s, blockNumber)
    case None => s
    case Some(index) =>
      var newLen := Len(s) - (index + 1);
      var rmTrx := Len(s) - newLen;
      s.(receipts := Truncate(s.receipts, newLen), bundle := Reverted(s.bundle, rmTrx))
  }

  /**
   * The as-written arithmetic keeps the given block only when it lies in the
   * lower half of the window, so reverting to the bundle's last block empties it.
   */
  lemma RevertToAsWrittenKeepsBlockIff(s: BundleState, blockNumber: u64)
    requires BlockNumberToIndex(s, blockNumber).Some?
    ensures BlockNumberToIndex(RevertToAsWritten(s, blockNumber), blockNumber).Some? <==>
              2 * (blockNumber - s.firstBlock) + 1 < Len(s)
  {
  }

  /**
   * A concrete witness: blocks 100, 101, 102; reverting to 102 as written
   * drops all three blocks and reverts three transitions, where the corrected
   * `RevertTo` keeps all three and reverts none.
   */
  lemma RevertToAsWrittenCounterexample()
    ensures var s := BundleState(Built(0), [[], [], []], 100);
      && RevertToAsWritten(s, 102).receipts == []
      && RevertToAsWritten(s, 102).bundle == Reverted(Built(0), 3)
      && BlockNumberToIndex(RevertToAsWritten(s, 102), 102).None?
      && RevertTo(s, 102).receipts == s.receipts
      && RevertTo(s, 102).bundle == Reverted(Built(0), 0)
  {
    var s := BundleState(Built(0), [[], [], []], 100);
    assert BlockNumberToIndex(s, 102) == Some(2);
  }

  /**
   * `revert_to` with the arithmetic its doc-comment and its use in
   * `detach_lower_part_at` need: keep `index + 1` blocks so that the given
   * block is the last one left, and revert the `len - (index + 1)` later ones.
   */
  function RevertTo(s: BundleState, blockNumber: u64): (r: BundleState)
    ensures BlockNumberToIndex(s, blockNumber).None? ==> r == s
    ensures BlockNumberToIndex(s, blockNumber).Some? ==>
              var index := blockNumber - s.firstBlock;
              && r.firstBlock == s.firstBlock
              && r.receipts == s.receipts[..index + 1]
              && BlockNumberToIndex(r, blockNumber) == Some(Len(r) - 1)
              && r.bundle == Reverted(s.bundle, Len(s) - Len(r))
  {
    match BlockNumberToIndex(s, blockNumber)
    case None => s
    case Some(index) =>
      var newLen := index + 1;
      var rmTrx := Len(s) - newLen;
      s.(receipts := Truncate(s.receipts, newLen), bundle := Reverted(s.bundle, rmTrx))
  }

  // ---------------------------------------------------------------------------
  // detach_lower_part_at
  // ---------------------------------------------------------------------------

  /**
   * Splits the bundle after `blockNumber`: returns the updated bundle and the
   * detached lower part. `None` when the block is at or past `last_block`; an
   * empty default bundle when it is below `first_block`; in both cases the
   * bundle itself is unchanged.
   */
  function DetachLowerPartAt(s: BundleState, blockNumber: u64): (r: (BundleState, Option<BundleState>))
    ensures blockNumber >= LastBlock(s) ==> r == (s, None)
    ensures blockNumber < LastBlock(s) && blockNumber < s.firstBlock ==> r == (s, Some(Default))
    ensures s.firstBlock <= blockNumber < LastBlock(s) ==>
              var k := blockNumber - s.firstBlock + 1;
              && k <= Len(s)
              && r.0.receipts == s.receipts[k..]
              && r.0.firstBlock == blockNumber + 1
              && LastBlock(r.0) == LastBlock(s)
              && r.0.bundle == LowerRevertsDetached(s.bundle, k)
              && r.1.Some?
              && r.1.value.firstBlock == s.firstBlock
              && r.1.value.receipts == s.receipts[..k]
              && r.1.value.bundle == Reverted(s.bundle, Len(s) - k)
  {
    var lastBlock := LastBlock(s);
    var firstBlock := s.firstBlock;
    if blockNumber >= lastBlock then (s, None)
    else if blockNumber < firstBlock then (s, Some(Default))
    else
      var numOfDetachedBlock := (blockNumber - firstBlock) + 1;
      var detached := RevertTo(s, blockNumber);
      var rest := s.(receipts := s.receipts[numOfDetachedBlock..],
                     bundle := LowerRevertsDetached(s.bundle, numOfDetachedBlock),
                     firstBlock := blockNumber + 1);
      (rest, Some(detached))
  }

  /**
   * An in-range detach partitions the window: the lower part's receipts
   * followed by the remaining ones are the original receipts, and the
   * remaining bundle starts right where the lower part ends.
   */
  lemma DetachPartitions(s: BundleState, blockNumber: u64)
    requires s.firstBlock <= blockNumber < LastBlock(s)
    ensures var (rest, lower) := DetachLowerPartAt(s, blockNumber);
      && lower.Some?
      && lower.value.receipts + rest.receipts == s.receipts
      && lower.value.firstBlock + Len(lower.value) == rest.firstBlock
      && rest.firstBlock + Len(rest) == s.firstBlock + Len(s)
  {
    var k := blockNumber - s.firstBlock + 1;
    assert s.receipts[..k] + s.receipts[k..] == s.receipts;
  }

  /**
   * `detach_lower_part_at` exactly as written: the lower part is built by the
   * as-written `revert_to`, so it holds the first `len - k` blocks and its
   * bundle reverts `k` transitions, while `self` keeps blocks `[k..]`.
   */
  function DetachLowerPartAtAsWritten(s: BundleState, blockNumber: u64): (r: (BundleState, Option<BundleState>))
    ensures blockNumber >= LastBlock(s) ==> r == (s, None)
    ensures blockNumber < LastBlock(s) && blockNumber < s.firstBlock ==> r == (s, Some(Default))
    ensures s.firstBlock <= blockNumber < LastBlock(s) ==>
              var k := blockNumber - s.firstBlock + 1;
              && k <= Len(s)
              && r.0 == DetachLowerPartAt(s, blockNumber).0
              && r.1.Some?
              && r.1.value.firstBlock == s.firstBlock
              && r.1.value.receipts == s.receipts[..Len(s) - k]
              && r.1.value.bundle == Reverted(s.bundle, k)
  {
    var lastBlock := LastBlock(s);
    var firstBlock := s.firstBlock;
    if blockNumber >= lastBlock then (s, None)
    else if blockNumber < firstBlock then (s, Some(Default))
    else
      var numOfDetachedBlock := (blockNumber - firstBlock) + 1;
      var detached := RevertToAsWritten(s, blockNumber);
      var rest := s.(receipts := s.receipts[numOfDetachedBlock..],
                     bundle := LowerRevertsDetached(s.bundle, numOfDetachedBlock),
                     firstBlock := blockNumber + 1);
      (rest, Some(detached))
  }

  /**
   * The as-written detach partitions the window only when it splits it in
   * half: otherwise the two parts overlap or leave a gap.
   */
  lemma DetachAsWrittenPartitionsIff(s: BundleState, blockNumber: u64)
    requires s.firstBlock <= blockNumber < LastBlock(s)
    ensures var (rest, lower) := DetachLowerPartAtAsWritten(s, blockNumber);
      lower.Some? &&
      (lower.value.receipts + rest.receipts == s.receipts <==> Len(s) == 2 * (blockNumber - s.firstBlock + 1))
  {
    var k := blockNumber - s.firstBlock + 1;
    var (rest, lower) := DetachLowerPartAtAsWritten(s, blockNumber);
    if Len(s) == 2 * k {
      assert s.receipts[..Len(s) - k] + s.receipts[k..] == s.receipts;
    } else {
      assert |lower.value.receipts + rest.receipts| != |s.receipts|;
    }
  }

  /**
   * A concrete witness: blocks 100, 101, 102; detaching at 100 as written
   * hands back blocks 100 and 101 with one transition reverted, while the
   * bundle keeps 101 and 102, so block 101 is on both sides. The corrected
   * detach hands back block 100 alone.
   */
  lemma DetachAsWrittenCounterexample()
    ensures var s := BundleState(Built(0), [[], [Receipt(0, true, 1, [])], []], 100);
      && DetachLowerPartAtAsWritten(s, 100).1 == Some(BundleState(Reverted(Built(0), 1), s.receipts[..2], 100))
      && DetachLowerPartAtAsWritten(s, 100).0.receipts == s.receipts[1..]
      && DetachLowerPartAtAsWritten(s, 100).0.firstBlock == 101
      && DetachLowerPartAt(s, 100).1 == Some(BundleState(Reverted(Built(0), 2), s.receipts[..1], 100))
  {
    var s := BundleState(Built(0), [[], [Receipt(0, true, 1, [])], []], 100);
    assert BlockNumberToIndex(s, 100) == Some(0);
  }

  // ---------------------------------------------------------------------------
  // extend
  // ---------------------------------------------------------------------------

  /** Appends `other`'s receipts and hands its bundle to `bundle.extend`; `first_block` stays. */
  function Extend(s: BundleState, other: BundleState): (r: BundleState)
    ensures r.firstBlock == s.firstBlock
    ensures Len(r) == Len(s) + Len(other)
    ensures r.receipts[..Len(s)] == s.receipts && r.receipts[Len(s)..] == other.receipts
    ensures r.bundle == Extended(s.bundle, other.bundle)
    ensures forall b :: BlockNumberToIndex(s, b).Some? ==>
              BlockNumberToIndex(r, b) == BlockNumberToIndex(s, b) && ReceiptsByBlock(r, b) == ReceiptsByBlock(s, b)
  {
    s.(bundle := Extended(s.bundle, other.bundle), receipts := s.receipts + other.receipts)
  }

  /**
   * When `other` covers the blocks right after `s`, every block of `other`
   * finds its own receipts in the extended bundle.
   */
  lemma ExtendContiguous(s: BundleState, other: BundleState, b: u64)
    requires other.firstBlock == s.firstBlock + Len(s)
    requires BlockNumberToIndex(other, b).Some?
    ensures BlockNumberToIndex(Extend(s, other), b) == Some(Len(s) + (b - other.firstBlock))
    ensures ReceiptsByBlock(Extend(s, other), b) == ReceiptsByBlock(other, b)
  {
  }

  /**
   * The inverse law on receipts: reverting to a block and extending with the
   * blocks that were removed restores the receipt list and the window.
   */
  lemma RevertThenExtendRestores(s: BundleState, blockNumber: u64, upper: BundleState)
    requires BlockNumberToIndex(s, blockNumber).Some?
    requires upper.receipts == s.receipts[blockNumber - s.firstBlock + 1..]
    ensures Extend(RevertTo(s, blockNumber), upper).receipts == s.receipts
    ensures Extend(RevertTo(s, blockNumber), upper).firstBlock == s.firstBlock
  {
    var k := blockNumber - s.firstBlock + 1;
    assert s.receipts[..k] + s.receipts[k..] == s.receipts;
  }

  /**
   * The same inverse law for `revert_to` as written: extending with the
   * blocks the literal arithmetic drops restores the receipts and the window.
   */
  lemma RevertAsWrittenThenExtendRestores(s: BundleState, blockNumber: u64, upper: BundleState)
    requires BlockNumberToIndex(s, blockNumber).Some?
    requires upper.receipts == s.receipts[Len(s) - (blockNumber - s.firstBlock + 1)..]
    ensures Extend(RevertToAsWritten(s, blockNumber), upper).receipts == s.receipts
    ensures Extend(RevertToAsWritten(s, blockNumber), upper).firstBlock == s.firstBlock
  {
    var n := Len(s) - (blockNumber - s.firstBlock + 1);
    assert s.receipts[..n] + s.receipts[n..] == s.receipts;
  }

  /** Extending the detached lower part with the remaining bundle restores the receipts and window. */
  lemma DetachThenExtendRestores(s: BundleState, blockNumber: u64)
    requires s.firstBlock <= blockNumber < LastBlock(s)
    ensures var (rest, lower) := DetachLowerPartAt(s, blockNumber);
      && lower.Some?
      && Extend(lower.value, rest).receipts == s.receipts
      && Extend(lower.value, rest).firstBlock == s.firstBlock
  {
    DetachPartitions(s, blockNumber);
  }

  // ---------------------------------------------------------------------------
  // write_to_db: receipt numbering
  // ---------------------------------------------------------------------------

  /** All receipts, block after block. */
  function Flatten(blocks: seq<seq<Receipt>>): seq<Receipt>
    decreases |blocks|
  {
    if blocks == [] then [] else Flatten(blocks[..|blocks| - 1]) + blocks[|blocks| - 1]
  }

  /** Sum of the per-block receipt counts. */
  function TotalCount(blocks: seq<seq<Receipt>>): nat
    decreases |blocks|
  {
    if blocks == [] then 0 else TotalCount(blocks[..|blocks| - 1]) + |blocks[|blocks| - 1]|
  }

  lemma {:induction false} FlattenCount(blocks: seq<seq<Receipt>>)
    ensures |Flatten(blocks)| == TotalCount(blocks)
    decreases |blocks|
  {
    if blocks != [] {
      FlattenCount(blocks[..|blocks| - 1]);
    }
  }

  predicate AscendingRows(table: seq<ReceiptRow>) {
    forall i, j :: 0 <= i < j < |table| ==> table[i].index < table[j].index
  }

  /** The first free receipt number: one past the last row's, or 0 for an empty table. */
  function NextReceiptIndex(table: seq<ReceiptRow>): (next: nat)
    ensures table == [] ==> next == 0
    ensures table != [] ==> next == table[|table| - 1].index + 1
    ensures AscendingRows(table) ==> forall k :: 0 <= k < |table| ==> table[k].index < next
  {
    if table == [] then 0 else table[|table| - 1].index + 1
  }

  /** Rows numbering `rs` consecutively from `start`. */
  function Numbered(rs: seq<Receipt>, start: nat): (rows: seq<ReceiptRow>)
    ensures |rows| == |rs|
    ensures forall k :: 0 <= k < |rows| ==> rows[k] == ReceiptRow(start + k, rs[k])
    decreases |rs|
  {
    if rs == [] then [] else [ReceiptRow(start, rs[0])] + Numbered(rs[1..], start + 1)
  }

  lemma FlattenSnoc(blocks: seq<seq<Receipt>>, i: nat)
    requires i < |blocks|
    ensures Flatten(blocks[..i + 1]) == Flatten(blocks[..i]) + blocks[i]
  {
    assert blocks[..i + 1][..i] == blocks[..i];
  }

  lemma NumberedSnoc(rs: seq<Receipt>, x: Receipt, start: nat)
    ensures Numbered(rs + [x], start) == Numbered(rs, start) + [ReceiptRow(start + |rs|, x)]
  {
    var lhs := Numbered(rs + [x], start);
    var rhs := Numbered(rs, start) + [ReceiptRow(start + |rs|, x)];
    assert |lhs| == |rhs|;
    forall k | 0 <= k < |lhs| ensures lhs[k] == rhs[k] {
      if k < |rs| {
        assert (rs + [x])[k] == rs[k];
      }
    }
  }

  /** Rows numbered from past every existing number keep the table ascending. */
  lemma NumberedAscending(table: seq<ReceiptRow>, rs: seq<Receipt>, start: nat)
    requires AscendingRows(table)
    requires forall k :: 0 <= k < |table| ==> table[k].index < start
    ensures AscendingRows(table + Numbered(rs, start))
  {
    var result := table + Numbered(rs, start);
    forall p, q | 0 <= p < q < |result| ensures result[p].index < result[q].index {
      if q >= |table| {
        assert result[q].index == start + (q - |table|);
        if p >= |table| {
          assert result[p].index == start + (p - |table|);
        }
      }
    }
  }

  /**
   * The receipt loop of `write_to_db`: every receipt of every block is
   * appended under the next global number, starting one past the last
   * existing row (or at 0), with no gaps; the table grows by the sum of the
   * per-block counts and stays in ascending order.
   */
  method WriteReceipts(table: seq<ReceiptRow>, blocks: seq<seq<Receipt>>) returns (result: seq<ReceiptRow>)
    ensures result == table + Numbered(Flatten(blocks), NextReceiptIndex(table))
    ensures |result| == |table| + TotalCount(blocks)
    ensures AscendingRows(table) ==> AscendingRows(result)
  {
    var nextNumber := NextReceiptIndex(table);
    ghost var start := nextNumber;
    result := table;
    for i := 0 to |blocks|
      invariant result == table + Numbered(Flatten(blocks[..i]), start)
      invariant nextNumber == start + |Flatten(blocks[..i])|
    {
      ghost var done := Flatten(blocks[..i]);
      for j := 0 to |blocks[i]|
        invariant result == table + Numbered(done + blocks[i][..j], start)
        invariant nextNumber == start + |done| + j
      {
        var receipt := blocks[i][j];
        assert done + blocks[i][..j + 1] == (done + blocks[i][..j]) + [receipt];
        NumberedSnoc(done + blocks[i][..j], receipt, start);
        result := result + [ReceiptRow(nextNumber, receipt)];
        nextNumber := nextNumber + 1;
      }
      assert blocks[i][..|blocks[i]|] == blocks[i];
      FlattenSnoc(blocks, i);
    }
    assert blocks[..|blocks|] == blocks;
    FlattenCount(blocks);
    if AscendingRows(table) {
      NumberedAscending(table, Flatten(blocks), start);
    }
  }

  /**
   * `write_to_db` consumes the bundle: receipts first, then the reverts taken
   * from the bundle written from `first_block`, then the plain state change.
   * `reverts` and `change` are what the foreign bundle hands out for
   * `take_reverts` and `take_sorted_plain_change_inner`.
   */
  method WriteToDb(s: BundleState, db: Db, reverts: StateReverts.Reverts, change: StateChange.StateChangeset)
    returns (db': Db)
    ensures db'.receipts == db.receipts + Numbered(Flatten(s.receipts), NextReceiptIndex(db.receipts))
    ensures db'.accountChangeSets == db.accountChangeSets + StateReverts.AccountRows(s.firstBlock, reverts.accounts, 0)
    ensures db'.plainAccounts == StateChange.WriteAccounts(db.plainAccounts, change.accounts)
    ensures db'.bytecodes == StateChange.WriteBytecodes(db.bytecodes, change.contracts)
    ensures db'.plainStorage ==
              StateChange.WriteStorage(db.plainStorage - StateReverts.WipedFrom(reverts.storage, 0), change.storage)
    ensures forall b, j, e ::
              0 <= b < |reverts.storage| && 0 <= j < |reverts.storage[b]| && e in reverts.storage[b][j].storage ==>
                StateReverts.Appended(db.storageChangeSets, db'.storageChangeSets,
                                      StorageChangeRow(StateReverts.BlockAt(s.firstBlock, b), reverts.storage[b][j].address, e))
    ensures forall k :: |db.storageChangeSets| <= k < |db'.storageChangeSets| ==>
              exists b, j :: 0 <= b < |reverts.storage| && 0 <= j < |reverts.storage[b]| &&
                db'.storageChangeSets[k].block == StateReverts.BlockAt(s.firstBlock, b) &&
                db'.storageChangeSets[k].address == reverts.storage[b][j].address
  {
    var receipts := WriteReceipts(db.receipts, s.receipts);
    var db1 := db.(receipts := receipts);
    var db2 := StateReverts.Write(db1, reverts, s.firstBlock);
    StateReverts.WriteEffect(db1, reverts, s.firstBlock);
    db' := StateChange.Write(db2, change);
  }
}
