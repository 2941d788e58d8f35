/**
 * Lists of storage entries kept in ascending slot order: the duplicates of one
 * address in `PlainStorageState`, a revert record's (slot, old value) list, and
 * the two-cursor merge that combines wiped storage with a revert record.
 */
module StorageList {
  import opened Wrappers
  import opened Primitives

  type Slots = seq<StorageEntry>

  /** Keys strictly ascending: sorted and free of duplicate slots. */
  predicate StrictlySorted(s: Slots) {
    forall i, j :: 0 <= i < j < |s| ==> s[i].key < s[j].key
  }

  function Keys(s: Slots): set<U256> {
    set i | 0 <= i < |s| :: s[i].key
  }

  /** The value stored under `k`, taken from the first entry with that key. */
  function Get(s: Slots, k: U256): Option<U256> {
    if s == [] then None
    else if s[0].key == k then Some(s[0].value)
    else Get(s[1..], k)
  }

  lemma KeysCons(s: Slots)
    requires s != []
    ensures Keys(s) == {s[0].key} + Keys(s[1..])
  {
    var t := s[1..];
    forall k | k in Keys(s) ensures k in {s[0].key} + Keys(t) {
      var i :| 0 <= i < |s| && s[i].key == k;
      if i > 0 { assert t[i - 1].key == k; }
    }
    forall k | k in Keys(t) ensures k in Keys(s) {
      var i :| 0 <= i < |t| && t[i].key == k;
      assert s[i + 1].key == k;
    }
  }

  lemma {:induction false} GetSomeIffKey(s: Slots, k: U256)
    ensures Get(s, k).Some? <==> k in Keys(s)
    decreases |s|
  {
    if s != [] {
      KeysCons(s);
      GetSomeIffKey(s[1..], k);
    }
  }

  /** In a strictly sorted list, `Get` finds exactly the entries the list holds. */
  lemma {:induction false} GetSorted(s: Slots, k: U256, v: U256)
    requires StrictlySorted(s)
    ensures Get(s, k) == Some(v) <==> StorageEntry(k, v) in s
    decreases |s|
  {
    if s != [] {
      GetSorted(s[1..], k, v);
      if s[0].key == k {
        StrictlySortedHead(s);
        assert StorageEntry(k, v) !in s[1..] by {
          forall i | 0 <= i < |s[1..]| ensures s[1..][i].key in Keys(s[1..]) { }
        }
      }
    }
  }

  lemma StrictlySortedCons(x: StorageEntry, s: Slots)
    requires StrictlySorted(s)
    requires forall k :: k in Keys(s) ==> x.key < k
    ensures StrictlySorted([x] + s)
  {
    var t := [x] + s;
    forall i, j | 0 <= i < j < |t| ensures t[i].key < t[j].key {
      if i == 0 {
        assert t[j].key == s[j - 1].key;
        assert s[j - 1].key in Keys(s);
      }
    }
  }

  lemma StrictlySortedHead(s: Slots)
    requires StrictlySorted(s) && s != []
    ensures StrictlySorted(s[1..])
    ensures forall k :: k in Keys(s[1..]) ==> s[0].key < k
  {
    forall k | k in Keys(s[1..]) ensures s[0].key < k {
      var i :| 0 <= i < |s[1..]| && s[1..][i].key == k;
      assert s[i + 1].key == k;
    }
  }

  // ---------------------------------------------------------------------------
  // Two-cursor merge of wiped storage with a revert record.
  // ---------------------------------------------------------------------------

  /**
   * Merge of the wiped storage `w` with the revert record `r`: the smaller key
   * goes first; on equal keys the revert record's entry is emitted and both
   * sides advance; once one side is exhausted the other is emitted as is.
   */
  function Merge(w: Slots, r: Slots): Slots
    decreases |w| + |r|
  {
    if w == [] then r
    else if r == [] then w
    else if w[0].key < r[0].key then [w[0]] + Merge(w[1..], r)
    else if w[0].key > r[0].key then [r[0]] + Merge(w, r[1..])
    else [r[0]] + Merge(w[1..], r[1..])
  }

  lemma KeysOfCons(x: StorageEntry, s: Slots)
    ensures Keys([x] + s) == {x.key} + Keys(s)
  {
    KeysCons([x] + s);
    assert ([x] + s)[1..] == s;
  }

  lemma MergeWipedFirst(w: Slots, r: Slots)
    requires w != [] && (r == [] || w[0].key < r[0].key)
    ensures Merge(w, r) == [w[0]] + Merge(w[1..], r)
  {
    if r == [] {
      assert w == [w[0]] + w[1..];
    }
  }

  lemma MergeRevertFirst(w: Slots, r: Slots)
    requires r != [] && (w == [] || w[0].key > r[0].key)
    ensures Merge(w, r) == [r[0]] + Merge(w, r[1..])
  {
    if w == [] {
      assert r == [r[0]] + r[1..];
    }
  }

  /** The merge emits every key of either side and no other. */
  lemma {:induction false} MergeKeys(w: Slots, r: Slots)
    ensures Keys(Merge(w, r)) == Keys(w) + Keys(r)
    decreases |w| + |r|
  {
    if w != [] && r != [] {
      KeysCons(w);
      KeysCons(r);
      if w[0].key < r[0].key {
        MergeKeys(w[1..], r);
        MergeWipedFirst(w, r);
        KeysOfCons(w[0], Merge(w[1..], r));
      } else if w[0].key > r[0].key {
        MergeKeys(w, r[1..]);
        MergeRevertFirst(w, r);
        KeysOfCons(r[0], Merge(w, r[1..]));
      } else {
        MergeKeys(w[1..], r[1..]);
        KeysOfCons(r[0], Merge(w[1..], r[1..]));
      }
    }
  }

  /** Merging two strictly ascending lists yields a strictly ascending list. */
  lemma {:induction false} MergeSorted(w: Slots, r: Slots)
    requires StrictlySorted(w) && StrictlySorted(r)
    ensures StrictlySorted(Merge(w, r))
    decreases |w| + |r|
  {
    if w != [] && r != [] {
      StrictlySortedHead(w);
      StrictlySortedHead(r);
      KeysCons(w);
      KeysCons(r);
      if w[0].key < r[0].key {
        MergeSorted(w[1..], r);
        MergeKeys(w[1..], r);
        StrictlySortedCons(w[0], Merge(w[1..], r));
      } else if w[0].key > r[0].key {
        MergeSorted(w, r[1..]);
        MergeKeys(w, r[1..]);
        StrictlySortedCons(r[0], Merge(w, r[1..]));
      } else {
        MergeSorted(w[1..], r[1..]);
        MergeKeys(w[1..], r[1..]);
        StrictlySortedCons(r[0], Merge(w[1..], r[1..]));
      }
    }
  }

  /**
   * Exactly which entries the merge emits: all of the revert record, and the
   * wiped entries whose slot the revert record does not mention.
   */
  lemma {:induction false} MergeMembers(w: Slots, r: Slots, e: StorageEntry)
    requires StrictlySorted(w) && StrictlySorted(r)
    ensures e in Merge(w, r) <==> e in r || (e in w && e.key !in Keys(r))
    decreases |w| + |r|
  {
    if w != [] && r != [] {
      StrictlySortedHead(w);
      StrictlySortedHead(r);
      KeysCons(w);
      KeysCons(r);
      assert w == [w[0]] + w[1..];
      assert r == [r[0]] + r[1..];
      if w[0].key < r[0].key {
        MergeMembers(w[1..], r, e);
      } else if w[0].key > r[0].key {
        MergeMembers(w, r[1..], e);
      } else {
        MergeMembers(w[1..], r[1..], e);
      }
    }
  }

  /** No entry of the revert record is ever dropped, sorted or not. */
  lemma {:induction false} MergeKeepsRevert(w: Slots, r: Slots, e: StorageEntry)
    requires e in r
    ensures e in Merge(w, r)
    decreases |w| + |r|
  {
    if w != [] {
      assert r == [r[0]] + r[1..];
      if w[0].key < r[0].key {
        MergeKeepsRevert(w[1..], r, e);
      } else if e != r[0] {
        if w[0].key > r[0].key {
          MergeKeepsRevert(w, r[1..], e);
        } else {
          MergeKeepsRevert(w[1..], r[1..], e);
        }
      }
    }
  }

  /** The tie-break read through `Get`: a shared slot gets the revert record's value. */
  lemma MergeLookup(w: Slots, r: Slots, k: U256)
    requires StrictlySorted(w) && StrictlySorted(r)
    ensures Get(Merge(w, r), k) == (if k in Keys(r) then Get(r, k) else Get(w, k))
  {
    var m := Merge(w, r);
    MergeSorted(w, r);
    MergeKeys(w, r);
    GetSomeIffKey(m, k);
    GetSomeIffKey(r, k);
    GetSomeIffKey(w, k);
    if k in Keys(m) {
      var v := Get(m, k).value;
      GetSorted(m, k, v);
      MergeMembers(w, r, StorageEntry(k, v));
      if k in Keys(r) {
        GetSorted(r, k, v);
      } else {
        GetSorted(w, k, v);
      }
    }
  }

  /** One loop step that emits the wiped side's entry keeps the loop invariant. */
  lemma MergeTakeWiped(w: Slots, r: Slots, i: nat, j: nat, out: Slots)
    requires i < |w| && j <= |r|
    requires j == |r| || w[i].key < r[j].key
    requires out + Merge(w[i..], r[j..]) == Merge(w, r)
    ensures (out + [w[i]]) + Merge(w[i + 1..], r[j..]) == Merge(w, r)
  {
    var ws, rs := w[i..], r[j..];
    assert ws[0] == w[i] && ws[1..] == w[i + 1..];
    MergeWipedFirst(ws, rs);
  }

  /** One loop step that emits the revert record's entry keeps the loop invariant. */
  lemma MergeTakeRevert(w: Slots, r: Slots, i: nat, j: nat, out: Slots)
    requires i <= |w| && j < |r|
    requires i == |w| || w[i].key > r[j].key
    requires out + Merge(w[i..], r[j..]) == Merge(w, r)
    ensures (out + [r[j]]) + Merge(w[i..], r[j + 1..]) == Merge(w, r)
  {
    var ws, rs := w[i..], r[j..];
    assert rs[0] == r[j] && rs[1..] == r[j + 1..];
    MergeRevertFirst(ws, rs);
  }

  /** One loop step on a shared slot emits the revert entry, advances both cursors and keeps the invariant. */
  lemma MergeTakeBoth(w: Slots, r: Slots, i: nat, j: nat, out: Slots)
    requires i < |w| && j < |r| && w[i].key == r[j].key
    requires out + Merge(w[i..], r[j..]) == Merge(w, r)
    ensures (out + [r[j]]) + Merge(w[i + 1..], r[j + 1..]) == Merge(w, r)
  {
    var ws, rs := w[i..], r[j..];
    assert ws[0] == w[i] && ws[1..] == w[i + 1..];
    assert rs[0] == r[j] && rs[1..] == r[j + 1..];
    assert Merge(ws, rs) == [rs[0]] + Merge(ws[1..], rs[1..]);
  }

  /**
   * The merge loop as the source writes it: two cursors, one entry appended
   * per iteration, stopping once both sides are exhausted.
   */
  method MergeLoop(w: Slots, r: Slots) returns (out: Slots)
    ensures out == Merge(w, r)
    ensures StrictlySorted(w) && StrictlySorted(r) ==> StrictlySorted(out)
    ensures Keys(out) == Keys(w) + Keys(r)
  {
    var i, j := 0, 0;
    out := [];
    assert w[0..] == w && r[0..] == r;
    while i < |w| || j < |r|
      invariant 0 <= i <= |w| && 0 <= j <= |r|
      invariant out + Merge(w[i..], r[j..]) == Merge(w, r)
      decreases |w| - i + |r| - j
    {
      if j == |r| || (i < |w| && w[i].key < r[j].key) {
        MergeTakeWiped(w, r, i, j, out);
        out := out + [w[i]];
        i := i + 1;
      } else if i == |w| || w[i].key > r[j].key {
        MergeTakeRevert(w, r, i, j, out);
        out := out + [r[j]];
        j := j + 1;
      } else {
        MergeTakeBoth(w, r, i, j, out);
        out := out + [r[j]];
        i := i + 1;
        j := j + 1;
      }
    }
    assert w[i..] == [] && r[j..] == [];
    assert out + [] == out;
    if StrictlySorted(w) && StrictlySorted(r) {
      MergeSorted(w, r);
    }
    MergeKeys(w, r);
  }

  // ---------------------------------------------------------------------------
  // Point updates of one address's dup-sorted plain storage.
  // ---------------------------------------------------------------------------

  /**
   * `seek_by_key_subkey` followed by `delete_current` when the entry found has
   * exactly the key: the first entry at or after `k` is removed if its key is `k`.
   */
  function DeleteSlot(s: Slots, k: U256): (r: Slots)
    ensures Keys(r) <= Keys(s)
    ensures StrictlySorted(s) ==> StrictlySorted(r)
    ensures StrictlySorted(s) ==> Get(r, k) == None
    ensures StrictlySorted(s) ==> forall k' :: k' != k ==> Get(r, k') == Get(s, k')
    decreases |s|
  {
    if s == [] then []
    else if s[0].key < k then
      var rest := DeleteSlot(s[1..], k);
      KeysCons(s);
      KeysOfCons(s[0], rest);
      assert ([s[0]] + rest)[1..] == rest;
      assert StrictlySorted(s) ==> StrictlySorted([s[0]] + rest) by {
        if StrictlySorted(s) {
          StrictlySortedHead(s);
          StrictlySortedCons(s[0], rest);
        }
      }
      [s[0]] + rest
    else if s[0].key == k then
      KeysCons(s);
      assert StrictlySorted(s) ==> StrictlySorted(s[1..]) && Get(s[1..], k) == None by {
        if StrictlySorted(s) {
          StrictlySortedHead(s);
          GetSomeIffKey(s[1..], k);
        }
      }
      s[1..]
    else
      assert StrictlySorted(s) ==> Get(s, k) == None by {
        if StrictlySorted(s) {
          StrictlySortedHead(s);
          GetSomeIffKey(s[1..], k);
        }
      }
      s
  }

  /**
   * `upsert` of a new duplicate: the entry goes in front of the first entry
   * whose key is not smaller, keeping the list ordered.
   */
  function InsertSlot(s: Slots, e: StorageEntry): (r: Slots)
    ensures Keys(r) == Keys(s) + {e.key}
    ensures StrictlySorted(s) && e.key !in Keys(s) ==> StrictlySorted(r)
    ensures e.key !in Keys(s) ==> Get(r, e.key) == Some(e.value)
    ensures forall k :: k != e.key ==> Get(r, k) == Get(s, k)
    decreases |s|
  {
    if s == [] then
      KeysCons([e]);
      [e]
    else if s[0].key < e.key then
      var rest := InsertSlot(s[1..], e);
      KeysCons(s);
      KeysOfCons(s[0], rest);
      assert ([s[0]] + rest)[1..] == rest;
      assert StrictlySorted(s) && e.key !in Keys(s) ==> StrictlySorted([s[0]] + rest) by {
        if StrictlySorted(s) && e.key !in Keys(s) {
          StrictlySortedHead(s);
          StrictlySortedCons(s[0], rest);
        }
      }
      [s[0]] + rest
    else
      KeysCons(s);
      KeysOfCons(e, s);
      assert ([e] + s)[1..] == s;
      assert StrictlySorted(s) && e.key !in Keys(s) ==> StrictlySorted([e] + s) by {
        if StrictlySorted(s) && e.key !in Keys(s) {
          StrictlySortedHead(s);
          StrictlySortedCons(e, s);
        }
      }
      [e] + s
  }

  /**
   * One storage write of the net diff: delete the exact slot, then re-insert
   * only a non-zero value. Zero is represented by absence.
   */
  function SetSlot(s: Slots, k: U256, v: U256): (r: Slots)
    ensures StrictlySorted(s) ==> StrictlySorted(r)
    ensures StrictlySorted(s) ==> Get(r, k) == (if v != 0 then Some(v) else None)
    ensures StrictlySorted(s) ==> forall k' :: k' != k ==> Get(r, k') == Get(s, k')
  {
    var d := DeleteSlot(s, k);
    if v != 0 then
      assert StrictlySorted(s) ==> k !in Keys(d) by {
        if StrictlySorted(s) {
          GetSomeIffKey(d, k);
        }
      }
      InsertSlot(d, StorageEntry(k, v))
    else
      d
  }
}
