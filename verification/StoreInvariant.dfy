/** What every committed state of the store satisfies, and why batches and rollbacks keep it. */
module StoreInvariant {
  import opened Common
  import opened OperationLog
  import opened BatchOrder
  import opened VersionedStore
  import opened BatchWrites

  /** Row references resolve, and ids are below the next one to be handed out. */
  ghost predicate Linked(t: Tables) {
    && (forall id :: id in t.tries ==> id < t.nextTrie)
    && (forall o :: o in t.ops ==> o < t.nextOp && t.ops[o].trieId in t.tries)
    && (forall tok :: tok in t.toks ==> tok.opId in t.ops && tok.keyHash in t.keys)
  }

  function WrittenOf(t: Tables): Written {
    Written(t.toks, t.keys, t.values, {})
  }

  /** Deletes, and only they, carry no value. */
  ghost predicate DeletesMarked(rows: seq<LogRow>) {
    forall r :: r in rows ==> (r.valueHash.None? <==> r.opType == Delete)
  }

  ghost predicate LogSound(rows: seq<LogRow>) {
    && QueryOrdered(rows) && SlotsNondecreasing(rows)
    && OperationsHaveOneTrie(rows) && SlotTiesResolved(rows) && DeletesMarked(rows)
  }

  /** The invariant of the tables.  Its last conjunct says that the key table, which the trigger and
      the rollback maintain row by row, is always the replay of the log. */
  ghost predicate Inv(h: Hash, t: Tables) {
    && Linked(t)
    && KeysSound(h, t.keys)
    && ValuesSound(h, WrittenOf(t))
    && LogSound(LogOf(t))
    && LiveOf(t.keys) == Live(LogOf(t))
  }

  lemma EmptyTablesSound(h: Hash)
    ensures Inv(h, EMPTY_TABLES)
  {
  }

  /** The key-row flags agree in every committed state, so the differing filters select the same keys. */
  lemma FiltersAgree(h: Hash, t: Tables)
    requires Inv(h, t)
    ensures CurrentStateMap(t) == LiveOf(t.keys) == LoadedTrie(t)
    ensures forall k :: k in t.keys ==> (IsActive(t.keys[k]) <==> k in LiveOf(t.keys))
  {
    CoherentFiltersAgree(h, t);
  }

  lemma CoherentFiltersAgree(h: Hash, t: Tables)
    requires KeysSound(h, t.keys)
    ensures CurrentStateMap(t) == LiveOf(t.keys)
    ensures LoadedTrie(t) == LiveOf(t.keys)
    ensures forall k :: k in t.keys ==> (IsActive(t.keys[k]) <==> k in LiveOf(t.keys))
  {
  }

  // ---- Appending a batch's rows to the log ----

  ghost predicate OldRows(rows: seq<LogRow>, trieId: int, slot: int, nextOp: int) {
    forall r :: r in rows ==> r.trieId < trieId && r.slot <= slot && r.opId < nextOp
  }

  ghost predicate NewRows(rows: seq<LogRow>, trieId: int, slot: int, nextOp: int) {
    forall r :: r in rows ==> r.trieId == trieId && r.slot == slot && r.opId >= nextOp
  }

  lemma AppendKeepsOrder(log: seq<LogRow>, rows: seq<LogRow>, trieId: int, slot: int, nextOp: int)
    requires QueryOrdered(log) && SlotsNondecreasing(log) && OperationsHaveOneTrie(log)
    requires OldRows(log, trieId, slot, nextOp) && NewRows(rows, trieId, slot, nextOp) && RowsAscend(rows)
    ensures QueryOrdered(log + rows) && SlotsNondecreasing(log + rows) && OperationsHaveOneTrie(log + rows)
  {
    var all := log + rows;
    forall i, j | 0 <= i < j < |all|
      ensures all[i].slot <= all[j].slot
      ensures all[i].opId == all[j].opId ==> all[i].trieId == all[j].trieId
      ensures all[i].keyHash == all[j].keyHash ==> QueryLess(all[i], all[j])
    {
      if j < |log| {
        assert all[i] == log[i] && all[j] == log[j];
      } else {
        assert all[j] == rows[j - |log|] && all[j] in rows;
        if i < |log| {
          assert all[i] == log[i] && all[i] in log;
        } else {
          assert all[i] == rows[i - |log|] && all[i] in rows;
        }
      }
    }
  }

  /** A batch at a slot the log already has must, on every key it shares with that slot, reach at
      least the operation already there. */
  ghost predicate TiesGuarded(log: seq<LogRow>, rows: seq<LogRow>, slot: int) {
    forall r, q :: r in log && r.slot == slot && q in rows && q.keyHash == r.keyHash
                   ==> exists p :: p in rows && p.keyHash == r.keyHash && !GroupLess(RowGroup(p), RowGroup(r))
  }

  lemma NotLessThenAbove(r: LogRow, q: LogRow)
    requires r.slot == q.slot && r.opId < q.opId
    ensures RollbackLess(r, q) <==> !GroupLess(RowGroup(q), RowGroup(r))
  {
  }

  /** The last row of a key in ascending rows has the greatest operation. */
  lemma LastRowIsGreatest(rows: seq<LogRow>, k: Digest, p: LogRow) returns (j: nat)
    requires RowsAscend(rows) && p in rows && p.keyHash == k
    ensures j < |rows| && LastOfKey(rows, j, k)
    ensures !GroupLess(RowGroup(rows[j]), RowGroup(p))
  {
    j := LastIsInLog(rows, k);
    var i :| 0 <= i < |rows| && rows[i] == p;
    if i < j {
      assert GroupLess(RowGroup(rows[i]), RowGroup(rows[j]));
    }
  }

  lemma GroupLessTransitive(a: Group, b: Group, c: Group)
    requires !GroupLess(b, a) && !GroupLess(c, b)
    ensures !GroupLess(c, a)
  {
  }

  /** The guard is exact: with it, and only with it, ties inside the slot stay resolved. */
  lemma AppendKeepsTies(log: seq<LogRow>, rows: seq<LogRow>, trieId: int, slot: int, nextOp: int)
    requires SlotTiesResolved(log) && RowsAscend(rows)
    requires OldRows(log, trieId, slot, nextOp) && NewRows(rows, trieId, slot, nextOp)
    ensures SlotTiesResolved(log + rows) <==> TiesGuarded(log, rows, slot)
  {
    var all := log + rows;
    if TiesGuarded(log, rows, slot) {
      forall i, j | 0 <= i < j < |all| && all[i].keyHash == all[j].keyHash
                    && all[i].slot == all[j].slot && LastOfItsSlot(all, j)
        ensures RollbackLess(all[i], all[j])
      {
        GuardResolvesTie(log, rows, trieId, slot, nextOp, i, j);
      }
    }
    if SlotTiesResolved(all) {
      forall r, q | r in log && r.slot == slot && q in rows && q.keyHash == r.keyHash
        ensures exists p :: p in rows && p.keyHash == r.keyHash && !GroupLess(RowGroup(p), RowGroup(r))
      {
        var j := LastRowIsGreatest(rows, r.keyHash, q);
        var i :| 0 <= i < |log| && log[i] == r;
        assert rows[j] in rows;
        assert all[i] == r && all[|log| + j] == rows[j];
        forall m | |log| + j < m < |all| ensures all[m].keyHash != r.keyHash {
          assert all[m] == rows[m - |log|];
        }
        assert LastOfItsSlot(all, |log| + j);
        NotLessThenAbove(r, rows[j]);
      }
    }
  }

  lemma GuardResolvesTie(
      log: seq<LogRow>, rows: seq<LogRow>, trieId: int, slot: int, nextOp: int, i: int, j: int)
    requires SlotTiesResolved(log) && RowsAscend(rows) && TiesGuarded(log, rows, slot)
    requires OldRows(log, trieId, slot, nextOp) && NewRows(rows, trieId, slot, nextOp)
    requires var all := log + rows;
             0 <= i < j < |all| && all[i].keyHash == all[j].keyHash && all[i].slot == all[j].slot
             && LastOfItsSlot(all, j)
    ensures RollbackLess((log + rows)[i], (log + rows)[j])
  {
    var all := log + rows;
    if j < |log| {
      assert all[i] == log[i] && all[j] == log[j];
      forall m | j < m < |log| ensures log[m].keyHash != log[j].keyHash || log[m].slot != log[j].slot {
        assert all[m] == log[m];
      }
      assert LastOfItsSlot(log, j);
    } else {
      var n := j - |log|;
      assert all[j] == rows[n] && rows[n] in rows;
      if i < |log| {
        var r := log[i];
        assert all[i] == r && r in log;
        var p :| p in rows && p.keyHash == r.keyHash && !GroupLess(RowGroup(p), RowGroup(r));
        var last := LastRowIsGreatest(rows, r.keyHash, p);
        assert rows[last] in rows && all[|log| + last] == rows[last];
        assert last == n;
        GroupLessTransitive(RowGroup(r), RowGroup(p), RowGroup(rows[n]));
        NotLessThenAbove(r, rows[n]);
      } else {
        assert all[i] == rows[i - |log|];
        assert rows[i - |log|] in rows;
      }
    }
  }

  // ---- A batch ----

  /** No trie row is later than the batch. */
  ghost predicate NotBefore(t: Tables, slot: int) {
    forall id :: id in t.tries ==> t.tries[id].slot <= slot
  }

  /** On each key the batch shares with rows at its own slot, some entry reaches the row's operation. */
  ghost predicate TiesAllowed(h: Hash, t: Tables, b: Batch) {
    forall r, e :: r in LogOf(t) && r.slot == b.slot && e in b.entries && EntryKey(h, e) == r.keyHash
                   ==> exists d :: d in b.entries && EntryKey(h, d) == r.keyHash
                                   && !GroupLess(GroupOf(d), RowGroup(r))
  }

  /** What the caller must see to: batches come in slot order, and two batches at one slot do not
      step back on a shared key.  Strictly increasing slots are enough. */
  ghost predicate Admissible(h: Hash, t: Tables, b: Batch) {
    NotBefore(t, b.slot) && TiesAllowed(h, t, b)
  }

  lemma LaterSlotAdmissible(h: Hash, t: Tables, b: Batch)
    requires Linked(t) && forall id :: id in t.tries ==> t.tries[id].slot < b.slot
    ensures Admissible(h, t, b)
  {
    LogRowsLinked(t);
  }

  lemma LogRowsLinked(t: Tables)
    requires Linked(t)
    ensures |LogOf(t)| == |t.toks|
    ensures forall r :: r in LogOf(t) ==>
              && r.trieId in t.tries && r.trieId < t.nextTrie && r.slot == t.tries[r.trieId].slot
              && r.opId in t.ops && r.opId < t.nextOp && r.keyHash in t.keys
    ensures forall i :: 0 <= i < |t.toks| ==>
              t.toks[i].opId in t.ops && t.ops[t.toks[i].opId].trieId in t.tries
              && LogOf(t)[i] == JoinRow(t.tries, t.ops, t.toks[i])
  {
    ViewRows(t.tries, t.ops, t.toks);
  }

  /** The rows a batch appends to the log of `t`. */
  ghost function RowsOfBatch(h: Hash, t: Tables, b: Batch, es: seq<Entry>): seq<LogRow> {
    AllocCoversGroups(t.nextTrie, OpAlloc(map[], t.ops, t.nextOp), es);
    BatchRows(h, t.nextTrie, b.slot, AllocBatch(t, es).ids, es)
  }

  /** The log after a batch is the log before it, followed by the batch's rows. */
  lemma BatchExtendsLog(h: Hash, t: Tables, b: Batch, es: seq<Entry>)
    requires Linked(t)
    ensures LogOf(WriteBatch(h, t, b, es)) == LogOf(t) + RowsOfBatch(h, t, b, es)
  {
    var start := OpAlloc(map[], t.ops, t.nextOp);
    AllocCoversGroups(t.nextTrie, start, es);
    AllocOpsSound(t.nextTrie, start, es);
    var alloc := AllocBatch(t, es);
    var tries := t.tries[t.nextTrie := TrieRowOf(b)];
    EmitAppendsRows(h, tries, alloc.ops, t.nextTrie, alloc.ids, WrittenOf(t), es);
    ViewUnchanged(t.tries, t.ops, tries, alloc.ops, t.toks);
  }

  lemma RowsOfBatchAreNew(h: Hash, t: Tables, b: Batch, es: seq<Entry>)
    requires Linked(t) && Sorted(es) && Hashable(h, es)
    ensures var rows := RowsOfBatch(h, t, b, es);
            NewRows(rows, t.nextTrie, b.slot, t.nextOp) && RowsAscend(rows) && DeletesMarked(rows)
  {
    var start := OpAlloc(map[], t.ops, t.nextOp);
    AllocCoversGroups(t.nextTrie, start, es);
    var ids := AllocBatch(t, es).ids;
    AllocIdsAreNew(t.nextTrie, start, es);
    RowsFromEntries(h, t.nextTrie, b.slot, ids, es);
    BatchRowsAscend(h, t.nextTrie, b.slot, ids, es);
    forall r | r in RowsOfBatch(h, t, b, es)
      ensures r.trieId == t.nextTrie && r.slot == b.slot && r.opId >= t.nextOp
      ensures r.valueHash.None? <==> r.opType == Delete
    {
      var i :| 0 <= i < |es| && GroupOf(es[i]) in ids && r == RowOf(h, t.nextTrie, b.slot, ids, es[i]);
      assert es[i] in es;
    }
  }

  lemma {:induction false} AllocIdsAreNew(trieId: int, start: OpAlloc, es: seq<Entry>)
    requires start.ids == map[]
    ensures forall g :: g in AllocOps(trieId, start, es).ids ==> AllocOps(trieId, start, es).ids[g] >= start.next
    ensures AllocOps(trieId, start, es).next >= start.next
  {
    if es != [] {
      AllocIdsAreNew(trieId, start, es[..|es| - 1]);
    }
  }

  lemma RowHasEntry(h: Hash, t: Tables, b: Batch, es: seq<Entry>, p: LogRow) returns (e: Entry)
    requires p in RowsOfBatch(h, t, b, es)
    ensures e in es && EntryKey(h, e) == p.keyHash && GroupOf(e) == RowGroup(p)
  {
    AllocCoversGroups(t.nextTrie, OpAlloc(map[], t.ops, t.nextOp), es);
    var ids := AllocBatch(t, es).ids;
    RowsFromEntries(h, t.nextTrie, b.slot, ids, es);
    var i :| 0 <= i < |es| && GroupOf(es[i]) in ids && p == RowOf(h, t.nextTrie, b.slot, ids, es[i]);
    e := es[i];
  }

  lemma EntryHasRow(h: Hash, t: Tables, b: Batch, es: seq<Entry>, e: Entry) returns (p: LogRow)
    requires e in es
    ensures p in RowsOfBatch(h, t, b, es) && p.keyHash == EntryKey(h, e) && RowGroup(p) == GroupOf(e)
  {
    AllocCoversGroups(t.nextTrie, OpAlloc(map[], t.ops, t.nextOp), es);
    var ids := AllocBatch(t, es).ids;
    var i :| 0 <= i < |es| && es[i] == e;
    assert (GroupOf(e), EntryKey(h, e)) in EmittedBy(h, es);
    EntriesHaveRows(h, t.nextTrie, b.slot, ids, es, e);
    p :| p in BatchRows(h, t.nextTrie, b.slot, ids, es) && RowGroup(p) == GroupOf(e) && p.keyHash == EntryKey(h, e);
  }

  /** The entry-level guard is the row-level one. */
  lemma TiesAllowedIsGuard(h: Hash, t: Tables, b: Batch, es: seq<Entry>)
    requires multiset(es) == multiset(b.entries)
    ensures TiesAllowed(h, t, b) <==> TiesGuarded(LogOf(t), RowsOfBatch(h, t, b, es), b.slot)
  {
    var log, rows := LogOf(t), RowsOfBatch(h, t, b, es);
    forall e ensures e in es <==> e in b.entries {
      assert e in multiset(es) <==> e in multiset(b.entries);
    }
    if TiesAllowed(h, t, b) {
      forall r, q | r in log && r.slot == b.slot && q in rows && q.keyHash == r.keyHash
        ensures exists p :: p in rows && p.keyHash == r.keyHash && !GroupLess(RowGroup(p), RowGroup(r))
      {
        var e := RowHasEntry(h, t, b, es, q);
        var d :| d in b.entries && EntryKey(h, d) == r.keyHash && !GroupLess(GroupOf(d), RowGroup(r));
        var p := EntryHasRow(h, t, b, es, d);
      }
    }
    if TiesGuarded(log, rows, b.slot) {
      forall r, e | r in log && r.slot == b.slot && e in b.entries && EntryKey(h, e) == r.keyHash
        ensures exists d :: d in b.entries && EntryKey(h, d) == r.keyHash && !GroupLess(GroupOf(d), RowGroup(r))
      {
        var q := EntryHasRow(h, t, b, es, e);
        var p :| p in rows && p.keyHash == r.keyHash && !GroupLess(RowGroup(p), RowGroup(r));
        var d := RowHasEntry(h, t, b, es, p);
      }
    }
  }

  lemma WriteBatchLinked(h: Hash, t: Tables, b: Batch, es: seq<Entry>)
    requires Linked(t) && KeysSound(h, t.keys) && ValuesSound(h, WrittenOf(t)) && Hashable(h, es)
    ensures var t' := WriteBatch(h, t, b, es);
            && Linked(t') && KeysSound(h, t'.keys) && ValuesSound(h, WrittenOf(t'))
            && LiveOf(t'.keys) == Replay(LiveOf(t.keys), RowsOfBatch(h, t, b, es))
            && t.keys.Keys <= t'.keys.Keys
  {
    var start := OpAlloc(map[], t.ops, t.nextOp);
    AllocCoversGroups(t.nextTrie, start, es);
    AllocOpsSound(t.nextTrie, start, es);
    var alloc := AllocBatch(t, es);
    EmitKeepsKeys(h, t.nextTrie, b.slot, alloc.ids, WrittenOf(t), es);
    EmittedOps(h, alloc.ids, WrittenOf(t), es);
  }

  lemma {:induction false} EmittedOps(h: Hash, ids: map<Group, int>, start: Written, es: seq<Entry>)
    requires forall e :: e in es ==> GroupOf(e) in ids
    ensures forall tok :: tok in Emit(h, ids, start, es).toks ==>
              tok in start.toks || exists g :: g in ids && ids[g] == tok.opId
  {
    if es != [] {
      var front, e := es[..|es| - 1], es[|es| - 1];
      assert es == front + [e];
      EmittedOps(h, ids, start, front);
    }
  }

  /** A committed batch keeps the invariant exactly when, being in slot order, it does not step back
      on a key at its own slot. */
  lemma BatchKeepsInvariant(h: Hash, t: Tables, b: Batch, es: seq<Entry>)
    requires Inv(h, t) && NotBefore(t, b.slot)
    requires es == StableSort(b.entries) && Hashable(h, es)
    ensures Inv(h, WriteBatch(h, t, b, es)) <==> TiesAllowed(h, t, b)
  {
    StableSortIsStable(b.entries);
    var log, rows := LogOf(t), RowsOfBatch(h, t, b, es);
    BatchExtendsLog(h, t, b, es);
    RowsOfBatchAreNew(h, t, b, es);
    LogRowsLinked(t);
    assert OldRows(log, t.nextTrie, b.slot, t.nextOp);
    AppendKeepsOrder(log, rows, t.nextTrie, b.slot, t.nextOp);
    AppendKeepsTies(log, rows, t.nextTrie, b.slot, t.nextOp);
    TiesAllowedIsGuard(h, t, b, es);
    WriteBatchLinked(h, t, b, es);
    ReplayConcat(map[], log, rows);
    assert DeletesMarked(log + rows);
  }
}
