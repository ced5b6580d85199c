/** What writing one batch does to the log, to the key table and to the in-memory trie. */
module BatchWrites {
  import opened Common
  import opened OperationLog
  import opened BatchOrder
  import opened VersionedStore

  // ---- Operation rows ----

  ghost predicate OpsBelow(ops: map<int, OpRow>, bound: int) {
    forall o :: o in ops ==> o < bound
  }

  /** Every group has its own operation row, new in this batch. */
  ghost predicate AllocSound(trieId: int, before: map<int, OpRow>, a: OpAlloc) {
    && OpsBelow(a.ops, a.next)
    && (forall o :: o in before ==> o in a.ops && a.ops[o] == before[o])
    && (forall g :: g in a.ids ==>
          a.ids[g] in a.ops && a.ids[g] !in before && a.ops[a.ids[g]] == OpRow(trieId, g.opType, g.seqOrder))
    && (forall o :: o in a.ops && o !in before ==> a.ops[o].trieId == trieId)
  }

  lemma {:induction false} AllocOpsSound(trieId: int, start: OpAlloc, es: seq<Entry>)
    requires OpsBelow(start.ops, start.next) && start.ids == map[]
    ensures AllocSound(trieId, start.ops, AllocOps(trieId, start, es))
    ensures start.next <= AllocOps(trieId, start, es).next
  {
    if es != [] {
      AllocOpsSound(trieId, start, es[..|es| - 1]);
    }
  }

  // ---- The view of the log ----

  lemma {:induction false} ViewUnchanged(
      tries: map<int, TrieRow>, ops: map<int, OpRow>, tries': map<int, TrieRow>, ops': map<int, OpRow>,
      toks: seq<TokRow>)
    requires forall tok :: tok in toks ==>
               && tok.opId in ops && ops[tok.opId].trieId in tries
               && tok.opId in ops' && ops'[tok.opId] == ops[tok.opId]
               && ops[tok.opId].trieId in tries' && tries'[ops[tok.opId].trieId] == tries[ops[tok.opId].trieId]
    ensures View(tries', ops', toks) == View(tries, ops, toks)
  {
    if toks != [] {
      assert toks == toks[..|toks| - 1] + [toks[|toks| - 1]];
      ViewUnchanged(tries, ops, tries', ops', toks[..|toks| - 1]);
    }
  }

  /** With every reference resolved, the join keeps every row and its position. */
  lemma {:induction false} ViewRows(tries: map<int, TrieRow>, ops: map<int, OpRow>, toks: seq<TokRow>)
    requires forall tok :: tok in toks ==> tok.opId in ops && ops[tok.opId].trieId in tries
    ensures |View(tries, ops, toks)| == |toks|
    ensures forall i :: 0 <= i < |toks| ==>
              toks[i] in toks && View(tries, ops, toks)[i] == JoinRow(tries, ops, toks[i])
  {
    if toks != [] {
      assert toks == toks[..|toks| - 1] + [toks[|toks| - 1]];
      ViewRows(tries, ops, toks[..|toks| - 1]);
    }
  }

  /** The row an entry contributes. */
  ghost function RowOf(h: Hash, trieId: int, slot: int, ids: map<Group, int>, e: Entry): LogRow
    requires GroupOf(e) in ids
  {
    LogRow(slot, trieId, e.opType, e.seqOrder, ids[GroupOf(e)], EntryKey(h, e), EntryValue(h, e))
  }

  ghost function EmittedBy(h: Hash, es: seq<Entry>): set<(Group, Digest)> {
    set i | 0 <= i < |es| :: (GroupOf(es[i]), EntryKey(h, es[i]))
  }

  /** The log rows of a batch: one per operation and key, the first entry counting. */
  ghost function BatchRows(h: Hash, trieId: int, slot: int, ids: map<Group, int>, es: seq<Entry>): seq<LogRow>
    requires forall e :: e in es ==> GroupOf(e) in ids
  {
    if es == [] then []
    else
      var front, e := es[..|es| - 1], es[|es| - 1];
      var rows := BatchRows(h, trieId, slot, ids, front);
      if (GroupOf(e), EntryKey(h, e)) in EmittedBy(h, front) then rows
      else rows + [RowOf(h, trieId, slot, ids, e)]
  }

  lemma EmittedSnoc(h: Hash, es: seq<Entry>)
    requires es != []
    ensures var e := es[|es| - 1];
            EmittedBy(h, es) == EmittedBy(h, es[..|es| - 1]) + {(GroupOf(e), EntryKey(h, e))}
  {
    var front, e := es[..|es| - 1], es[|es| - 1];
    assert es == front + [e];
    forall x | x in EmittedBy(h, es) ensures x in EmittedBy(h, front) || x == (GroupOf(e), EntryKey(h, e)) {
      var i :| 0 <= i < |es| && x == (GroupOf(es[i]), EntryKey(h, es[i]));
      if i < |front| {
        assert front[i] == es[i];
      }
    }
    forall x | x in EmittedBy(h, front) ensures x in EmittedBy(h, es) {
      var i :| 0 <= i < |front| && x == (GroupOf(front[i]), EntryKey(h, front[i]));
      assert es[i] == front[i];
    }
  }

  /** The emission loop appends exactly the batch's rows to the log. */
  lemma {:induction false} EmitAppendsRows(
      h: Hash, tries: map<int, TrieRow>, ops: map<int, OpRow>, trieId: int, ids: map<Group, int>,
      start: Written, es: seq<Entry>)
    requires forall e :: e in es ==> GroupOf(e) in ids
    requires forall g :: g in ids ==> ids[g] in ops && ops[ids[g]] == OpRow(trieId, g.opType, g.seqOrder)
    requires trieId in tries && start.emitted == {}
    ensures var w := Emit(h, ids, start, es);
            && w.emitted == EmittedBy(h, es)
            && View(tries, ops, w.toks)
               == View(tries, ops, start.toks) + BatchRows(h, trieId, tries[trieId].slot, ids, es)
  {
    if es != [] {
      var front, e := es[..|es| - 1], es[|es| - 1];
      EmitAppendsRows(h, tries, ops, trieId, ids, start, front);
      EmittedSnoc(h, es);
      assert e in es;
      var w := Emit(h, ids, start, front);
      if (GroupOf(e), EntryKey(h, e)) !in w.emitted {
        var tok := TokRow(ids[GroupOf(e)], EntryKey(h, e), EntryValue(h, e));
        assert (w.toks + [tok])[..|w.toks|] == w.toks;
      }
    }
  }

  // ---- The order of a batch's rows ----

  function RowGroup(r: LogRow): Group {
    Group(r.opType, r.seqOrder)
  }

  /** Every row comes from an entry. */
  ghost predicate FromEntry(h: Hash, trieId: int, slot: int, ids: map<Group, int>, es: seq<Entry>, r: LogRow) {
    exists i :: 0 <= i < |es| && GroupOf(es[i]) in ids && r == RowOf(h, trieId, slot, ids, es[i])
  }

  lemma {:induction false} RowsFromEntries(h: Hash, trieId: int, slot: int, ids: map<Group, int>, es: seq<Entry>)
    requires forall e :: e in es ==> GroupOf(e) in ids
    ensures forall r :: r in BatchRows(h, trieId, slot, ids, es) ==> FromEntry(h, trieId, slot, ids, es, r)
  {
    if es != [] {
      var front, e := es[..|es| - 1], es[|es| - 1];
      RowsFromEntries(h, trieId, slot, ids, front);
      forall r | r in BatchRows(h, trieId, slot, ids, es) ensures FromEntry(h, trieId, slot, ids, es, r) {
        if r in BatchRows(h, trieId, slot, ids, front) {
          var i :| 0 <= i < |front| && GroupOf(front[i]) in ids && r == RowOf(h, trieId, slot, ids, front[i]);
          assert es[i] == front[i];
        } else {
          assert r == RowOf(h, trieId, slot, ids, es[|es| - 1]);
        }
      }
    }
  }

  /** Every entry's operation and key is represented by a row. */
  lemma {:induction false} EntriesHaveRows(
      h: Hash, trieId: int, slot: int, ids: map<Group, int>, es: seq<Entry>, e: Entry)
    requires forall e :: e in es ==> GroupOf(e) in ids
    requires (GroupOf(e), EntryKey(h, e)) in EmittedBy(h, es)
    ensures exists r :: r in BatchRows(h, trieId, slot, ids, es)
                        && RowGroup(r) == GroupOf(e) && r.keyHash == EntryKey(h, e)
  {
    if es != [] {
      var front, last := es[..|es| - 1], es[|es| - 1];
      EmittedSnoc(h, es);
      assert last in es;
      if (GroupOf(e), EntryKey(h, e)) in EmittedBy(h, front) {
        EntriesHaveRows(h, trieId, slot, ids, front, e);
        var r :| r in BatchRows(h, trieId, slot, ids, front)
                 && RowGroup(r) == GroupOf(e) && r.keyHash == EntryKey(h, e);
        assert r in BatchRows(h, trieId, slot, ids, es);
      } else {
        var r := RowOf(h, trieId, slot, ids, last);
        assert r in BatchRows(h, trieId, slot, ids, es);
      }
    }
  }

  /** A later row of a key belongs to a strictly greater operation. */
  ghost predicate RowsAscend(rows: seq<LogRow>) {
    forall i, j :: 0 <= i < j < |rows| && rows[i].keyHash == rows[j].keyHash
                   ==> GroupLess(RowGroup(rows[i]), RowGroup(rows[j]))
  }

  lemma RowsAscendSnoc(rows: seq<LogRow>, last: LogRow)
    requires RowsAscend(rows)
    requires forall r :: r in rows && r.keyHash == last.keyHash ==> GroupLess(RowGroup(r), RowGroup(last))
    ensures RowsAscend(rows + [last])
  {
    var s := rows + [last];
    forall i, j | 0 <= i < j < |s| && s[i].keyHash == s[j].keyHash
      ensures GroupLess(RowGroup(s[i]), RowGroup(s[j]))
    {
      assert s[i] in rows;
      if j < |rows| {
        assert s[i] == rows[i] && s[j] == rows[j];
      }
    }
  }

  /** Within a batch, execution order and the queries' order agree. */
  lemma {:induction false} BatchRowsAscend(h: Hash, trieId: int, slot: int, ids: map<Group, int>, es: seq<Entry>)
    requires forall e :: e in es ==> GroupOf(e) in ids
    requires Sorted(es)
    ensures RowsAscend(BatchRows(h, trieId, slot, ids, es))
  {
    if es != [] {
      var front, e := es[..|es| - 1], es[|es| - 1];
      SortedPrefix(es, |front|);
      BatchRowsAscend(h, trieId, slot, ids, front);
      if (GroupOf(e), EntryKey(h, e)) !in EmittedBy(h, front) {
        var before := BatchRows(h, trieId, slot, ids, front);
        forall r | r in before && r.keyHash == EntryKey(h, e) ensures GroupLess(RowGroup(r), GroupOf(e)) {
          RowsFromEntries(h, trieId, slot, ids, front);
          var n :| 0 <= n < |front| && GroupOf(front[n]) in ids && r == RowOf(h, trieId, slot, ids, front[n]);
          assert es[n] == front[n];
          assert (GroupOf(front[n]), EntryKey(h, front[n])) in EmittedBy(h, front);
          DistinctGroupsOrdered(GroupOf(front[n]), GroupOf(e));
        }
        RowsAscendSnoc(before, RowOf(h, trieId, slot, ids, e));
      }
    }
  }

  lemma DistinctGroupsOrdered(a: Group, b: Group)
    requires a != b && !GroupLess(b, a)
    ensures GroupLess(a, b)
  {
    if Rank(a.opType) == Rank(b.opType) {
      assert a.opType == b.opType;
    }
  }

  // ---- Keys and values ----

  ghost predicate Coherent(row: KeyRow) {
    (row.isDeleted <==> row.deletedAt) && (row.isDeleted <==> row.currentValue.None?)
  }

  ghost predicate KeysSound(h: Hash, keys: map<Digest, KeyRow>) {
    forall k :: k in keys ==> KeyHash(h, keys[k].objectId, keys[k].rawKey) == k && Coherent(keys[k])
  }

  ghost predicate Hashable(h: Hash, es: seq<Entry>) {
    forall e :: e in es && e.opType != Delete ==> EntryValue(h, e).Some?
  }

  ghost predicate ValuesSound(h: Hash, w: Written) {
    && (forall k :: k in w.keys && w.keys[k].currentValue.Some? ==> w.keys[k].currentValue.value in w.values)
    && (forall tok :: tok in w.toks ==>
          tok.keyHash in w.keys && (tok.valueHash.Some? ==> tok.valueHash.value in w.values))
    && (forall v :: v in w.values ==> h(w.values[v]) == v)
  }

  /** The trigger keeps the key table equal to the replay of the log, flags included. */
  lemma {:induction false} EmitKeepsKeys(
      h: Hash, trieId: int, slot: int, ids: map<Group, int>, start: Written, es: seq<Entry>)
    requires forall e :: e in es ==> GroupOf(e) in ids
    requires Hashable(h, es) && KeysSound(h, start.keys) && ValuesSound(h, start) && start.emitted == {}
    ensures var w := Emit(h, ids, start, es);
            && w.emitted == EmittedBy(h, es)
            && (forall x :: x in w.emitted ==> x.1 in w.keys)
            && KeysSound(h, w.keys) && ValuesSound(h, w)
            && start.keys.Keys <= w.keys.Keys
            && LiveOf(w.keys) == Replay(LiveOf(start.keys), BatchRows(h, trieId, slot, ids, es))
  {
    if es != [] {
      var front, e := es[..|es| - 1], es[|es| - 1];
      assert es == front + [e];
      EmitKeepsKeys(h, trieId, slot, ids, start, front);
      EmittedSnoc(h, es);
      var w := Emit(h, ids, start, front);
      EmitOneKeepsKeys(h, trieId, slot, ids, w, e);
    }
  }

  lemma EmitOneKeepsKeys(h: Hash, trieId: int, slot: int, ids: map<Group, int>, w: Written, e: Entry)
    requires GroupOf(e) in ids && (e.opType != Delete ==> EntryValue(h, e).Some?)
    requires KeysSound(h, w.keys) && ValuesSound(h, w)
    requires forall x :: x in w.emitted ==> x.1 in w.keys
    ensures var x := EmitOne(h, ids, w, e);
            && x.emitted == w.emitted + {(GroupOf(e), EntryKey(h, e))}
            && (forall y :: y in x.emitted ==> y.1 in x.keys)
            && KeysSound(h, x.keys) && ValuesSound(h, x)
            && w.keys.Keys <= x.keys.Keys
            && LiveOf(x.keys) == if (GroupOf(e), EntryKey(h, e)) in w.emitted then LiveOf(w.keys)
                                 else ReplayRow(LiveOf(w.keys), RowOf(h, trieId, slot, ids, e))
  {
    var x := EmitOne(h, ids, w, e);
    if (GroupOf(e), EntryKey(h, e)) in w.emitted {
      assert x == w;
    } else {
      TriggerKeepsKeys(h, w.keys, e, TokRow(ids[GroupOf(e)], EntryKey(h, e), EntryValue(h, e)));
      TriggerKeepsValues(h, ids, w, e);
    }
  }

  /** The trigger on a new row has the effect of replaying the row. */
  lemma TriggerKeepsKeys(h: Hash, keys: map<Digest, KeyRow>, e: Entry, tok: TokRow)
    requires KeysSound(h, keys) && tok.keyHash == EntryKey(h, e)
    requires if e.opType == Delete then tok.valueHash == None else tok.valueHash.Some?
    ensures var after := Trigger(EnsureKey(h, keys, e), e.opType, tok);
            && after.Keys == keys.Keys + {tok.keyHash}
            && KeysSound(h, after)
            && LiveOf(after) == if e.opType == Delete then LiveOf(keys) - {tok.keyHash}
                                else LiveOf(keys)[tok.keyHash := tok.valueHash.value]
  {
  }

  lemma TriggerKeepsValues(h: Hash, ids: map<Group, int>, w: Written, e: Entry)
    requires GroupOf(e) in ids && (e.opType != Delete ==> EntryValue(h, e).Some?)
    requires ValuesSound(h, w) && (GroupOf(e), EntryKey(h, e)) !in w.emitted
    ensures ValuesSound(h, EmitOne(h, ids, w, e))
  {
    var x := EmitOne(h, ids, w, e);
    var tok := TokRow(ids[GroupOf(e)], EntryKey(h, e), EntryValue(h, e));
    assert x.values == EnsureValue(h, w.values, e);
    assert w.values.Keys <= x.values.Keys;
    assert tok.valueHash.Some? ==> tok.valueHash.value in x.values;
    forall t | t in x.toks
      ensures t.keyHash in x.keys && (t.valueHash.Some? ==> t.valueHash.value in x.values)
    {
      assert t in w.toks || t == tok;
    }
  }
}
