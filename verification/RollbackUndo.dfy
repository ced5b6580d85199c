/** rollback_to_slot is an exact undo: the log and the live keys become those of the batches at or
    before the cutoff, references stay sound, and history queries do not change. */
module RollbackUndo {
  import opened Common
  import opened OperationLog
  import opened VersionedStore
  import opened BatchWrites
  import opened StoreInvariant

  /** The rows that survive the deletions are the rows at or before the cutoff. */
  lemma {:induction false} KeepToksIsUpTo(t: Tables, cutoff: int, toks: seq<TokRow>)
    requires Linked(t) && forall tok :: tok in toks ==> tok in t.toks
    ensures View(RollbackTables(t, cutoff).tries, RollbackTables(t, cutoff).ops, KeepToks(toks, DoomedOps(t, cutoff)))
            == UpTo(View(t.tries, t.ops, toks), cutoff)
  {
    if toks != [] {
      var front, last := toks[..|toks| - 1], toks[|toks| - 1];
      assert toks == front + [last];
      KeepToksIsUpTo(t, cutoff, front);
      var kept := KeepToks(front, DoomedOps(t, cutoff));
      assert (kept + [last])[..|kept|] == kept;
      var rows := View(t.tries, t.ops, front);
      var row := JoinRow(t.tries, t.ops, last);
      assert (rows + [row])[..|rows|] == rows;
    }
  }

  lemma {:induction false} KeptToksAreEarly(t: Tables, cutoff: int, toks: seq<TokRow>)
    requires Linked(t) && forall tok :: tok in toks ==> tok in t.toks
    ensures forall tok :: tok in KeepToks(toks, DoomedOps(t, cutoff)) ==>
              tok in toks && t.tries[t.ops[tok.opId].trieId].slot <= cutoff
  {
    if toks != [] {
      KeptToksAreEarly(t, cutoff, toks[..|toks| - 1]);
      assert toks[|toks| - 1] in t.toks;
    }
  }

  lemma RollbackLog(t: Tables, cutoff: int)
    requires Linked(t)
    ensures LogOf(RollbackTables(t, cutoff)) == UpTo(LogOf(t), cutoff)
    ensures forall tok :: tok in RollbackTables(t, cutoff).toks ==>
              tok in t.toks && t.tries[t.ops[tok.opId].trieId].slot <= cutoff
  {
    KeepToksIsUpTo(t, cutoff, t.toks);
    KeptToksAreEarly(t, cutoff, t.toks);
  }

  /** The two key updates split the affected keys between them. */
  lemma UpdatesPartitionAffected(t: Tables, cutoff: int)
    requires Linked(t)
    ensures UpKeys(t, cutoff) !! UpMissing(t, cutoff)
    ensures UpKeys(t, cutoff) + UpMissing(t, cutoff) == AffectedKeys(t, cutoff)
  {
    forall k | k in AffectedKeys(t, cutoff) ensures k in t.keys {
      var i :| 0 <= i < |t.toks| && t.toks[i].opId in DoomedOps(t, cutoff) && t.toks[i].keyHash == k;
      assert t.toks[i] in t.toks;
    }
  }

  /** A key is affected exactly when it has a row after the cutoff. */
  lemma AffectedHasLaterRow(t: Tables, cutoff: int, k: Digest)
    requires Linked(t)
    ensures k in AffectedKeys(t, cutoff)
            <==> exists i :: 0 <= i < |LogOf(t)| && LogOf(t)[i].keyHash == k && LogOf(t)[i].slot > cutoff
  {
    LogRowsLinked(t);
    var log := LogOf(t);
    if k in AffectedKeys(t, cutoff) {
      var i :| 0 <= i < |t.toks| && t.toks[i].opId in DoomedOps(t, cutoff) && t.toks[i].keyHash == k;
      assert log[i] == JoinRow(t.tries, t.ops, t.toks[i]);
    }
    if exists i :: 0 <= i < |log| && log[i].keyHash == k && log[i].slot > cutoff {
      var i :| 0 <= i < |log| && log[i].keyHash == k && log[i].slot > cutoff;
      assert log[i] == JoinRow(t.tries, t.ops, t.toks[i]);
      assert t.toks[i].opId in DoomedOps(t, cutoff);
    }
  }

  /** An unaffected key has the same last row before and after. */
  lemma {:induction false} UnaffectedKeepsLast(rows: seq<LogRow>, cutoff: int, k: Digest)
    requires forall i :: 0 <= i < |rows| && rows[i].keyHash == k ==> rows[i].slot <= cutoff
    ensures Last(UpTo(rows, cutoff), k) == Last(rows, k)
  {
    if rows != [] {
      var front, last := rows[..|rows| - 1], rows[|rows| - 1];
      UnaffectedKeepsLast(front, cutoff, k);
      var kept := UpTo(front, cutoff);
      assert (kept + [last])[..|kept|] == kept;
    }
  }

  /** One key after the rollback: what the surviving log last did to it. */
  lemma RestoredKey(h: Hash, t: Tables, cutoff: int, k: Digest)
    requires Inv(h, t)
    ensures Lookup(LiveOf(RollbackTables(t, cutoff).keys), k) == EffectOf(Last(UpTo(LogOf(t), cutoff), k))
    ensures k in t.keys ==> var row := RollbackTables(t, cutoff).keys[k];
              Coherent(row) && row.objectId == t.keys[k].objectId && row.rawKey == t.keys[k].rawKey
  {
    var log := LogOf(t);
    ResolvedTiesPickLast(log, cutoff, k);
    LastRowSound(t, cutoff, k);
    if k !in AffectedKeys(t, cutoff) {
      UnaffectedValue(h, t, cutoff, k);
      UntouchedRow(t, cutoff, k);
    } else {
      UpdatesPartitionAffected(t, cutoff);
      UpdatedRow(t, cutoff, k);
    }
  }

  /** A key's last surviving row belongs to a known key, and carries a value unless it deletes. */
  lemma LastRowSound(t: Tables, cutoff: int, k: Digest)
    requires Linked(t) && DeletesMarked(LogOf(t))
    ensures var last := Last(UpTo(LogOf(t), cutoff), k);
            last.Some? ==> k in t.keys && (last.value.valueHash.None? <==> last.value.opType == Delete)
  {
    var rows := UpTo(LogOf(t), cutoff);
    UpToMembers(LogOf(t), cutoff);
    LogRowsLinked(t);
    var n := LastIsInLog(rows, k);
    if Last(rows, k).Some? {
      assert rows[n] in rows;
    }
  }

  lemma UnaffectedValue(h: Hash, t: Tables, cutoff: int, k: Digest)
    requires Linked(t) && LiveOf(t.keys) == Live(LogOf(t)) && k !in AffectedKeys(t, cutoff)
    ensures Lookup(LiveOf(t.keys), k) == EffectOf(Last(UpTo(LogOf(t), cutoff), k))
  {
    var log := LogOf(t);
    AffectedHasLaterRow(t, cutoff, k);
    UnaffectedKeepsLast(log, cutoff, k);
    ReplayLookup(map[], log, k);
  }

  lemma UntouchedRow(t: Tables, cutoff: int, k: Digest)
    requires k !in AffectedKeys(t, cutoff)
    ensures var keys := RollbackTables(t, cutoff).keys;
            Lookup(keys, k) == Lookup(t.keys, k) && Lookup(LiveOf(keys), k) == Lookup(LiveOf(t.keys), k)
  {
  }

  lemma UpdatedRow(t: Tables, cutoff: int, k: Digest)
    requires k in t.keys && k in AffectedKeys(t, cutoff)
    requires var last := LastOp(t, cutoff, k);
             last.Some? ==> (last.value.valueHash.None? <==> last.value.opType == Delete)
    ensures var keys := RollbackTables(t, cutoff).keys;
            && k in keys && Coherent(keys[k])
            && keys[k].objectId == t.keys[k].objectId && keys[k].rawKey == t.keys[k].rawKey
            && Lookup(LiveOf(keys), k) == EffectOf(LastOp(t, cutoff, k))
  {
  }

  /** The live keys after a rollback are the replay of the surviving log. */
  lemma RollbackKeys(h: Hash, t: Tables, cutoff: int)
    requires Inv(h, t)
    ensures LiveOf(RollbackTables(t, cutoff).keys) == Live(UpTo(LogOf(t), cutoff))
    ensures KeysSound(h, RollbackTables(t, cutoff).keys)
  {
    var t' := RollbackTables(t, cutoff);
    var rows := UpTo(LogOf(t), cutoff);
    forall k ensures Lookup(LiveOf(t'.keys), k) == Lookup(Live(rows), k) {
      RestoredKey(h, t, cutoff, k);
      ReplayLookup(map[], rows, k);
    }
    EqualLookups(LiveOf(t'.keys), Live(rows));
    forall k | k in t'.keys ensures KeyHash(h, t'.keys[k].objectId, t'.keys[k].rawKey) == k && Coherent(t'.keys[k]) {
      RestoredKey(h, t, cutoff, k);
    }
  }

  /** Value collection removes nothing that a surviving row or a restored key refers to. */
  lemma CollectionIsSafe(h: Hash, t: Tables, cutoff: int)
    requires Inv(h, t)
    ensures ValuesSound(h, WrittenOf(RollbackTables(t, cutoff)))
  {
    var t' := RollbackTables(t, cutoff);
    RollbackLog(t, cutoff);
    forall tok | tok in t.toks && tok.valueHash.Some? ensures tok.valueHash.value in UsedValues(t) {
      var i :| 0 <= i < |t.toks| && t.toks[i] == tok;
    }
    forall k | k in t'.keys && t'.keys[k].currentValue.Some?
      ensures t'.keys[k].currentValue.value in t'.values
    {
      if k in UpKeys(t, cutoff) {
        RestoredValueIsLogged(t, cutoff, k);
      } else if k in UpMissing(t, cutoff) {
      } else {
        assert t'.keys[k] == t.keys[k];
      }
    }
  }

  /** A restored key's row of the log carries a value some operation row refers to. */
  lemma RestoredValueIsLogged(t: Tables, cutoff: int, k: Digest)
    requires Linked(t) && k in UpKeys(t, cutoff)
    ensures exists tok :: tok in t.toks && tok.valueHash == LastOp(t, cutoff, k).value.valueHash
  {
    var row := LastOp(t, cutoff, k).value;
    PickIsInLog(UpTo(LogOf(t), cutoff), RollbackLess, k);
    UpToMembers(LogOf(t), cutoff);
    LogRowsLinked(t);
    var i :| 0 <= i < |LogOf(t)| && LogOf(t)[i] == row;
    assert t.toks[i] in t.toks;
  }

  /** The order facts hold of the rows at or before any slot. */
  lemma UpToKeepsSound(rows: seq<LogRow>, slot: int)
    requires LogSound(rows)
    ensures LogSound(UpTo(rows, slot))
  {
    var n := UpToIsPrefix(rows, slot);
    var kept := rows[..n];
    forall r | r in kept ensures r in rows {
    }
    forall i, j | 0 <= i < j < n && kept[i].keyHash == kept[j].keyHash
                  && kept[i].slot == kept[j].slot && LastOfItsSlot(kept, j)
      ensures RollbackLess(kept[i], kept[j])
    {
      forall m | j < m < |rows| ensures rows[m].keyHash != rows[j].keyHash || rows[m].slot != rows[j].slot {
        if m < n {
          assert kept[m] == rows[m];
        }
      }
      assert LastOfItsSlot(rows, j);
    }
  }

  /** Rollback is exact undo: it keeps the invariant, and the log and the live keys become those of
      the batches at or before the cutoff. */
  lemma RollbackIsUndo(h: Hash, t: Tables, cutoff: int)
    requires Inv(h, t)
    ensures var t' := RollbackTables(t, cutoff);
            && Inv(h, t')
            && LogOf(t') == UpTo(LogOf(t), cutoff)
            && LiveOf(t'.keys) == Live(UpTo(LogOf(t), cutoff))
            && t'.keys.Keys == t.keys.Keys
            && (forall id :: id in t'.tries <==> id in t.tries && t.tries[id].slot <= cutoff)
  {
    RollbackLog(t, cutoff);
    RollbackKeys(h, t, cutoff);
    CollectionIsSafe(h, t, cutoff);
    UpToKeepsSound(LogOf(t), cutoff);
  }

  /** The values collected are exactly those that no key and no operation row referred to when the statement
      began; the others keep their text. */
  lemma CollectionIsExact(t: Tables, cutoff: int, v: Digest)
    ensures Lookup(RollbackTables(t, cutoff).values, v) ==
            if || (exists k :: k in t.keys && t.keys[k].currentValue == Some(v))
               || (exists i :: 0 <= i < |t.toks| && t.toks[i].valueHash == Some(v))
            then Lookup(t.values, v) else None
  {
    var used := UsedValues(t);
    if k :| k in t.keys && t.keys[k].currentValue == Some(v) {
      assert t.keys[k].currentValue.value in used;
    }
    if i :| 0 <= i < |t.toks| && t.toks[i].valueHash == Some(v) {
      assert t.toks[i].valueHash.value in used;
    }
  }

  /** Two rollbacks leave the rows that one rollback to the smaller slot leaves. */
  lemma RollbackTwice(h: Hash, t: Tables, a: int, b: int)
    requires Inv(h, t)
    ensures var c := if a <= b then a else b;
            var twice, once := RollbackTables(RollbackTables(t, a), b), RollbackTables(t, c);
            && twice.tries == once.tries && twice.ops == once.ops && twice.keys == once.keys
            && LogOf(twice) == LogOf(once)
  {
    var c := if a <= b then a else b;
    var first := RollbackTables(t, a);
    var twice, once := RollbackTables(first, b), RollbackTables(t, c);
    RollbackIsUndo(h, t, a);
    RollbackIsUndo(h, first, b);
    RollbackIsUndo(h, t, c);
    UpToUpTo(LogOf(t), a, b);
    TwiceKeepsOps(t, a, b);
    forall k | k in t.keys ensures twice.keys[k] == once.keys[k] {
      SameKeyTwice(h, t, a, b, k);
    }
  }

  lemma SameKeyTwice(h: Hash, t: Tables, a: int, b: int, k: Digest)
    requires Inv(h, t) && Inv(h, RollbackTables(t, a)) && k in t.keys && k in RollbackTables(t, a).keys
    requires LogOf(RollbackTables(t, a)) == UpTo(LogOf(t), a)
    ensures RollbackTables(RollbackTables(t, a), b).keys[k] == RollbackTables(t, if a <= b then a else b).keys[k]
  {
    var c, first := if a <= b then a else b, RollbackTables(t, a);
    RestoredKey(h, first, b, k);
    RestoredKey(h, t, a, k);
    RestoredKey(h, t, c, k);
    UpToUpTo(LogOf(t), a, b);
    SameRow(RollbackTables(first, b).keys, RollbackTables(t, c).keys, k);
  }

  lemma TwiceKeepsOps(t: Tables, a: int, b: int)
    requires Linked(t)
    ensures var twice := RollbackTables(RollbackTables(t, a), b);
            var once := RollbackTables(t, if a <= b then a else b);
            twice.tries == once.tries && twice.ops == once.ops
  {
    var c := if a <= b then a else b;
    var first := RollbackTables(t, a);
    assert SurvivingTries(first, b) == SurvivingTries(t, c);
    forall o ensures Lookup(SurvivingOps(first, b), o) == Lookup(SurvivingOps(t, c), o) {
      TwiceKeepsOp(t, a, b, o);
    }
    EqualLookups(SurvivingOps(first, b), SurvivingOps(t, c));
  }

  lemma TwiceKeepsOp(t: Tables, a: int, b: int, o: int)
    requires Linked(t)
    ensures Lookup(SurvivingOps(RollbackTables(t, a), b), o) == Lookup(SurvivingOps(t, if a <= b then a else b), o)
  {
    var first := RollbackTables(t, a);
    RollbackLinked(t, a);
    KeptOps(t, a);
    KeptOps(t, if a <= b then a else b);
    KeptOps(first, b);
    if o in first.ops {
      assert first.tries[first.ops[o].trieId] == t.tries[t.ops[o].trieId];
    }
  }

  lemma KeptOps(t: Tables, cutoff: int)
    requires Linked(t)
    ensures forall o :: o in SurvivingOps(t, cutoff) <==> o in t.ops && t.tries[t.ops[o].trieId].slot <= cutoff
    ensures forall o :: o in SurvivingOps(t, cutoff) ==>
              SurvivingOps(t, cutoff)[o] == t.ops[o]
              && SurvivingOps(t, cutoff)[o].trieId in SurvivingTries(t, cutoff)
  {
  }

  lemma RollbackLinked(t: Tables, cutoff: int)
    requires Linked(t)
    ensures Linked(RollbackTables(t, cutoff))
  {
    RollbackLog(t, cutoff);
  }

  /** With coherent flags, a key row is determined by its identity and its live value. */
  lemma SameRow(a: map<Digest, KeyRow>, b: map<Digest, KeyRow>, k: Digest)
    requires k in a && k in b && Coherent(a[k]) && Coherent(b[k])
    requires a[k].objectId == b[k].objectId && a[k].rawKey == b[k].rawKey
    requires Lookup(LiveOf(a), k) == Lookup(LiveOf(b), k)
    ensures a[k] == b[k]
  {
  }

  // ---- The as-of query ----

  /** The as-of query at a slot is the live map of the rows at or before it. */
  lemma AsOfIsLive(log: seq<LogRow>, slot: int)
    requires QueryOrdered(log) && SlotsNondecreasing(log)
    ensures AsOf(log, slot) == Live(UpTo(log, slot))
  {
    var rows := UpTo(log, slot);
    forall k ensures Lookup(AsOf(log, slot), k) == Lookup(Live(rows), k) {
      AsOfPickIsLast(log, slot, k);
      ReplayLookup(map[], rows, k);
      var i := LastIsInLog(rows, k);
    }
    EqualLookups(AsOf(log, slot), Live(rows));
  }

  /** History is stable: what the query says about a slot is changed neither by batches at later
      slots nor by rollbacks to it or later. */
  lemma HistoryIsStable(log: seq<LogRow>, rows: seq<LogRow>, slot: int, cutoff: int)
    requires forall r :: r in rows ==> r.slot > slot
    requires cutoff >= slot
    ensures AsOf(log + rows, slot) == AsOf(log, slot) == AsOf(UpTo(log, cutoff), slot)
  {
    UpToConcat(log, rows, slot);
    UpToNone(rows, slot);
    assert UpTo(log, slot) + [] == UpTo(log, slot);
    UpToUpTo(log, cutoff, slot);
  }

  /** At any slot not below the newest row, the as-of query, the replay, the key table's two filters
      and the trie loader all give one map. */
  lemma ViewsCoincide(h: Hash, t: Tables, slot: int)
    requires Inv(h, t) && NotBefore(t, slot)
    ensures StateMapAtSlot(t, slot) == Live(LogOf(t)) == CurrentStateMap(t) == LoadedTrie(t)
  {
    LogRowsLinked(t);
    UpToAll(LogOf(t), slot);
    AsOfIsLive(LogOf(t), slot);
    FiltersAgree(h, t);
  }

  // ---- Why slots matter ----

  /** Three batches of which the first two share a slot: a delete, then an insert of the same key,
      then an update one slot later. */
  function SharedSlotLog(k: Digest, v: Digest, w: Digest): seq<LogRow> {
    [LogRow(5, 0, Delete, 0, 0, k, None),
     LogRow(5, 1, Insert, 0, 1, k, Some(v)),
     LogRow(6, 2, Update, 0, 2, k, Some(w))]
  }

  /** Without the guard rollback is not an undo: rolling back the update restores the delete, although
      the insert was the key's last operation at the cutoff, as the as-of query finds. */
  lemma SharedSlotBreaksRollback(k: Digest, v: Digest, w: Digest)
    ensures var log := SharedSlotLog(k, v, w);
            && QueryOrdered(log) && SlotsNondecreasing(log) && OperationsHaveOneTrie(log)
            && !SlotTiesResolved(log)
            && Lookup(Live(UpTo(log, 5)), k) == Some(v)
            && Lookup(AsOf(log, 5), k) == Some(v)
            && EffectOf(Pick(UpTo(log, 5), RollbackLess, k)) == None
  {
    var log := SharedSlotLog(k, v, w);
    assert LastOfItsSlot(log, 1);
    SharedSlotRows(log[0], log[1], log[2]);
    AsOfIsLive(log, 5);
  }

  lemma SharedSlotRows(a: LogRow, b: LogRow, c: LogRow)
    requires a.slot == b.slot == 5 && c.slot == 6 && a.keyHash == b.keyHash
    requires a.opType == Delete && b.opType == Insert && b.valueHash.Some?
    ensures UpTo([a, b, c], 5) == [a, b]
    ensures Lookup(Live([a, b]), a.keyHash) == b.valueHash
    ensures Pick([a, b], RollbackLess, a.keyHash) == Some(a)
  {
    assert [a, b, c][..2] == [a, b] && [a, b][..1] == [a] && [a][..0] == [];
    assert UpTo([a], 5) == [a];
    assert UpTo([a, b], 5) == [a, b];
    assert Pick([a], RollbackLess, a.keyHash) == Some(a);
    ReplayLookup(map[], [a, b], a.keyHash);
  }
}
