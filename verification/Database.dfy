/** The database object as it runs: the loops of ApplyOracleFile, the trie loader and the state-map
    readers, each proved against the store's specification. */
module DatabaseObject {
  import opened Common
  import opened OperationLog
  import opened BatchOrder
  import opened CanonicalJson
  import opened VersionedStore
  import opened StoreInvariant
  import opened TrieFailure

  lemma FoldNext(h: Hash, trie: map<Digest, Digest>, es: seq<Entry>, i: nat)
    requires i < |es|
    ensures TrieFold(h, trie, es[..i + 1]) == TrieStep(h, TrieFold(h, trie, es[..i]), es[i])
  {
    assert es[..i + 1][..i] == es[..i];
  }

  lemma AllocNext(trieId: int, start: OpAlloc, es: seq<Entry>, i: nat)
    requires i < |es|
    ensures AllocOps(trieId, start, es[..i + 1]) == AllocOp(trieId, AllocOps(trieId, start, es[..i]), es[i])
  {
    assert es[..i + 1][..i] == es[..i];
  }

  lemma EmitNext(h: Hash, ids: map<Group, int>, start: Written, es: seq<Entry>, i: nat)
    requires i < |es| && forall e :: e in es ==> GroupOf(e) in ids
    ensures es[i] in es && Emit(h, ids, start, es[..i + 1]) == EmitOne(h, ids, Emit(h, ids, start, es[..i]), es[i])
  {
    assert es[..i + 1][..i] == es[..i];
  }

  /** The rows made in two steps are the rows of the whole batch. */
  lemma RowsAreTheBatch(h: Hash, t: Tables, b: Batch, es: seq<Entry>, a: OpAlloc, w: Written)
    requires a == AllocOps(t.nextTrie, OpAlloc(map[], t.ops, t.nextOp), es)
    requires forall e :: e in es ==> GroupOf(e) in a.ids
    requires w == Emit(h, a.ids, Written(t.toks, t.keys, t.values, {}), es)
    ensures Tables(t.tries[t.nextTrie := TrieRowOf(b)], a.ops, w.toks, w.keys, w.values, t.nextTrie + 1, a.next)
            == WriteBatch(h, t, b, es)
  {
  }

  class Database {
    const digest: Hash
    var tables: Tables
    var memoryTrie: map<Digest, Digest>

    /** What the specification calls the store. */
    ghost function State(): Store
      reads this
    {
      Store(tables, memoryTrie)
    }

    /** New: opens the persisted tables and loads the trie from them. */
    constructor (digest: Hash, persisted: Tables)
      ensures this.digest == digest && tables == persisted && memoryTrie == LoadedTrie(persisted)
    {
      this.digest := digest;
      tables := persisted;
      memoryTrie := map[];
      new;
      LoadTrieFromDB();
    }

    /** LoadTrieFromDB: an empty trie, then every live row in whatever order the query returns it. */
    method LoadTrieFromDB()
      modifies this`memoryTrie
      ensures memoryTrie == LoadedTrie(tables)
    {
      memoryTrie := map[];
      var rows := set k | k in tables.keys && InTrie(tables.keys[k]);
      ghost var all := rows;
      while rows != {}
        invariant rows <= all
        invariant memoryTrie == map k | k in all - rows :: tables.keys[k].currentValue.value
        decreases rows
      {
        var k :| k in rows;
        memoryTrie := memoryTrie[k := tables.keys[k].currentValue.value];
        rows := rows - {k};
        assert all - rows == (all - (rows + {k})) + {k};
      }
    }

    method UpdateTrie(k: Digest, v: Digest)
      modifies this`memoryTrie
      ensures memoryTrie == old(memoryTrie)[k := v]
    {
      memoryTrie := memoryTrie[k := v];
    }

    /** DeleteTrieEntry passes on the trie's error for an absent key. */
    method DeleteTrieEntry(k: Digest) returns (ok: bool)
      modifies this`memoryTrie
      ensures ok <==> k in old(memoryTrie)
      ensures memoryTrie == old(memoryTrie) - {k}
    {
      ok := k in memoryTrie;
      memoryTrie := memoryTrie - {k};
    }

    /** The canonical bytes of a raw value: json.Unmarshal, then the encoder. */
    method CanonicalOfRaw(raw: string) returns (c: Option<string>)
      ensures c == RawCanonical(raw)
    {
      var v := Unmarshal(raw);
      if v.None? {
        return None;
      }
      c := Canonicalize(v.value);
    }

    /** The trie loop of ApplyOracleFile: stops at the first entry that fails, keeping what it did. */
    method ApplyToTrie(es: seq<Entry>) returns (ok: bool)
      modifies this`memoryTrie
      ensures var run := TrieFold(digest, old(memoryTrie), es); ok == !run.failed && memoryTrie == run.trie
    {
      ghost var start := memoryTrie;
      for i := 0 to |es|
        invariant TrieFold(digest, start, es[..i]) == TrieRun(memoryTrie, false)
      {
        var e := es[i];
        FoldNext(digest, start, es, i);
        if e.opType == Delete {
          ghost var before := memoryTrie;
          ok := DeleteTrieEntry(EntryKey(digest, e));
          if !ok {
            assert memoryTrie == before;
            FailureIsFinal(digest, start, es, i + 1);
            return;
          }
        } else {
          var c := CanonicalOfRaw(e.rawValue);
          if c.None? {
            FailureIsFinal(digest, start, es, i + 1);
            return false;
          }
          UpdateTrie(EntryKey(digest, e), digest(c.value));
        }
      }
      assert es[..|es|] == es;
      ok := true;
    }

    /** One operation row per type and sequence number. */
    method CreateOperations(trieId: int, es: seq<Entry>) returns (a: OpAlloc)
      ensures a == AllocOps(trieId, OpAlloc(map[], tables.ops, tables.nextOp), es)
    {
      ghost var start := OpAlloc(map[], tables.ops, tables.nextOp);
      var ids: map<Group, int>, ops, next := map[], tables.ops, tables.nextOp;
      for i := 0 to |es|
        invariant AllocOps(trieId, start, es[..i]) == OpAlloc(ids, ops, next)
      {
        AllocNext(trieId, start, es, i);
        var g := GroupOf(es[i]);
        if g !in ids {
          ids, ops, next := ids[g := next], ops[next := OpRow(trieId, es[i].opType, es[i].seqOrder)], next + 1;
        }
      }
      assert es[..|es|] == es;
      a := OpAlloc(ids, ops, next);
    }

    /** The emission loop: key, value and operation-key rows, the trigger firing on each of the last. */
    method EmitRows(ids: map<Group, int>, es: seq<Entry>) returns (w: Written)
      requires forall e :: e in es ==> GroupOf(e) in ids
      ensures w == Emit(digest, ids, Written(tables.toks, tables.keys, tables.values, {}), es)
    {
      ghost var start := Written(tables.toks, tables.keys, tables.values, {});
      var toks, keys, values, emitted := tables.toks, tables.keys, tables.values, {};
      for i := 0 to |es|
        invariant Emit(digest, ids, start, es[..i]) == Written(toks, keys, values, emitted)
      {
        EmitNext(digest, ids, start, es, i);
        var e := es[i];
        var g, k := GroupOf(e), EntryKey(digest, e);
        if k !in keys {
          keys := keys[k := KeyRow(e.objectId, e.rawKey, None, false, false)];
        }
        if (g, k) !in emitted {
          emitted := emitted + {(g, k)};
          var valueHash := None;
          if e.opType != Delete {
            var c := CanonicalOfRaw(e.rawValue);
            if c.Some? {
              valueHash := Some(digest(c.value));
              if digest(c.value) !in values {
                values := values[digest(c.value) := c.value];
              }
            }
          }
          var tok := TokRow(ids[g], k, valueHash);
          toks := toks + [tok];
          keys := Trigger(keys, e.opType, tok);
        }
      }
      assert es[..|es|] == es;
      w := Written(toks, keys, values, emitted);
    }

    /** The transaction of ApplyOracleFile.  The rows are put in place together, as it commits them; the
        in-memory trie changes before that and is not restored when an entry fails. */
    method StoreBatch(b: Batch, es: seq<Entry>) returns (ok: bool)
      modifies this
      ensures ok == !TrieFold(digest, old(memoryTrie), es).failed
      ensures memoryTrie == TrieFold(digest, old(memoryTrie), es).trie
      ensures tables == if ok then WriteBatch(digest, old(tables), b, es) else old(tables)
    {
      var trieId := tables.nextTrie;
      var a := CreateOperations(trieId, es);
      AllocCoversGroups(trieId, OpAlloc(map[], tables.ops, tables.nextOp), es);
      ok := ApplyToTrie(es);
      if ok {
        var w := EmitRows(a.ids, es);
        RowsAreTheBatch(digest, tables, b, es, a, w);
        tables := Tables(tables.tries[trieId := TrieRowOf(b)], a.ops, w.toks, w.keys, w.values, trieId + 1, a.next);
      }
    }

    /** ApplyOracleFile: the guards, the check for a stored file, the sort, then the transaction. */
    method ApplyOracleFile(b: Batch) returns (outcome: Outcome)
      modifies this
      ensures (State(), outcome) == Ingest(digest, old(State()), b)
      ensures outcome == AlreadyStored <==>
                && b.cid != "" && b.currentRoot != "" && b.slot > 0 && b.txId != ""
                && exists id :: id in old(tables.tries) && old(tables.tries)[id].cid == b.cid
      ensures outcome == Rejected(DuplicateTxId) <==>
                && b.cid != "" && b.currentRoot != "" && b.slot > 0 && b.txId != ""
                && (forall id :: id in old(tables.tries) ==> old(tables.tries)[id].cid != b.cid)
                && exists id :: id in old(tables.tries) && old(tables.tries)[id].txId == b.txId
      ensures outcome != Applied ==> tables == old(tables)
      ensures outcome != Applied && outcome != Rejected(TrieFailed) ==> memoryTrie == old(memoryTrie)
    {
      if b.cid == "" { return Rejected(MissingCid); }
      if b.currentRoot == "" { return Rejected(MissingRoot); }
      if b.slot <= 0 { return Rejected(BadSlot); }
      if b.txId == "" { return Rejected(MissingTxId); }
      if HasCid(tables, b.cid) { return AlreadyStored; }
      if HasTxId(tables, b.txId) { return Rejected(DuplicateTxId); }
      var ok := StoreBatch(b, StableSort(b.entries));
      outcome := if ok then Applied else Rejected(TrieFailed);
    }

    /** Rollback: the SQL function, then the trie reloaded. */
    method Rollback(slot: int)
      modifies this
      ensures State() == VersionedStore.Rollback(old(State()), slot)
    {
      tables := RollbackTables(tables, slot);
      LoadTrieFromDB();
    }

    /** GetCurrentStateMap. */
    method GetCurrentStateMap() returns (m: map<Digest, Digest>)
      ensures m == CurrentStateMap(tables)
      ensures Inv(digest, tables) ==> m == Live(LogOf(tables))
    {
      m := map[];
      var rows := set k | k in tables.keys && InStateMap(tables.keys[k]);
      ghost var all := rows;
      while rows != {}
        invariant rows <= all
        invariant m == map k | k in all - rows :: tables.keys[k].currentValue.value
        decreases rows
      {
        var k :| k in rows;
        m := m[k := tables.keys[k].currentValue.value];
        rows := rows - {k};
        assert all - rows == (all - (rows + {k})) + {k};
      }
      if Inv(digest, tables) {
        FiltersAgree(digest, tables);
      }
    }
  }
}
