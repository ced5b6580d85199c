/** Producer and consumer agree: ingesting what was published at a live state leads the store to the
    snapshot, and to the published root. */
module EndToEnd {
  import opened Common
  import opened OperationLog
  import opened BatchOrder
  import opened VersionedStore
  import opened BatchWrites
  import opened TrieAgreement
  import opened StoreInvariant
  import opened RollbackUndo
  import opened StoreRuns
  import opened Hex
  import opened TrieDiff
  import opened Publisher
  import opened Consumer

  // ---- Entries that lead from one state to another ----

  ghost predicate DistinctEntries(h: Hash, es: seq<Entry>) {
    forall i, j :: 0 <= i < j < |es| ==> EntryKey(h, es[i]) != EntryKey(h, es[j])
  }

  /** Each entry moves its key from its value in `from` to its value in `to`. */
  ghost predicate Moves(h: Hash, from: map<Digest, Digest>, to: map<Digest, Digest>, e: Entry) {
    var k := EntryKey(h, e);
    if e.opType == Delete then k in from && k !in to
    else k in to && EntryValue(h, e) == Some(to[k])
  }

  ghost predicate Mentions(h: Hash, es: seq<Entry>, k: Digest) {
    exists e :: e in es && EntryKey(h, e) == k
  }

  /** The entries change exactly the keys that must change. */
  ghost predicate Realises(h: Hash, from: map<Digest, Digest>, to: map<Digest, Digest>, es: seq<Entry>) {
    && DistinctEntries(h, es)
    && (forall e :: e in es ==> Moves(h, from, to, e))
    && (forall k :: Lookup(from, k) != Lookup(to, k) ==> Mentions(h, es, k))
  }

  lemma {:induction false} FoldSucceeds(h: Hash, from: map<Digest, Digest>, to: map<Digest, Digest>, es: seq<Entry>)
    requires DistinctEntries(h, es) && forall e :: e in es ==> Moves(h, from, to, e)
    ensures !TrieFold(h, from, es).failed
  {
    if es != [] {
      var n := |es| - 1;
      var front, e := es[..n], es[n];
      assert es == front + [e];
      FoldSucceeds(h, from, to, front);
      TrieFoldLookup(h, from, front, EntryKey(h, e));
      assert forall i :: 0 <= i < n ==> front[i] == es[i];
      assert Moves(h, from, to, e);
    }
  }

  /** Entries that realise a change take the trie from one state to the other. */
  lemma FoldRealises(h: Hash, from: map<Digest, Digest>, to: map<Digest, Digest>, es: seq<Entry>)
    requires Realises(h, from, to, es)
    ensures TrieFold(h, from, es) == TrieRun(to, false)
    ensures NoRepeats(h, es)
  {
    FoldSucceeds(h, from, to, es);
    var trie := TrieFold(h, from, es).trie;
    forall k ensures Lookup(trie, k) == Lookup(to, k) {
      TrieFoldLookup(h, from, es, k);
      var i := LastIndex(h, es, k);
      if i >= 0 {
        assert es[i] in es && Moves(h, from, to, es[i]);
      } else {
        NotMentioned(h, es, k);
      }
    }
    EqualLookups(trie, to);
  }

  lemma NotMentioned(h: Hash, es: seq<Entry>, k: Digest)
    requires LastIndex(h, es, k) < 0
    ensures !Mentions(h, es, k)
  {
  }

  // ---- The incremental branch ----

  /** Published keys that name these digests. */
  ghost predicate Names(keys: seq<string>, ks: seq<Digest>) {
    |keys| == |ks| && forall i :: 0 <= i < |ks| ==> DigestOfHex(keys[i]) == Some(ks[i])
  }

  function KeyTexts(kvs: seq<KVHex>): seq<string> {
    seq(|kvs|, i requires 0 <= i < |kvs| => kvs[i].key)
  }

  lemma PublishedNames(ps: seq<Pair>, dels: seq<Digest>)
    ensures Names(KeyTexts(HexPairs(ps)), KeysOf(ps))
    ensures Names(HexKeys(dels), dels)
  {
    forall i | 0 <= i < |ps| ensures DigestOfHex(KeyTexts(HexPairs(ps))[i]) == Some(KeysOf(ps)[i]) {
      HexRoundTrip(ps[i].key);
    }
    forall i | 0 <= i < |dels| ensures DigestOfHex(HexKeys(dels)[i]) == Some(dels[i]) {
      HexRoundTrip(dels[i]);
    }
  }

  /** Reading published keys back gives one entry each, numbered in order. */
  lemma {:induction false} ListedReadsBack(raw: map<Digest, RawCell>, kvs: seq<KVHex>, ks: seq<Digest>, opType: OpType)
    requires Names(KeyTexts(kvs), ks) && forall i :: 0 <= i < |ks| ==> ks[i] in raw
    ensures var es := ListedEntries(raw, kvs, opType);
            |es| == |ks| && forall i :: 0 <= i < |ks| ==> es[i] == CellEntry(raw[ks[i]], opType, i)
  {
    if kvs != [] {
      var n := |kvs| - 1;
      assert KeyTexts(kvs)[..n] == KeyTexts(kvs[..n]);
      ListedReadsBack(raw, kvs[..n], ks[..n], opType);
      assert DigestOfHex(kvs[n].key) == Some(ks[n]) by {
        assert KeyTexts(kvs)[n] == kvs[n].key;
      }
    }
  }

  lemma {:induction false} DeletesReadBack(keys: map<Digest, KeyRow>, dels: seq<string>, ks: seq<Digest>)
    requires Names(dels, ks) && forall i :: 0 <= i < |ks| ==> ks[i] in keys
    ensures var es := DeleteEntries(keys, dels);
            |es| == |ks| && forall i :: 0 <= i < |ks| ==>
              es[i] == Entry(keys[ks[i]].objectId, keys[ks[i]].rawKey, "", Delete, i)
  {
    if dels != [] {
      var n := |dels| - 1;
      DeletesReadBack(keys, dels[..n], ks[..n]);
    }
  }

  /** Entries of one type for a list of keys. */
  ghost predicate EntriesFor(h: Hash, es: seq<Entry>, ks: seq<Digest>, opType: OpType) {
    |es| == |ks| && forall i :: 0 <= i < |es| ==>
      EntryKey(h, es[i]) == ks[i] && es[i].opType == opType && es[i].seqOrder == i
  }

  /** Three numbered lists, one per type, are in execution order. */
  lemma ThreeListsSorted(h: Hash, a: seq<Entry>, b: seq<Entry>, c: seq<Entry>,
                         ka: seq<Digest>, kb: seq<Digest>, kc: seq<Digest>)
    requires EntriesFor(h, a, ka, Insert) && EntriesFor(h, b, kb, Update) && EntriesFor(h, c, kc, Delete)
    ensures Sorted(a + b + c)
    ensures Distinct(ka + kb + kc) ==> DistinctEntries(h, a + b + c)
  {
    var es, ks := a + b + c, ka + kb + kc;
    forall i | 0 <= i < |es| ensures EntryKey(h, es[i]) == ks[i] {
      if i < |a| {
        assert es[i] == a[i] && ks[i] == ka[i];
      } else if i < |a| + |b| {
        assert es[i] == b[i - |a|] && ks[i] == kb[i - |a|];
      } else {
        assert es[i] == c[i - |a| - |b|] && ks[i] == kc[i - |a| - |b|];
      }
    }
    forall i, j | 0 <= i < j < |es| ensures !GroupLess(GroupOf(es[j]), GroupOf(es[i])) {
    }
  }

  function KeysOf(ps: seq<Pair>): seq<Digest> {
    seq(|ps|, i requires 0 <= i < |ps| => ps[i].key)
  }

  lemma DistinctPatchKeys(ps: seq<Pair>, live: map<Digest, Digest>, dels: seq<Digest>)
    requires DistinctKeys(ps) && Lists(dels, live.Keys - KeySet(ps))
    ensures Distinct(KeysOf(Insertions(ps, live)) + KeysOf(Updates(ps, live)) + dels)
  {
    var edits := Puts(Insertions(ps, live)) + Puts(Updates(ps, live)) + Drops(dels);
    var ks := KeysOf(Insertions(ps, live)) + KeysOf(Updates(ps, live)) + dels;
    PatchIsDistinct(ps, live, dels);
    assert |ks| == |edits| && forall i :: 0 <= i < |ks| ==> ks[i] == edits[i].key;
  }

  /** The payload as a consumer reads it: the same, up to the order of object members. */
  ghost predicate Received(h: Hash, root: map<Digest, Digest> -> Digest, live: map<Digest, Digest>,
                           items: seq<Item>, dels: seq<Digest>, p: Payload) {
    SameSnapshot(items, p.data) && Publishes(h, root, live, items, dels, p.(data := items))
  }

  /** From the producer's live state, the rebuilt entries realise the snapshot. */
  lemma IncrementalRealises(h: Hash, root: map<Digest, Digest> -> Digest, t: Tables,
                            items: seq<Item>, dels: seq<Digest>, p: Payload)
    requires KeysSound(h, t.keys)
    requires DistinctKeys(Pairs(h, items)) && Received(h, root, LiveOf(t.keys), items, dels, p)
    ensures var es := IncrementalEntries(RawCells(h, p.data), t.keys, p);
            Realises(h, LiveOf(t.keys), SnapshotOf(Pairs(h, items)), es) && Sorted(es)
  {
    var live, ps, raw := LiveOf(t.keys), Pairs(h, items), RawCells(h, p.data);
    var ins, upd := Insertions(ps, live), Updates(ps, live);
    RawGivesSnapshot(h, items, p.data);
    InsertionMembers(ps, live);
    UpdateMembers(ps, live);
    forall q | q in ins || q in upd ensures q.key in raw {
      PairInKeySet(ps, q);
      SetAllLookup(map[], ps, q.key);
      LastValueFound(ps, q.key);
    }
    var snap := SnapshotOf(ps);
    ListedIsFor(h, raw, snap, ins, Insert);
    ListedIsFor(h, raw, snap, upd, Update);
    DeletesAreFor(h, t.keys, dels);
    var a, b := ListedEntries(raw, p.insertions, Insert), ListedEntries(raw, p.updates, Update);
    var c := DeleteEntries(t.keys, p.deletions);
    ThreeListsSorted(h, a, b, c, KeysOf(ins), KeysOf(upd), dels);
    DistinctPatchKeys(ps, live, dels);
    ListsMove(h, live, ps, dels, a, b, c);
    ListsMention(h, live, ps, dels, a, b, c);
  }

  lemma ListedIsFor(h: Hash, raw: map<Digest, RawCell>, snap: map<Digest, Digest>, ps: seq<Pair>, opType: OpType)
    requires opType != Delete && raw.Keys == snap.Keys && forall p :: p in ps ==> p.key in raw
    requires forall k :: k in raw ==> KeyHash(h, raw[k].objectId, raw[k].key) == k
                                      && RawValueHash(h, raw[k].text) == Some(snap[k])
    ensures var es := ListedEntries(raw, HexPairs(ps), opType);
            && EntriesFor(h, es, KeysOf(ps), opType)
            && forall e :: e in es ==> Holds(h, snap, e)
  {
    PublishedNames(ps, []);
    ListedReadsBack(raw, HexPairs(ps), KeysOf(ps), opType);
    var es := ListedEntries(raw, HexPairs(ps), opType);
    forall e | e in es ensures Holds(h, snap, e) {
      var i :| 0 <= i < |es| && es[i] == e;
    }
  }

  /** The entry gives its key the value it has in `snap`. */
  ghost predicate Holds(h: Hash, snap: map<Digest, Digest>, e: Entry) {
    EntryKey(h, e) in snap && EntryValue(h, e) == Some(snap[EntryKey(h, e)])
  }

  lemma DeletesAreFor(h: Hash, keys: map<Digest, KeyRow>, dels: seq<Digest>)
    requires KeysSound(h, keys) && forall k :: k in dels ==> k in keys
    ensures EntriesFor(h, DeleteEntries(keys, HexKeys(dels)), dels, Delete)
  {
    PublishedNames([], dels);
    DeletesReadBack(keys, HexKeys(dels), dels);
  }

  /** The raw cells of the received data hold the snapshot of the published data. */
  lemma RawGivesSnapshot(h: Hash, items: seq<Item>, data: seq<Item>)
    requires DistinctKeys(Pairs(h, items)) && SameSnapshot(items, data)
    ensures var raw, snap := RawCells(h, data), SnapshotOf(Pairs(h, items));
            && raw.Keys == snap.Keys
            && forall k :: k in raw ==> KeyHash(h, raw[k].objectId, raw[k].key) == k
                                        && RawValueHash(h, raw[k].text) == Some(snap[k])
  {
    var ps, qs := Pairs(h, items), Pairs(h, data);
    PairsOrderIrrelevant(h, items, data);
    DistinctTransfers(ps, qs);
    RawCellsMatch(h, data);
    forall k ensures Lookup(SnapshotOf(qs), k) == LastValue(qs, k) && (k in KeySet(qs) <==> k in SnapshotOf(qs)) {
      SetAllLookup(map[], qs, k);
      LastValueFound(qs, k);
    }
  }

  lemma ListsMove(h: Hash, live: map<Digest, Digest>, ps: seq<Pair>, dels: seq<Digest>,
                  a: seq<Entry>, b: seq<Entry>, c: seq<Entry>)
    requires Lists(dels, live.Keys - KeySet(ps))
    requires EntriesFor(h, a, KeysOf(Insertions(ps, live)), Insert)
    requires EntriesFor(h, b, KeysOf(Updates(ps, live)), Update) && EntriesFor(h, c, dels, Delete)
    requires forall e :: e in a || e in b ==> Holds(h, SnapshotOf(ps), e)
    ensures forall e :: e in a + b + c ==> Moves(h, live, SnapshotOf(ps), e)
  {
    forall e | e in a + b + c ensures Moves(h, live, SnapshotOf(ps), e) {
      if e in c {
        var i :| 0 <= i < |c| && c[i] == e;
        assert dels[i] in dels;
        SetAllLookup(map[], ps, dels[i]);
        LastValueFound(ps, dels[i]);
      } else if e in a {
        var i :| 0 <= i < |a| && a[i] == e;
      } else {
        var i :| 0 <= i < |b| && b[i] == e;
      }
    }
  }

  lemma ListsMention(h: Hash, live: map<Digest, Digest>, ps: seq<Pair>, dels: seq<Digest>,
                     a: seq<Entry>, b: seq<Entry>, c: seq<Entry>)
    requires DistinctKeys(ps) && Lists(dels, live.Keys - KeySet(ps))
    requires EntriesFor(h, a, KeysOf(Insertions(ps, live)), Insert)
    requires EntriesFor(h, b, KeysOf(Updates(ps, live)), Update) && EntriesFor(h, c, dels, Delete)
    ensures forall k :: Lookup(live, k) != Lookup(SnapshotOf(ps), k) ==> Mentions(h, a + b + c, k)
  {
    var es := a + b + c;
    forall k | Lookup(live, k) != Lookup(SnapshotOf(ps), k) ensures Mentions(h, es, k) {
      DiffKeys(ps, live, k);
      if k !in KeySet(ps) {
        assert k in dels;
        var i :| 0 <= i < |dels| && dels[i] == k;
        assert c[i] in es;
      } else if k !in live {
        var ins := Insertions(ps, live);
        var i :| 0 <= i < |ins| && ins[i].key == k;
        assert KeysOf(ins)[i] == k && a[i] in es;
      } else {
        var upd := Updates(ps, live);
        var i :| 0 <= i < |upd| && upd[i].key == k;
        assert KeysOf(upd)[i] == k && b[i] in es;
      }
    }
  }

  // ---- The genesis branch ----

  /** Inserting every cell leads to the live state overlaid with the snapshot: it deletes nothing. */
  lemma GenesisRealises(h: Hash, live: map<Digest, Digest>, items: seq<Item>, data: seq<Item>, order: seq<Digest>)
    requires DistinctKeys(Pairs(h, items)) && SameSnapshot(items, data)
    requires Lists(order, RawCells(h, data).Keys)
    ensures var es := GenesisEntries(RawCells(h, data), order);
            Realises(h, live, live + SnapshotOf(Pairs(h, items)), es) && Sorted(es)
  {
    RawGivesSnapshot(h, items, data);
    CellsRealise(h, live, RawCells(h, data), SnapshotOf(Pairs(h, items)), order);
  }

  lemma CellsRealise(h: Hash, live: map<Digest, Digest>, raw: map<Digest, RawCell>, snap: map<Digest, Digest>,
                     order: seq<Digest>)
    requires Lists(order, raw.Keys) && raw.Keys == snap.Keys
    requires forall k :: k in raw ==> KeyHash(h, raw[k].objectId, raw[k].key) == k
                                      && RawValueHash(h, raw[k].text) == Some(snap[k])
    ensures Realises(h, live, live + snap, GenesisEntries(raw, order)) && Sorted(GenesisEntries(raw, order))
  {
    var es := GenesisEntries(raw, order);
    forall i | 0 <= i < |es|
      ensures order[i] in raw && es[i] == CellEntry(raw[order[i]], Insert, i) && EntryKey(h, es[i]) == order[i]
      ensures Moves(h, live, live + snap, es[i])
    {
      assert order[i] in order;
    }
    forall e | e in es ensures Moves(h, live, live + snap, e) {
      var i :| 0 <= i < |es| && es[i] == e;
    }
    forall k | Lookup(live, k) != Lookup(live + snap, k) ensures Mentions(h, es, k) {
      assert k in order;
      var i :| 0 <= i < |order| && order[i] == k;
      assert es[i] in es;
    }
  }

  // ---- Both branches, through the store ----

  /** Where ingesting the payload leads. */
  ghost function Target(live: map<Digest, Digest>, snapshot: map<Digest, Digest>, p: Payload): map<Digest, Digest> {
    if IsGenesis(p) then live + snapshot else snapshot
  }

  lemma BuiltRealises(h: Hash, root: map<Digest, Digest> -> Digest, t: Tables,
                      items: seq<Item>, dels: seq<Digest>, p: Payload, es: seq<Entry>)
    requires KeysSound(h, t.keys) && DistinctKeys(Pairs(h, items))
    requires Received(h, root, LiveOf(t.keys), items, dels, p) && BuiltFrom(h, t.keys, p, es)
    ensures Realises(h, LiveOf(t.keys), Target(LiveOf(t.keys), SnapshotOf(Pairs(h, items)), p), es)
    ensures StableSort(es) == es
  {
    if IsGenesis(p) {
      var order: seq<Digest> :|
        Lists(order, RawCells(h, p.data).Keys) && es == GenesisEntries(RawCells(h, p.data), order);
      GenesisRealises(h, LiveOf(t.keys), items, p.data, order);
    } else {
      IncrementalRealises(h, root, t, items, dels, p);
    }
    StableSortOfSorted(es);
  }

  /** Ingesting a published payload at the producer's live state commits, and leads both the key
      table and the trie to the target. */
  lemma IngestReachesTarget(h: Hash, root: map<Digest, Digest> -> Digest, s: Store,
                            items: seq<Item>, dels: seq<Digest>, p: Payload, b: Batch)
    requires Inv(h, s.tables) && s.trie == LiveOf(s.tables.keys)
    requires DistinctKeys(Pairs(h, items)) && Received(h, root, s.trie, items, dels, p)
    requires BuiltFrom(h, s.tables.keys, p, b.entries)
    requires WellFormedBatch(b) && !HasCid(s.tables, b.cid) && !HasTxId(s.tables, b.txId)
    requires Admissible(h, s.tables, b)
    ensures var (s', outcome) := Ingest(h, s, b);
            && outcome == Applied && Inv(h, s'.tables)
            && s'.trie == LiveOf(s'.tables.keys) == Target(s.trie, SnapshotOf(Pairs(h, items)), p)
  {
    var es := b.entries;
    var target := Target(s.trie, SnapshotOf(Pairs(h, items)), p);
    BuiltRealises(h, root, s.tables, items, dels, p, es);
    FoldRealises(h, s.trie, target, es);
    NoRepeatsAgree(h, es);
    CommittedIsHashable(h, s.trie, es);
    PushedTrie(h, s, b, es);
    BatchKeepsInvariant(h, s.tables, b, es);
  }

  /** The published payload as the chain announces it: the datum carries the published root, and the
      file is new to the store and admissible in it. */
  ghost predicate Announced(h: Hash, s: Store, p: Payload, d: Datum, b: Batch) {
    && d.root == p.currentRoot
    && WellFormedBatch(b) && !HasCid(s.tables, b.cid) && !HasTxId(s.tables, b.txId)
    && Admissible(h, s.tables, b)
  }

  /** Key table and trie both hold this state. */
  ghost predicate Holding(s: Store, state: map<Digest, Digest>) {
    LiveOf(s.tables.keys) == state && s.trie == state
  }

  /** The step gets as far as the ingest. */
  ghost predicate Reaches(s: Store, p: Payload, d: Datum) {
    !Skipped(d) && Known(s.tables, p.previousFile)
  }

  /** Producer and consumer agree.  The consumer's live map and trie become the snapshot, which is the
      producer's scratch trie and has the published root, exactly when: the payload is not ingested and
      they were there already, or it is ingested and not taken for a genesis file while live keys remain
      to be deleted. */
  lemma ProducerConsumerAgree(h: Hash, root: map<Digest, Digest> -> Digest, s: Store,
                              items: seq<Item>, dels: seq<Digest>, p: Payload,
                              d: Datum, slot: int, txId: string, es: seq<Entry>)
    requires Inv(h, s.tables) && s.trie == LiveOf(s.tables.keys)
    requires DistinctKeys(Pairs(h, items)) && Received(h, root, s.trie, items, dels, p)
    requires BuiltFrom(h, s.tables.keys, p, es)
    requires Announced(h, s, p, d, BatchOf(p, d.cid, slot, txId, es))
    ensures var snapshot := SnapshotOf(Pairs(h, items));
            var (s', c) := Consume(h, s, p, d, slot, txId, es);
            && c == (if Skipped(d) then NothingToDo
                     else if !Reaches(s, p, d) then NoPreviousFile else Ingested(Applied))
            && Scratch(h, s.trie, items, dels) == snapshot
            && HexOf(root(snapshot)) == p.currentRoot
            && Inv(h, s'.tables) && s'.trie == LiveOf(s'.tables.keys)
            && (Holding(s', snapshot)
                <==> if Reaches(s, p, d) then IsGenesis(p) ==> s.trie.Keys <= snapshot.Keys else s.trie == snapshot)
  {
    var ps := Pairs(h, items);
    DistinctNeverReverts(ps, s.trie);
    PatchReachesSnapshot(ps, s.trie, dels);
    if Reaches(s, p, d) {
      IngestReachesTarget(h, root, s, items, dels, p, BatchOf(p, d.cid, slot, txId, es));
      OverlayIsSnapshot(s.trie, SnapshotOf(ps));
    }
  }

  lemma OverlayIsSnapshot(live: map<Digest, Digest>, snapshot: map<Digest, Digest>)
    ensures live + snapshot == snapshot <==> live.Keys <= snapshot.Keys
  {
    if live + snapshot == snapshot {
      assert forall k :: k in live ==> k in live + snapshot;
    }
  }

  /** If only the empty state has the null root, a genesis payload is published from the empty state
      alone, and the agreement is unconditional. */
  lemma NullRootMeansEmpty(h: Hash, root: map<Digest, Digest> -> Digest, live: map<Digest, Digest>,
                           items: seq<Item>, dels: seq<Digest>, p: Payload)
    requires Received(h, root, live, items, dels, p)
    requires forall m :: HexOf(root(m)) == NULL_TRIE_HASH ==> m == map[]
    ensures IsGenesis(p) ==> live.Keys <= SnapshotOf(Pairs(h, items)).Keys
  {
    assert |p.previousRoot| == 64;
  }

  /** Only the empty state has the null root. */
  ghost predicate NullMeansEmpty(root: map<Digest, Digest> -> Digest) {
    forall m :: HexOf(root(m)) == NULL_TRIE_HASH <==> m == map[]
  }

  /** A null new root is published exactly for an empty snapshot.  The consumer then leaves the store as
      it is, which is right exactly if it was empty already. */
  lemma NullRootIsSkipped(h: Hash, root: map<Digest, Digest> -> Digest, s: Store,
                          items: seq<Item>, dels: seq<Digest>, p: Payload,
                          d: Datum, slot: int, txId: string, es: seq<Entry>)
    requires DistinctKeys(Pairs(h, items)) && Received(h, root, s.trie, items, dels, p)
    requires d.root == p.currentRoot && NullMeansEmpty(root)
    ensures p.currentRoot == NULL_TRIE_HASH <==> SnapshotOf(Pairs(h, items)) == map[]
    ensures p.currentRoot == NULL_TRIE_HASH ==>
              && Consume(h, s, p, d, slot, txId, es) == (s, NothingToDo)
              && (s.trie == SnapshotOf(Pairs(h, items)) <==> p.previousRoot == NULL_TRIE_HASH)
  {
    var ps := Pairs(h, items);
    DistinctNeverReverts(ps, s.trie);
    PatchReachesSnapshot(ps, s.trie, dels);
  }

  /** With a null root for the empty state alone, a consumed payload leaves the store at the snapshot
      exactly when it was there before, or the snapshot is not empty and the previous file, if one is
      referred to, is stored. */
  lemma ConsumerReachesSnapshot(h: Hash, root: map<Digest, Digest> -> Digest, s: Store,
                                items: seq<Item>, dels: seq<Digest>, p: Payload,
                                d: Datum, slot: int, txId: string, es: seq<Entry>)
    requires Inv(h, s.tables) && s.trie == LiveOf(s.tables.keys)
    requires DistinctKeys(Pairs(h, items)) && Received(h, root, s.trie, items, dels, p)
    requires BuiltFrom(h, s.tables.keys, p, es) && d.fileHex != NULL_TRIE_HASH && NullMeansEmpty(root)
    requires Announced(h, s, p, d, BatchOf(p, d.cid, slot, txId, es))
    ensures var snapshot := SnapshotOf(Pairs(h, items));
            Holding(Consume(h, s, p, d, slot, txId, es).0, snapshot)
            <==> s.trie == snapshot || (snapshot != map[] && Known(s.tables, p.previousFile))
  {
    ProducerConsumerAgree(h, root, s, items, dels, p, d, slot, txId, es);
    NullRootIsSkipped(h, root, s, items, dels, p, d, slot, txId, es);
    NullRootMeansEmpty(h, root, s.trie, items, dels, p);
  }

  /** An emptied snapshot stops the next one: a first, empty snapshot is skipped and its file is never
      stored; the second one refers to that file and is not ingested, although it is not empty. */
  lemma EmptySnapshotBlocksNext(h: Hash, root: map<Digest, Digest> -> Digest, items: seq<Item>,
                                first: Payload, second: Payload, d: Datum, e: Datum,
                                slot: int, txId: string, es: seq<Entry>, fs: seq<Entry>)
    requires NullMeansEmpty(root) && DistinctKeys(Pairs(h, items)) && SnapshotOf(Pairs(h, items)) != map[]
    requires Received(h, root, map[], [], [], first) && d.root == first.currentRoot
    requires d.cid != "" && d.cid != NULL_TRIE_HASH
    requires Received(h, root, map[], items, [], second) && second.previousFile == d.cid
    requires e.root == second.currentRoot && e.fileHex != NULL_TRIE_HASH
    ensures Consume(h, EMPTY_STORE, first, d, slot, txId, es) == (EMPTY_STORE, NothingToDo)
    ensures Consume(h, EMPTY_STORE, second, e, slot, txId, fs) == (EMPTY_STORE, NoPreviousFile)
    ensures !Holding(EMPTY_STORE, SnapshotOf(Pairs(h, items)))
  {
    NullRootIsSkipped(h, root, EMPTY_STORE, [], [], first, d, slot, txId, es);
    NullRootIsSkipped(h, root, EMPTY_STORE, items, [], second, e, slot, txId, fs);
  }

  // ---- From any reachable store ----

  /** The file is new to the store and comes after everything in it. */
  ghost predicate ComesAfter(t: Tables, b: Batch) {
    && WellFormedBatch(b) && !HasCid(t, b.cid) && !HasTxId(t, b.txId)
    && forall id :: id in t.tries ==> t.tries[id].slot < b.slot
  }

  /** After any clean run of files and rollbacks, consuming a snapshot published at the live state and
      announced at a later slot leaves the store at the snapshot, under the published root, exactly when
      it was there before, or the snapshot is not empty and the previous file is stored or none. */
  lemma AgreementFromAnyRun(h: Hash, root: map<Digest, Digest> -> Digest, actions: seq<Action>,
                            items: seq<Item>, dels: seq<Digest>, p: Payload,
                            d: Datum, slot: int, txId: string, es: seq<Entry>)
    requires CleanRun(h, actions) && NullMeansEmpty(root)
    requires d.root == p.currentRoot && d.fileHex != NULL_TRIE_HASH
    requires var s := Run(h, EMPTY_STORE, actions);
             && DistinctKeys(Pairs(h, items)) && Received(h, root, s.trie, items, dels, p)
             && BuiltFrom(h, s.tables.keys, p, es) && ComesAfter(s.tables, BatchOf(p, d.cid, slot, txId, es))
    ensures var s, snapshot := Run(h, EMPTY_STORE, actions), SnapshotOf(Pairs(h, items));
            var s' := Consume(h, s, p, d, slot, txId, es).0;
            && Inv(h, s'.tables) && s'.trie == LiveOf(s'.tables.keys)
            && (Holding(s', snapshot)
                <==> s.trie == snapshot || (snapshot != map[] && Known(s.tables, p.previousFile)))
            && HexOf(root(snapshot)) == p.currentRoot
  {
    RunRepresentsHistory(h, actions);
    var s := Run(h, EMPTY_STORE, actions);
    LaterSlotAdmissible(h, s.tables, BatchOf(p, d.cid, slot, txId, es));
    ProducerConsumerAgree(h, root, s, items, dels, p, d, slot, txId, es);
    ConsumerReachesSnapshot(h, root, s, items, dels, p, d, slot, txId, es);
  }

  /** A rollback to before the slot at which the file was announced brings back the log, the live keys
      and the trie that the snapshot was published from. */
  lemma IngestedFileIsUndone(h: Hash, root: map<Digest, Digest> -> Digest, s: Store,
                             items: seq<Item>, dels: seq<Digest>, p: Payload,
                             d: Datum, slot: int, txId: string, es: seq<Entry>, cutoff: int)
    requires Inv(h, s.tables) && s.trie == LiveOf(s.tables.keys)
    requires DistinctKeys(Pairs(h, items)) && Received(h, root, s.trie, items, dels, p)
    requires BuiltFrom(h, s.tables.keys, p, es) && d.cid != "" && txId != "" && slot > 0
    requires !HasCid(s.tables, d.cid) && !HasTxId(s.tables, txId)
    requires NotBefore(s.tables, cutoff) && cutoff < slot && Reaches(s, p, d)
    ensures var s' := Rollback(Consume(h, s, p, d, slot, txId, es).0, cutoff);
            && LogOf(s'.tables) == LogOf(s.tables)
            && LiveOf(s'.tables.keys) == LiveOf(s.tables.keys) && s'.trie == s.trie
  {
    var b := BatchOf(p, d.cid, slot, txId, es);
    CurrentRootIsThere(h, root, s.trie, items, dels, p);
    LaterSlotAdmissible(h, s.tables, b);
    IngestReachesTarget(h, root, s, items, dels, p, b);
    BuiltRealises(h, root, s.tables, items, dels, p, b.entries);
    var t := WriteBatch(h, s.tables, b, b.entries);
    CutBatchAway(h, s.tables, b, cutoff);
    RollbackIsUndo(h, t, cutoff);
    FiltersAgree(h, RollbackTables(t, cutoff));
  }

  lemma CurrentRootIsThere(h: Hash, root: map<Digest, Digest> -> Digest, live: map<Digest, Digest>,
                           items: seq<Item>, dels: seq<Digest>, p: Payload)
    requires Received(h, root, live, items, dels, p)
    ensures p.currentRoot != ""
  {
    assert |p.currentRoot| == 64;
  }

  /** A rollback to the slot at which the file was announced, or later, keeps the file and leaves log, live
      keys and trie as the ingest left them. */
  lemma IngestedFileSurvives(h: Hash, root: map<Digest, Digest> -> Digest, s: Store,
                             items: seq<Item>, dels: seq<Digest>, p: Payload,
                             d: Datum, slot: int, txId: string, es: seq<Entry>, cutoff: int)
    requires Inv(h, s.tables) && s.trie == LiveOf(s.tables.keys)
    requires DistinctKeys(Pairs(h, items)) && Received(h, root, s.trie, items, dels, p)
    requires BuiltFrom(h, s.tables.keys, p, es) && d.cid != "" && txId != "" && slot > 0
    requires !HasCid(s.tables, d.cid) && !HasTxId(s.tables, txId)
    requires forall id :: id in s.tables.tries ==> s.tables.tries[id].slot < slot
    requires slot <= cutoff && Reaches(s, p, d)
    ensures var fed := Consume(h, s, p, d, slot, txId, es).0;
            var s' := Rollback(fed, cutoff);
            && HasCid(s'.tables, d.cid) && LogOf(s'.tables) == LogOf(fed.tables)
            && LiveOf(s'.tables.keys) == LiveOf(fed.tables.keys) && s'.trie == fed.trie
  {
    var b := BatchOf(p, d.cid, slot, txId, es);
    CurrentRootIsThere(h, root, s.trie, items, dels, p);
    LaterSlotAdmissible(h, s.tables, b);
    IngestReachesTarget(h, root, s, items, dels, p, b);
    AppliedAddsRow(h, s, b);
    KeptWhole(h, Ingest(h, s, b).0.tables, cutoff);
    assert s.tables.nextTrie in Ingest(h, s, b).0.tables.tries;
  }

  /** A rollback to a slot that nothing is after changes neither log nor live keys nor files. */
  lemma KeptWhole(h: Hash, t: Tables, cutoff: int)
    requires Inv(h, t) && NotBefore(t, cutoff)
    ensures var t' := RollbackTables(t, cutoff);
            && t'.tries == t.tries && LogOf(t') == LogOf(t) && LiveOf(t'.keys) == LiveOf(t.keys)
            && LoadedTrie(t') == LiveOf(t.keys)
  {
    var kept := SurvivingTries(t, cutoff);
    forall id
      ensures id in kept <==> id in t.tries
    {
    }
    assert kept == t.tries;
    LogRowsLinked(t);
    UpToAll(LogOf(t), cutoff);
    RollbackIsUndo(h, t, cutoff);
    FiltersAgree(h, RollbackTables(t, cutoff));
  }

  lemma CutBatchAway(h: Hash, t: Tables, b: Batch, cutoff: int)
    requires Linked(t) && NotBefore(t, cutoff) && cutoff < b.slot
    ensures UpTo(LogOf(WriteBatch(h, t, b, b.entries)), cutoff) == LogOf(t)
  {
    var rows := RowsOfBatch(h, t, b, b.entries);
    BatchExtendsLog(h, t, b, b.entries);
    LogRowsLinked(t);
    UpToConcat(LogOf(t), rows, cutoff);
    UpToAll(LogOf(t), cutoff);
    forall r | r in rows
      ensures r.slot > cutoff
    {
      RowSlot(h, t, b, r);
    }
    UpToNone(rows, cutoff);
  }

  lemma RowSlot(h: Hash, t: Tables, b: Batch, r: LogRow)
    requires r in RowsOfBatch(h, t, b, b.entries)
    ensures r.slot == b.slot
  {
    AllocCoversGroups(t.nextTrie, OpAlloc(map[], t.ops, t.nextOp), b.entries);
    RowsFromEntries(h, t.nextTrie, b.slot, AllocBatch(t, b.entries).ids, b.entries);
  }
}
