/** A published payload consumed at a state other than the one it was published at.  The consumer only
    logs that its validation fails there, and ingests the payload all the same. */
module OtherState {
  import opened Common
  import opened OperationLog
  import opened BatchOrder
  import opened VersionedStore
  import opened BatchWrites
  import opened TrieAgreement
  import opened TrieFailure
  import opened StoreInvariant
  import opened StoreRuns
  import opened TrieDiff
  import opened Publisher
  import opened Consumer
  import opened EndToEnd

  // ---- Entries with distinct keys, at any state ----

  /** The entry gives its key what `snap` says of it. */
  ghost predicate Sets(h: Hash, snap: map<Digest, Digest>, e: Entry) {
    if e.opType == Delete then EntryKey(h, e) !in snap else Holds(h, snap, e)
  }

  ghost predicate DeletesFind(h: Hash, m: map<Digest, Digest>, es: seq<Entry>) {
    forall i :: 0 <= i < |es| && es[i].opType == Delete ==> EntryKey(h, es[i]) in m
  }

  lemma FirstOfItsKey(h: Hash, m: map<Digest, Digest>, es: seq<Entry>, i: int)
    requires DistinctEntries(h, es) && 0 <= i < |es|
    ensures LiveBefore(h, m, es, i) <==> EntryKey(h, es[i]) in m
  {
    var j := LastIndex(h, es[..i], EntryKey(h, es[i]));
    assert forall x :: 0 <= x < i ==> es[..i][x] == es[x];
  }

  /** Such entries get through exactly when their deletes find their keys. */
  lemma DistinctExecutable(h: Hash, m: map<Digest, Digest>, snap: map<Digest, Digest>, es: seq<Entry>)
    requires DistinctEntries(h, es) && forall i :: 0 <= i < |es| ==> Sets(h, snap, es[i])
    ensures !TrieFold(h, m, es).failed <==> DeletesFind(h, m, es)
  {
    FailsExactlyWhen(h, m, es);
    forall i | 0 <= i < |es|
      ensures LiveBefore(h, m, es, i) <==> EntryKey(h, es[i]) in m
    {
      FirstOfItsKey(h, m, es, i);
    }
  }

  /** What they leave is the snapshot exactly when the keys they do not name are as it says. */
  lemma SetsReach(h: Hash, m: map<Digest, Digest>, snap: map<Digest, Digest>, es: seq<Entry>)
    requires !TrieFold(h, m, es).failed && forall i :: 0 <= i < |es| ==> Sets(h, snap, es[i])
    ensures TrieFold(h, m, es).trie == snap
            <==> forall k :: !Mentions(h, es, k) ==> Lookup(m, k) == Lookup(snap, k)
  {
    var trie := TrieFold(h, m, es).trie;
    forall k
      ensures Lookup(trie, k) == if Mentions(h, es, k) then Lookup(snap, k) else Lookup(m, k)
    {
      TrieFoldLookup(h, m, es, k);
      LastMentions(h, es, k);
    }
    if forall k :: !Mentions(h, es, k) ==> Lookup(m, k) == Lookup(snap, k) {
      EqualLookups(trie, snap);
    }
  }

  lemma LastMentions(h: Hash, es: seq<Entry>, k: Digest)
    ensures LastIndex(h, es, k) >= 0 <==> Mentions(h, es, k)
  {
    var i := LastIndex(h, es, k);
    if i >= 0 {
      assert es[i] in es;
    } else {
      NotMentioned(h, es, k);
    }
  }

  // ---- The entries of the incremental branch ----

  /** The deletions whose key the key table knows; the others are skipped. */
  function Present(dels: seq<Digest>, keys: map<Digest, KeyRow>): seq<Digest> {
    if dels == [] then []
    else
      var last := dels[|dels| - 1];
      Present(dels[..|dels| - 1], keys) + if last in keys then [last] else []
  }

  lemma {:induction false} PresentMembers(dels: seq<Digest>, keys: map<Digest, KeyRow>)
    ensures forall k :: k in Present(dels, keys) <==> k in dels && k in keys
    ensures Distinct(dels) ==> Distinct(Present(dels, keys))
  {
    if dels != [] {
      var front, last := dels[..|dels| - 1], dels[|dels| - 1];
      PresentMembers(front, keys);
      assert dels == front + [last];
    }
  }

  /** Unknown deletions leave no entry. */
  lemma {:induction false} UnknownSkipped(keys: map<Digest, KeyRow>, names: seq<string>, dels: seq<Digest>)
    requires Names(names, dels)
    ensures var ks, es := Present(dels, keys), DeleteEntries(keys, names);
            |es| == |ks| && forall i :: 0 <= i < |ks| ==>
              ks[i] in keys && es[i] == Entry(keys[ks[i]].objectId, keys[ks[i]].rawKey, "", Delete, i)
  {
    if dels != [] {
      var n := |dels| - 1;
      UnknownSkipped(keys, names[..n], dels[..n]);
    }
  }

  lemma PresentAreFor(h: Hash, keys: map<Digest, KeyRow>, dels: seq<Digest>)
    requires KeysSound(h, keys)
    ensures EntriesFor(h, DeleteEntries(keys, HexKeys(dels)), Present(dels, keys), Delete)
  {
    PublishedNames([], dels);
    UnknownSkipped(keys, HexKeys(dels), dels);
  }

  lemma DistinctSub(x: seq<Digest>, dels: seq<Digest>, some: seq<Digest>)
    requires Distinct(x + dels) && Distinct(some) && forall k :: k in some ==> k in dels
    ensures Distinct(x + some)
  {
    var all, sub := x + dels, x + some;
    forall i, j | 0 <= i < j < |sub|
      ensures sub[i] != sub[j]
    {
      if j < |x| {
        assert all[i] == sub[i] && all[j] == sub[j];
      } else if i < |x| {
        assert sub[j] in some;
        var d :| 0 <= d < |dels| && dels[d] == sub[j];
        assert all[i] == sub[i] && all[|x| + d] == sub[j];
      } else {
        assert sub[i] == some[i - |x|] && sub[j] == some[j - |x|];
      }
    }
  }

  /** Entries for one list of keys name those keys. */
  lemma NamedKeys(h: Hash, es: seq<Entry>, ks: seq<Digest>, opType: OpType, k: Digest)
    requires EntriesFor(h, es, ks, opType)
    ensures Mentions(h, es, k) <==> k in ks
  {
    if Mentions(h, es, k) {
      var e :| e in es && EntryKey(h, e) == k;
      var i :| 0 <= i < |es| && es[i] == e;
      assert ks[i] in ks;
    }
    if k in ks {
      var i :| 0 <= i < |ks| && ks[i] == k;
      assert es[i] in es;
    }
  }

  lemma MentionsConcat(h: Hash, a: seq<Entry>, b: seq<Entry>, k: Digest)
    ensures Mentions(h, a + b, k) <==> Mentions(h, a, k) || Mentions(h, b, k)
  {
    assert forall e :: e in a + b <==> e in a || e in b;
  }

  lemma DeletesAmong(h: Hash, m: map<Digest, Digest>, front: seq<Entry>, c: seq<Entry>, ks: seq<Digest>)
    requires (forall i :: 0 <= i < |front| ==> front[i].opType != Delete) && EntriesFor(h, c, ks, Delete)
    ensures DeletesFind(h, m, front + c) <==> forall k :: k in ks ==> k in m
  {
    var es := front + c;
    if DeletesFind(h, m, es) {
      forall k | k in ks
        ensures k in m
      {
        var i :| 0 <= i < |ks| && ks[i] == k;
        assert es[|front| + i] == c[i];
      }
    }
    if forall k :: k in ks ==> k in m {
      forall i | 0 <= i < |es| && es[i].opType == Delete
        ensures EntryKey(h, es[i]) in m
      {
        assert i >= |front| && es[i] == c[i - |front|];
        assert ks[i - |front|] in ks;
      }
    }
  }

  /** What the entries of the incremental branch are, whatever the key table they were built with. */
  ghost predicate Carries(h: Hash, live: map<Digest, Digest>, ps: seq<Pair>, dels: seq<Digest>,
                          keys: map<Digest, KeyRow>, es: seq<Entry>)
  {
    && DistinctEntries(h, es) && Sorted(es)
    && (forall i :: 0 <= i < |es| ==> Sets(h, SnapshotOf(ps), es[i]))
    && (forall k :: Mentions(h, es, k) <==>
          k in KeySet(Insertions(ps, live)) || k in KeySet(Updates(ps, live)) || k in Present(dels, keys))
    && (forall m :: DeletesFind(h, m, es) <==> forall k :: k in Present(dels, keys) ==> k in m)
  }

  lemma KeysOfPairs(ps: seq<Pair>, k: Digest)
    ensures k in KeysOf(ps) <==> k in KeySet(ps)
  {
    if k in KeysOf(ps) {
      var i :| 0 <= i < |ps| && KeysOf(ps)[i] == k;
      PairInKeySet(ps, ps[i]);
    }
    if k in KeySet(ps) {
      var p :| p in ps && p.key == k;
      var i :| 0 <= i < |ps| && ps[i] == p;
      assert KeysOf(ps)[i] == k;
    }
  }

  /** The two lists that carry values, and the deletions, put together. */
  lemma ListsCarry(h: Hash, live: map<Digest, Digest>, ps: seq<Pair>, dels: seq<Digest>, keys: map<Digest, KeyRow>,
                   a: seq<Entry>, b: seq<Entry>, c: seq<Entry>)
    requires DistinctKeys(ps) && Lists(dels, live.Keys - KeySet(ps))
    requires EntriesFor(h, a, KeysOf(Insertions(ps, live)), Insert)
    requires EntriesFor(h, b, KeysOf(Updates(ps, live)), Update)
    requires EntriesFor(h, c, Present(dels, keys), Delete)
    requires forall e :: e in a || e in b ==> Holds(h, SnapshotOf(ps), e)
    ensures Carries(h, live, ps, dels, keys, a + b + c)
  {
    var ka, kb, kc := KeysOf(Insertions(ps, live)), KeysOf(Updates(ps, live)), Present(dels, keys);
    PresentMembers(dels, keys);
    DistinctPatchKeys(ps, live, dels);
    DistinctSub(ka + kb, dels, kc);
    ThreeListsSorted(h, a, b, c, ka, kb, kc);
    ListsSet(h, live, ps, dels, keys, a, b, c);
    forall k
      ensures Mentions(h, a + b + c, k) <==>
                k in KeySet(Insertions(ps, live)) || k in KeySet(Updates(ps, live)) || k in kc
    {
      MentionsConcat(h, a + b, c, k);
      MentionsConcat(h, a, b, k);
      NamedKeys(h, a, ka, Insert, k);
      NamedKeys(h, b, kb, Update, k);
      NamedKeys(h, c, kc, Delete, k);
      KeysOfPairs(Insertions(ps, live), k);
      KeysOfPairs(Updates(ps, live), k);
    }
    forall m
      ensures DeletesFind(h, m, a + b + c) <==> forall k :: k in kc ==> k in m
    {
      DeletesAmong(h, m, a + b, c, kc);
    }
  }

  lemma ListsSet(h: Hash, live: map<Digest, Digest>, ps: seq<Pair>, dels: seq<Digest>, keys: map<Digest, KeyRow>,
                 a: seq<Entry>, b: seq<Entry>, c: seq<Entry>)
    requires Lists(dels, live.Keys - KeySet(ps))
    requires EntriesFor(h, a, KeysOf(Insertions(ps, live)), Insert)
    requires EntriesFor(h, b, KeysOf(Updates(ps, live)), Update)
    requires EntriesFor(h, c, Present(dels, keys), Delete)
    requires forall e :: e in a || e in b ==> Holds(h, SnapshotOf(ps), e)
    ensures forall i :: 0 <= i < |a + b + c| ==> Sets(h, SnapshotOf(ps), (a + b + c)[i])
  {
    var es := a + b + c;
    PresentMembers(dels, keys);
    forall i | 0 <= i < |es|
      ensures Sets(h, SnapshotOf(ps), es[i])
    {
      if i < |a| {
        assert es[i] == a[i] && a[i] in a;
      } else if i < |a| + |b| {
        assert es[i] == b[i - |a|] && b[i - |a|] in b;
      } else {
        var k := Present(dels, keys)[i - |a| - |b|];
        assert es[i] == c[i - |a| - |b|] && k in Present(dels, keys);
        SetAllLookup(map[], ps, k);
        LastValueFound(ps, k);
      }
    }
  }

  lemma IncrementalCarries(h: Hash, root: map<Digest, Digest> -> Digest, live: map<Digest, Digest>,
                           keys: map<Digest, KeyRow>, items: seq<Item>, dels: seq<Digest>, p: Payload)
    requires KeysSound(h, keys)
    requires DistinctKeys(Pairs(h, items)) && Received(h, root, live, items, dels, p)
    ensures Carries(h, live, Pairs(h, items), dels, keys, IncrementalEntries(RawCells(h, p.data), keys, p))
  {
    var ps, raw := Pairs(h, items), RawCells(h, p.data);
    var ins, upd, snap := Insertions(ps, live), Updates(ps, live), SnapshotOf(ps);
    RawGivesSnapshot(h, items, p.data);
    InsertionMembers(ps, live);
    UpdateMembers(ps, live);
    forall q | q in ins || q in upd
      ensures q.key in raw
    {
      PairInKeySet(ps, q);
      SetAllLookup(map[], ps, q.key);
      LastValueFound(ps, q.key);
    }
    ListedIsFor(h, raw, snap, ins, Insert);
    ListedIsFor(h, raw, snap, upd, Update);
    PresentAreFor(h, keys, dels);
    ListsCarry(h, live, ps, dels, keys, ListedEntries(raw, p.insertions, Insert),
               ListedEntries(raw, p.updates, Update), DeleteEntries(keys, p.deletions));
  }

  // ---- Through the store ----

  /** Every key that the payload leaves alone has its snapshot value already. */
  ghost predicate RestAgrees(live: map<Digest, Digest>, m: map<Digest, Digest>, snap: map<Digest, Digest>) {
    forall k :: Lookup(live, k) == Lookup(snap, k) ==> Lookup(m, k) == Lookup(snap, k)
  }

  /** Keys the incremental entries do not name are right exactly when the rest agrees: a deletion that is
      skipped was of a key the store never had. */
  lemma UnnamedIsRest(h: Hash, live: map<Digest, Digest>, m: map<Digest, Digest>, ps: seq<Pair>, dels: seq<Digest>,
                      keys: map<Digest, KeyRow>, es: seq<Entry>)
    requires DistinctKeys(ps) && Lists(dels, live.Keys - KeySet(ps)) && Carries(h, live, ps, dels, keys, es)
    requires forall k :: k in m ==> k in keys
    ensures (forall k :: !Mentions(h, es, k) ==> Lookup(m, k) == Lookup(SnapshotOf(ps), k))
            <==> RestAgrees(live, m, SnapshotOf(ps))
  {
    PresentMembers(dels, keys);
    DiffIsMinimal(ps, live, dels);
    forall k
      ensures Lookup(live, k) != Lookup(SnapshotOf(ps), k) && !Mentions(h, es, k) ==>
                Lookup(m, k) == Lookup(SnapshotOf(ps), k)
      ensures Lookup(live, k) == Lookup(SnapshotOf(ps), k) ==> !Mentions(h, es, k)
    {
      ChangedIsNamed(h, live, ps, dels, keys, es, k);
      SetAllLookup(map[], ps, k);
      LastValueFound(ps, k);
    }
  }

  lemma ChangedIsNamed(h: Hash, live: map<Digest, Digest>, ps: seq<Pair>, dels: seq<Digest>,
                       keys: map<Digest, KeyRow>, es: seq<Entry>, k: Digest)
    requires DistinctKeys(ps) && Lists(dels, live.Keys - KeySet(ps)) && Carries(h, live, ps, dels, keys, es)
    ensures Mentions(h, es, k) <==> Lookup(live, k) != Lookup(SnapshotOf(ps), k) && (k in dels ==> k in keys)
  {
    PresentMembers(dels, keys);
    DiffIsMinimal(ps, live, dels);
    assert Lookup(live, k) != Lookup(SnapshotOf(ps), k) <==> k in Differing(live, SnapshotOf(ps));
  }

  /** Every published deletion of a known key finds it live, or the payload is taken for genesis. */
  ghost predicate DeletionsFind(s: Store, p: Payload, dels: seq<Digest>) {
    IsGenesis(p) || forall k :: k in dels && k in s.tables.keys ==> k in s.trie
  }

  /** The trie loop over the entries of a payload published at `live`, from the state of this store. */
  lemma FoldAtOtherState(h: Hash, root: map<Digest, Digest> -> Digest, s: Store, live: map<Digest, Digest>,
                         items: seq<Item>, dels: seq<Digest>, p: Payload, es: seq<Entry>)
    requires Inv(h, s.tables) && s.trie == LiveOf(s.tables.keys)
    requires DistinctKeys(Pairs(h, items)) && Received(h, root, live, items, dels, p)
    requires BuiltFrom(h, s.tables.keys, p, es)
    ensures Sorted(es) && NoRepeats(h, es)
    ensures !TrieFold(h, s.trie, es).failed <==> DeletionsFind(s, p, dels)
    ensures !TrieFold(h, s.trie, es).failed ==>
              (TrieFold(h, s.trie, es).trie == SnapshotOf(Pairs(h, items))
               <==> if IsGenesis(p) then s.trie.Keys <= SnapshotOf(Pairs(h, items)).Keys
                    else RestAgrees(live, s.trie, SnapshotOf(Pairs(h, items))))
  {
    var ps := Pairs(h, items);
    if IsGenesis(p) {
      var order: seq<Digest> :|
        Lists(order, RawCells(h, p.data).Keys) && es == GenesisEntries(RawCells(h, p.data), order);
      GenesisRealises(h, s.trie, items, p.data, order);
      FoldRealises(h, s.trie, s.trie + SnapshotOf(ps), es);
      OverlayIsSnapshot(s.trie, SnapshotOf(ps));
    } else {
      IncrementalCarries(h, root, live, s.tables.keys, items, dels, p);
      PresentMembers(dels, s.tables.keys);
      DistinctExecutable(h, s.trie, SnapshotOf(ps), es);
      if !TrieFold(h, s.trie, es).failed {
        SetsReach(h, s.trie, SnapshotOf(ps), es);
        UnnamedIsRest(h, live, s.trie, ps, dels, s.tables.keys, es);
      }
    }
  }

  /** A payload published at one state and consumed at another commits exactly when the deletions of known
      keys find them live.  It then leads to the snapshot exactly when every key it leaves alone has its
      snapshot value already - for a genesis payload, when no other key is live. */
  lemma ConsumedAtOtherState(h: Hash, root: map<Digest, Digest> -> Digest, s: Store, live: map<Digest, Digest>,
                             items: seq<Item>, dels: seq<Digest>, p: Payload,
                             d: Datum, slot: int, txId: string, es: seq<Entry>)
    requires Inv(h, s.tables) && s.trie == LiveOf(s.tables.keys)
    requires DistinctKeys(Pairs(h, items)) && Received(h, root, live, items, dels, p)
    requires BuiltFrom(h, s.tables.keys, p, es)
    requires Announced(h, s, p, d, BatchOf(p, d.cid, slot, txId, es)) && Reaches(s, p, d)
    ensures var snapshot := SnapshotOf(Pairs(h, items));
            var (s', c) := Consume(h, s, p, d, slot, txId, es);
            && c == Ingested(if DeletionsFind(s, p, dels) then Applied else Rejected(TrieFailed))
            && (!DeletionsFind(s, p, dels) ==> s'.tables == s.tables)
            && (DeletionsFind(s, p, dels) ==>
                  && Inv(h, s'.tables) && s'.trie == LiveOf(s'.tables.keys)
                  && (Holding(s', snapshot)
                      <==> if IsGenesis(p) then s.trie.Keys <= snapshot.Keys else RestAgrees(live, s.trie, snapshot)))
  {
    var b := BatchOf(p, d.cid, slot, txId, es);
    FoldAtOtherState(h, root, s, live, items, dels, p, es);
    StableSortOfSorted(es);
    if DeletionsFind(s, p, dels) {
      NoRepeatsAgree(h, es);
      CommittedIsHashable(h, s.trie, es);
      PushedTrie(h, s, b, es);
      BatchKeepsInvariant(h, s.tables, b, es);
    }
  }
}
