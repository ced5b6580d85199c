/** Validation of a published payload: recompute the diff from the previous state in hex and compare. */
module Validation {
  import opened Common
  import opened VersionedStore
  import opened StoreInvariant
  import opened RollbackUndo
  import opened Hex
  import opened TrieDiff
  import opened Publisher

  /** The keys that differ, each list in an arbitrary order; `errors` holds the mismatched keys. */
  datatype ValidationReport = ValidationReport(
    valid: bool,
    missingInsertions: seq<string>, unexpectedInsertions: seq<string>,
    missingUpdates: seq<string>, unexpectedUpdates: seq<string>,
    missingDeletions: seq<string>, unexpectedDeletions: seq<string>,
    errors: seq<string>)

  /** Published pairs as a map; of equal keys the last one counts. */
  function ToMap(kvs: seq<KVHex>): map<string, string> {
    if kvs == [] then map[]
    else ToMap(kvs[..|kvs| - 1])[kvs[|kvs| - 1].key := kvs[|kvs| - 1].value]
  }

  function ToSet(ks: seq<string>): set<string> {
    set k | k in ks
  }

  lemma AllHexInjective()
    ensures forall a, b :: HexOf(a) == HexOf(b) ==> a == b
  {
    forall a, b | HexOf(a) == HexOf(b) ensures a == b {
      HexInjective(a, b);
    }
  }

  /** A state as getStateFromDB hands it over: hex keys and hex values. */
  function HexState(m: map<Digest, Digest>): map<string, string> {
    AllHexInjective();
    map k | k in m :: HexOf(k) := HexOf(m[k])
  }

  lemma HexStateLookup(m: map<Digest, Digest>, k: Digest)
    ensures HexOf(k) in HexState(m) <==> k in m
    ensures k in m ==> HexState(m)[HexOf(k)] == HexOf(m[k])
  {
    AllHexInjective();
  }

  // ---- The hex-keyed diff ----

  function Padded(s: string): Option<Digest> {
    match DecodeString(s)
    case None => None
    case Some(b) => Some(Digest(PadTo32(b)))
  }

  /** An entry of the hex state that decodes to this key and value. */
  ghost predicate DecodesTo(previous: map<string, string>, s: string, k: Digest, v: Digest) {
    s in previous && Padded(s) == Some(k) && Padded(previous[s]) == Some(v)
  }

  ghost predicate OnlyDecoded(previous: map<string, string>, m: map<Digest, Digest>) {
    forall k :: k in m ==> exists s :: DecodesTo(previous, s, k, m[k])
  }

  ghost predicate AllDecoded(previous: map<string, string>, todo: set<string>, m: map<Digest, Digest>) {
    forall s, k, v :: s !in todo && DecodesTo(previous, s, k, v) ==> k in m
  }

  /** The conversion loop of diffTrieOpsFromHexState, in whatever order the map is iterated. */
  method DecodeState(previous: map<string, string>) returns (m: map<Digest, Digest>)
    ensures OnlyDecoded(previous, m) && AllDecoded(previous, {}, m)
    ensures forall live :: previous == HexState(live) ==> m == live
  {
    m := map[];
    var todo := previous.Keys;
    while todo != {}
      invariant todo <= previous.Keys
      invariant OnlyDecoded(previous, m) && AllDecoded(previous, todo, m)
      decreases todo
    {
      var s :| s in todo;
      todo := todo - {s};
      var k, v := Padded(s), Padded(previous[s]);
      if k.Some? && v.Some? {
        m := m[k.value := v.value];
        assert DecodesTo(previous, s, k.value, v.value);
      }
    }
    forall live | previous == HexState(live) ensures m == live {
      DecodedStateIsLive(live, m);
    }
  }

  /** On a state produced from the database the conversion is exact. */
  lemma DecodedStateIsLive(live: map<Digest, Digest>, m: map<Digest, Digest>)
    requires OnlyDecoded(HexState(live), m) && AllDecoded(HexState(live), {}, m)
    ensures m == live
  {
    forall k ensures Lookup(m, k) == Lookup(live, k) {
      if k in live {
        LiveIsDecoded(live, m, k);
      }
      if k in m {
        DecodedFromLive(live, k, m[k]);
      }
    }
    EqualLookups(m, live);
  }

  lemma LiveIsDecoded(live: map<Digest, Digest>, m: map<Digest, Digest>, k: Digest)
    requires AllDecoded(HexState(live), {}, m) && k in live
    ensures k in m
  {
    LiveDecodes(live, k);
  }

  lemma DecodedFromLive(live: map<Digest, Digest>, k: Digest, v: Digest)
    requires exists s :: DecodesTo(HexState(live), s, k, v)
    ensures k in live && live[k] == v
  {
    var s :| DecodesTo(HexState(live), s, k, v);
    DecodesToLive(live, s, k, v);
  }

  lemma HexStateKey(m: map<Digest, Digest>, s: string) returns (k: Digest)
    requires s in HexState(m)
    ensures k in m && HexOf(k) == s && HexState(m)[s] == HexOf(m[k])
  {
    k :| k in m && HexOf(k) == s;
    HexStateLookup(m, k);
  }

  lemma PaddedHex(d: Digest)
    ensures Padded(HexOf(d)) == Some(d)
  {
    HexRoundTrip(d);
  }

  lemma DecodesToLive(live: map<Digest, Digest>, s: string, k: Digest, v: Digest)
    requires DecodesTo(HexState(live), s, k, v)
    ensures k in live && live[k] == v
  {
    var j := HexStateKey(live, s);
    PaddedHex(j);
    PaddedHex(live[j]);
  }

  lemma LiveDecodes(live: map<Digest, Digest>, k: Digest)
    requires k in live
    ensures DecodesTo(HexState(live), HexOf(k), k, live[k])
  {
    PaddedHex(k);
    PaddedHex(live[k]);
    HexStateLookup(live, k);
  }

  /** The hex names of keys. */
  function HexNames(ks: set<Digest>): set<string> {
    set k | k in ks :: HexOf(k)
  }

  /** Listing keys and naming them is listing their names. */
  lemma NamesAreListed(ks: seq<Digest>, xs: set<Digest>)
    requires Lists(ks, xs)
    ensures Lists(HexKeys(ks), HexNames(xs))
  {
    var names := HexKeys(ks);
    forall i, j | 0 <= i < j < |names|
      ensures names[i] != names[j]
    {
      NotSameHex(ks[i], ks[j]);
    }
    forall s
      ensures s in names <==> s in HexNames(xs)
    {
      if s in names {
        var i :| 0 <= i < |names| && names[i] == s;
        assert ks[i] in ks;
      }
      if s in HexNames(xs) {
        var k :| k in xs && HexOf(k) == s;
        var i :| 0 <= i < |ks| && ks[i] == k;
        assert names[i] == s;
      }
    }
  }

  /** The keys of the previous state that the snapshot no longer has. */
  ghost function Gone(h: Hash, items: seq<Item>, live: map<Digest, Digest>): set<Digest> {
    live.Keys - KeySet(Pairs(h, items))
  }

  method DiffTrieOpsFromHexState(h: Hash, previous: map<string, string>, items: seq<Item>)
      returns (ins: seq<KVHex>, upd: seq<KVHex>, dels: seq<string>)
    ensures forall live :: previous == HexState(live) ==>
              && ins == HexPairs(Insertions(Pairs(h, items), live))
              && upd == HexPairs(Updates(Pairs(h, items), live))
              && Lists(dels, HexNames(Gone(h, items, live)))
  {
    var current := DecodeState(previous);
    var insB, updB, delB := DiffTrieOpsCore(h, items, current);
    ins, upd, dels := HexPairs(insB), HexPairs(updB), HexKeys(delB);
    NamesAreListed(delB, Gone(h, items, current));
  }

  // ---- Comparing ----

  function Mismatched(expected: map<string, string>, actual: map<string, string>): set<string> {
    set k | k in expected && k in actual && expected[k] != actual[k]
  }

  method CompareMaps(expected: map<string, string>, actual: map<string, string>)
      returns (missing: seq<string>, unexpected: seq<string>, mismatched: seq<string>)
    ensures Lists(missing, expected.Keys - actual.Keys)
    ensures Lists(unexpected, actual.Keys - expected.Keys)
    ensures Lists(mismatched, Mismatched(expected, actual))
    ensures missing == [] && unexpected == [] && mismatched == [] <==> expected == actual
  {
    missing := ListSet(expected.Keys - actual.Keys);
    unexpected := ListSet(actual.Keys - expected.Keys);
    mismatched := ListSet(Mismatched(expected, actual));
    EmptyLists(missing, expected.Keys - actual.Keys);
    EmptyLists(unexpected, actual.Keys - expected.Keys);
    EmptyLists(mismatched, Mismatched(expected, actual));
    if missing == [] && unexpected == [] && mismatched == [] {
      forall k | k in expected ensures k in actual && expected[k] == actual[k] {
        assert k !in expected.Keys - actual.Keys && k !in Mismatched(expected, actual);
      }
      forall k | k in actual ensures k in expected {
        assert k !in actual.Keys - expected.Keys;
      }
    }
  }

  lemma EmptyLists(s: seq<string>, xs: set<string>)
    requires Lists(s, xs)
    ensures s == [] <==> xs == {}
  {
    ListCount(s, xs);
  }

  ghost function ExpectedInsertions(h: Hash, items: seq<Item>, live: map<Digest, Digest>): map<string, string> {
    ToMap(HexPairs(Insertions(Pairs(h, items), live)))
  }

  ghost function ExpectedUpdates(h: Hash, items: seq<Item>, live: map<Digest, Digest>): map<string, string> {
    ToMap(HexPairs(Updates(Pairs(h, items), live)))
  }

  /** The published operations are the recomputed ones. */
  ghost predicate Matches(
      h: Hash, items: seq<Item>, live: map<Digest, Digest>,
      actualIns: seq<KVHex>, actualUpd: seq<KVHex>, actualDel: seq<string>)
  {
    && ToMap(actualIns) == ExpectedInsertions(h, items, live)
    && ToMap(actualUpd) == ExpectedUpdates(h, items, live)
    && ToSet(actualDel) == HexNames(Gone(h, items, live))
  }

  /** The lists of a report are exact. */
  ghost predicate Reports(
      r: ValidationReport, h: Hash, items: seq<Item>, live: map<Digest, Digest>,
      actualIns: seq<KVHex>, actualUpd: seq<KVHex>, actualDel: seq<string>)
  {
    var ins, upd := ExpectedInsertions(h, items, live), ExpectedUpdates(h, items, live);
    var del := HexNames(Gone(h, items, live));
    && Lists(r.missingInsertions, ins.Keys - ToMap(actualIns).Keys)
    && Lists(r.unexpectedInsertions, ToMap(actualIns).Keys - ins.Keys)
    && Lists(r.missingUpdates, upd.Keys - ToMap(actualUpd).Keys)
    && Lists(r.unexpectedUpdates, ToMap(actualUpd).Keys - upd.Keys)
    && Lists(r.missingDeletions, del - ToSet(actualDel))
    && Lists(r.unexpectedDeletions, ToSet(actualDel) - del)
    && ToSet(r.errors) == Mismatched(ins, ToMap(actualIns)) + Mismatched(upd, ToMap(actualUpd))
  }

  lemma ListsDecide(s: seq<string>, xs: set<string>)
    requires Lists(s, xs)
    ensures ToSet(s) == xs
  {
  }

  /** validateTrieOperations.  On a previous state produced from the database, the report is valid
      exactly when what was published is the recomputed diff, and its lists name exactly what differs. */
  method ValidateTrieOperations(
      h: Hash, items: seq<Item>, previous: map<string, string>,
      actualIns: seq<KVHex>, actualUpd: seq<KVHex>, actualDel: seq<string>)
      returns (report: ValidationReport)
    ensures forall live :: previous == HexState(live) ==>
              && (report.valid <==> Matches(h, items, live, actualIns, actualUpd, actualDel))
              && Reports(report, h, items, live, actualIns, actualUpd, actualDel)
  {
    var ins, upd, dels := DiffTrieOpsFromHexState(h, previous, items);
    var mi, ui, ei := CompareMaps(ToMap(ins), ToMap(actualIns));
    var mu, uu, eu := CompareMaps(ToMap(upd), ToMap(actualUpd));
    var md := ListSet(ToSet(dels) - ToSet(actualDel));
    var ud := ListSet(ToSet(actualDel) - ToSet(dels));
    EmptyLists(md, ToSet(dels) - ToSet(actualDel));
    EmptyLists(ud, ToSet(actualDel) - ToSet(dels));
    var valid := mi == [] && ui == [] && ei == [] && mu == [] && uu == [] && eu == [] && md == [] && ud == [];
    assert md == [] && ud == [] <==> ToSet(dels) == ToSet(actualDel);
    report := ValidationReport(valid, mi, ui, mu, uu, md, ud, ei + eu);
    ListsDecide(ei, Mismatched(ToMap(ins), ToMap(actualIns)));
    ListsDecide(eu, Mismatched(ToMap(upd), ToMap(actualUpd)));
    assert ToSet(ei + eu) == ToSet(ei) + ToSet(eu);
    forall live | previous == HexState(live)
      ensures ToSet(dels) == HexNames(Gone(h, items, live))
    {
      ListsDecide(dels, HexNames(Gone(h, items, live)));
    }
  }

  // ---- What validity is worth ----

  lemma {:induction false} HexSetAll(m: map<Digest, Digest>, ps: seq<Pair>)
    ensures HexState(SetAll(m, ps)) == HexState(m) + ToMap(HexPairs(ps))
  {
    if ps == [] {
      assert HexState(m) + ToMap(HexPairs(ps)) == HexState(m);
    } else {
      var n := |ps| - 1;
      assert HexPairs(ps)[..n] == HexPairs(ps[..n]);
      HexSetAll(m, ps[..n]);
      HexPut(SetAll(m, ps[..n]), ps[n].key, ps[n].value);
      OverlayPut(HexState(m), ToMap(HexPairs(ps[..n])), HexOf(ps[n].key), HexOf(ps[n].value));
    }
  }

  lemma OverlayPut(a: map<string, string>, b: map<string, string>, k: string, v: string)
    ensures (a + b)[k := v] == a + b[k := v]
  {
  }

  lemma HexPut(m: map<Digest, Digest>, k: Digest, v: Digest)
    ensures HexState(m[k := v]) == HexState(m)[HexOf(k) := HexOf(v)]
  {
    var n := m[k := v];
    var a, b := HexState(n), HexState(m)[HexOf(k) := HexOf(v)];
    forall s ensures Lookup(a, s) == Lookup(b, s) {
      if s in a {
        var j := HexStateKey(n, s);
        HexStateLookup(m, j);
        if j != k && HexOf(j) == HexOf(k) {
          HexInjective(j, k);
        }
      }
      if s in HexState(m) {
        var j := HexStateKey(m, s);
        HexStateLookup(n, j);
      }
      HexStateLookup(n, k);
    }
    EqualLookups(a, b);
  }

  lemma {:induction false} HexRemoveAll(m: map<Digest, Digest>, ks: seq<Digest>)
    ensures HexState(RemoveAll(m, ks)) == HexState(m) - ToSet(HexKeys(ks))
  {
    if ks == [] {
      assert HexState(m) - ToSet(HexKeys(ks)) == HexState(m);
    } else {
      var n := |ks| - 1;
      assert HexKeys(ks) == HexKeys(ks[..n]) + [HexOf(ks[n])];
      ToSetSnoc(HexKeys(ks[..n]), HexOf(ks[n]));
      HexRemoveAll(m, ks[..n]);
      HexDrop(RemoveAll(m, ks[..n]), ks[n]);
    }
  }

  lemma HexDrop(m: map<Digest, Digest>, k: Digest)
    ensures HexState(m - {k}) == HexState(m) - {HexOf(k)}
  {
    forall s ensures s in HexState(m - {k}) <==> s in HexState(m) && s != HexOf(k) {
      HexDropKey(m, k, s);
    }
    forall s | s in HexState(m - {k}) ensures HexState(m - {k})[s] == HexState(m)[s] {
      var j := HexStateKey(m - {k}, s);
      HexStateLookup(m, j);
    }
  }

  lemma HexDropKey(m: map<Digest, Digest>, k: Digest, s: string)
    ensures s in HexState(m - {k}) <==> s in HexState(m) && s != HexOf(k)
  {
    if s in HexState(m - {k}) {
      var j := HexStateKey(m - {k}, s);
      HexStateLookup(m, j);
      NotSameHex(j, k);
    }
    if s in HexState(m) && s != HexOf(k) {
      var j := HexStateKey(m, s);
      HexStateLookup(m - {k}, j);
    }
  }

  lemma NotSameHex(a: Digest, b: Digest)
    ensures HexOf(a) == HexOf(b) ==> a == b
  {
    if HexOf(a) == HexOf(b) {
      HexInjective(a, b);
    }
  }

  lemma ToSetSnoc(ks: seq<string>, k: string)
    ensures ToSet(ks + [k]) == ToSet(ks) + {k}
  {
  }

  lemma {:induction false} AnyListing(xs: set<Digest>) returns (ks: seq<Digest>)
    ensures Lists(ks, xs)
    decreases xs
  {
    if xs == {} {
      ks := [];
    } else {
      var x :| x in xs;
      var rest := AnyListing(xs - {x});
      ks := rest + [x];
    }
  }

  /** Operations that match the recomputed diff take the previous state to the snapshot. */
  lemma ValidOperationsReachSnapshot(
      h: Hash, items: seq<Item>, live: map<Digest, Digest>,
      actualIns: seq<KVHex>, actualUpd: seq<KVHex>, actualDel: seq<string>)
    requires DistinctKeys(Pairs(h, items))
    requires Matches(h, items, live, actualIns, actualUpd, actualDel)
    ensures HexState(live) + ToMap(actualIns) + ToMap(actualUpd) - ToSet(actualDel)
            == HexState(SnapshotOf(Pairs(h, items)))
  {
    var ps := Pairs(h, items);
    var ins, upd := Insertions(ps, live), Updates(ps, live);
    var ks := AnyListing(Gone(h, items, live));
    HexSetAll(live, ins);
    HexSetAll(SetAll(live, ins), upd);
    HexRemoveAll(SetAll(SetAll(live, ins), upd), ks);
    NamesAreListed(ks, Gone(h, items, live));
    ListsDecide(HexKeys(ks), HexNames(Gone(h, items, live)));
    DistinctNeverReverts(ps, live);
    PatchReachesSnapshot(ps, live, ks);
  }

  // ---- The previous state ----

  /** The state getStateFromDB finds for a file reference: empty for none or a null one, else the
      as-of state at the slot of the file, if it is stored. */
  ghost predicate IsPreviousState(t: Tables, ref: string, state: map<string, string>) {
    if ref == "" || ref == NULL_TRIE_HASH then state == map[]
    else exists id :: id in t.tries && t.tries[id].cid == ref && state == HexState(StateMapAtSlot(t, t.tries[id].slot))
  }

  method GetStateFromDB(t: Tables, ref: string) returns (state: Option<map<string, string>>)
    ensures state.Some? ==> IsPreviousState(t, ref, state.value)
    ensures state.None? <==> ref != "" && ref != NULL_TRIE_HASH && !HasCid(t, ref)
  {
    if ref == "" || ref == NULL_TRIE_HASH {
      return Some(map[]);
    }
    if !HasCid(t, ref) {
      return None;
    }
    var id :| id in t.tries && t.tries[id].cid == ref;
    var m := StateMapAtSlot(t, t.tries[id].slot);
    var hexed := BuildStateMap(m);
    return Some(hexed);
  }

  /** The loop over the state map, in any order. */
  method BuildStateMap(m: map<Digest, Digest>) returns (state: map<string, string>)
    ensures state == HexState(m)
  {
    state := map[];
    var todo := m.Keys;
    assert HexState(m - todo) == map[];
    while todo != {}
      invariant todo <= m.Keys && state == HexState(m - todo)
      decreases todo
    {
      var k :| k in todo;
      HexNext(m, todo, k);
      state := state[HexOf(k) := HexOf(m[k])];
      todo := todo - {k};
    }
    assert m - todo == m;
  }

  lemma HexNext(m: map<Digest, Digest>, todo: set<Digest>, k: Digest)
    requires k in todo && k in m
    ensures HexState(m - (todo - {k})) == HexState(m - todo)[HexOf(k) := HexOf(m[k])]
  {
    assert m - (todo - {k}) == (m - todo)[k := m[k]];
    HexPut(m - todo, k, m[k]);
  }

  /** The referenced file is the newest one, or there is none and nothing is live. */
  ghost predicate RefersToNewest(t: Tables, ref: string) {
    if ref == "" || ref == NULL_TRIE_HASH then LiveOf(t.keys) == map[]
    else forall id :: id in t.tries && t.tries[id].cid == ref ==> NotBefore(t, t.tries[id].slot)
  }

  /** The looked-up state is the live one when the file is the newest. */
  lemma LookedUpIsLive(h: Hash, t: Tables, ref: string, previous: map<string, string>)
    requires Inv(h, t) && IsPreviousState(t, ref, previous) && RefersToNewest(t, ref)
    ensures previous == HexState(LiveOf(t.keys))
  {
    if ref == "" || ref == NULL_TRIE_HASH {
      assert HexState(map[]) == map[];
    } else {
      var id :| id in t.tries && t.tries[id].cid == ref && previous == HexState(StateMapAtSlot(t, t.tries[id].slot));
      FiltersAgree(h, t);
      ViewsCoincide(h, t, t.tries[id].slot);
    }
  }

  lemma PublishedMatches(
      h: Hash, root: map<Digest, Digest> -> Digest, live: map<Digest, Digest>, items: seq<Item>,
      dels: seq<Digest>, p: Payload)
    requires Publishes(h, root, live, items, dels, p)
    ensures Matches(h, items, live, p.insertions, p.updates, p.deletions)
  {
    NamesAreListed(dels, Gone(h, items, live));
    ListsDecide(HexKeys(dels), HexNames(Gone(h, items, live)));
  }

  /** What a producer publishes at the live state validates at the state the consumer looks up for the
      file it refers to, when that is the newest stored file: the looked-up state is the live one. */
  lemma PublishedValidates(
      h: Hash, root: map<Digest, Digest> -> Digest, t: Tables, items: seq<Item>, dels: seq<Digest>, p: Payload,
      previous: map<string, string>)
    requires Inv(h, t) && Publishes(h, root, LiveOf(t.keys), items, dels, p)
    requires IsPreviousState(t, p.previousFile, previous) && RefersToNewest(t, p.previousFile)
    ensures previous == HexState(LiveOf(t.keys))
    ensures Matches(h, items, LiveOf(t.keys), p.insertions, p.updates, p.deletions)
  {
    LookedUpIsLive(h, t, p.previousFile, previous);
    PublishedMatches(h, root, LiveOf(t.keys), items, dels, p);
  }
}
