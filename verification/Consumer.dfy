/** The consumer: rebuild database entries from a published payload and ingest them.  From the same
    live state, producer and consumer reach the same map, hence the same root. */
module Consumer {
  import opened Common
  import opened OperationLog
  import opened BatchOrder
  import opened CanonicalJson
  import opened VersionedStore
  import opened StoreRuns
  import opened DatabaseObject
  import opened Hex
  import opened TrieDiff
  import opened Publisher
  import opened Validation

  // ---- Snapshots that differ only in the order members are met ----

  ghost predicate SameItem(a: Item, b: Item) {
    a.objectId == b.objectId && multiset(a.fields) == multiset(b.fields)
  }

  /** Two readings of one JSON snapshot: object members may come in another order. */
  ghost predicate SameSnapshot(a: seq<Item>, b: seq<Item>) {
    |a| == |b| && forall i :: 0 <= i < |a| ==> SameItem(a[i], b[i])
  }

  lemma {:induction false} FieldPairsConcat(h: Hash, id: string, a: seq<Field>, b: seq<Field>)
    ensures FieldPairs(h, id, a + b) == FieldPairs(h, id, a) + FieldPairs(h, id, b)
  {
    if b == [] {
      assert a + b == a;
    } else {
      var n := |b| - 1;
      assert (a + b)[..|a + b| - 1] == a + b[..n];
      FieldPairsConcat(h, id, a, b[..n]);
    }
  }

  lemma {:induction false} FieldOrderIrrelevant(h: Hash, id: string, a: seq<Field>, b: seq<Field>)
    requires multiset(a) == multiset(b)
    ensures multiset(FieldPairs(h, id, a)) == multiset(FieldPairs(h, id, b))
  {
    if b == [] {
      assert a == [] by {
        assert |multiset(a)| == |a|;
      }
    } else {
      var n := |b| - 1;
      var x := b[n];
      assert b == b[..n] + [x];
      assert x in multiset(b);
      var i :| 0 <= i < |a| && a[i] == x;
      var rest := a[..i] + a[i + 1..];
      assert a == a[..i] + [x] + a[i + 1..];
      assert multiset(a) == multiset(rest) + multiset{x};
      assert multiset(b) == multiset(b[..n]) + multiset{x};
      assert multiset(rest) == multiset(a) - multiset{x};
      assert multiset(b[..n]) == multiset(b) - multiset{x};
      FieldOrderIrrelevant(h, id, rest, b[..n]);
      FieldPairsConcat(h, id, a[..i], [x]);
      FieldPairsConcat(h, id, a[..i] + [x], a[i + 1..]);
      FieldPairsConcat(h, id, a[..i], a[i + 1..]);
      FieldPairsConcat(h, id, b[..n], [x]);
    }
  }

  lemma {:induction false} PairsOrderIrrelevant(h: Hash, a: seq<Item>, b: seq<Item>)
    requires SameSnapshot(a, b)
    ensures multiset(Pairs(h, a)) == multiset(Pairs(h, b))
  {
    if a != [] {
      var n := |a| - 1;
      PairsOrderIrrelevant(h, a[..n], b[..n]);
      assert SameItem(a[n], b[n]);
      if HasId(a[n]) {
        FieldOrderIrrelevant(h, a[n].objectId.value, a[n].fields, b[n].fields);
      }
    }
  }

  lemma {:induction false} DistinctOnce(ps: seq<Pair>, p: Pair)
    requires DistinctKeys(ps)
    ensures multiset(ps)[p] <= 1
  {
    if ps != [] {
      var n := |ps| - 1;
      assert ps == ps[..n] + [ps[n]];
      DistinctOnce(ps[..n], p);
      if p == ps[n] {
        assert p !in ps[..n];
      }
    }
  }

  lemma {:induction false} TwiceCounts(ps: seq<Pair>, i: int, j: int)
    requires 0 <= i < j < |ps| && ps[i] == ps[j]
    ensures multiset(ps)[ps[i]] >= 2
  {
    assert ps == ps[..j] + [ps[j]] + ps[j + 1..];
    assert ps[..j][i] in ps[..j];
  }

  lemma DistinctTransfers(a: seq<Pair>, b: seq<Pair>)
    requires multiset(a) == multiset(b) && DistinctKeys(a)
    ensures DistinctKeys(b) && SnapshotOf(a) == SnapshotOf(b) && KeySet(a) == KeySet(b)
  {
    forall p ensures p in a <==> p in b {
      assert p in a <==> p in multiset(a);
      assert p in b <==> p in multiset(b);
    }
    forall i, j | 0 <= i < j < |b| ensures b[i].key != b[j].key {
      if b[i] == b[j] {
        TwiceCounts(b, i, j);
        DistinctOnce(a, b[i]);
      } else {
        assert b[i] in a && b[j] in a;
        var m :| 0 <= m < |a| && a[m] == b[i];
        var n :| 0 <= n < |a| && a[n] == b[j];
        assert m != n;
      }
    }
    forall k ensures Lookup(SnapshotOf(a), k) == Lookup(SnapshotOf(b), k) && (k in KeySet(a) <==> k in KeySet(b)) {
      SetAllLookup(map[], a, k);
      SetAllLookup(map[], b, k);
      LastValueFound(a, k);
      LastValueFound(b, k);
      if k in KeySet(a) {
        DistinctLastValue(b, Pair(k, LastValue(a, k).value));
      }
      if k in KeySet(b) {
        DistinctLastValue(a, Pair(k, LastValue(b, k).value));
      }
    }
    EqualLookups(SnapshotOf(a), SnapshotOf(b));
  }

  // ---- The raw cells behind the published key hashes ----

  datatype RawCell = RawCell(objectId: string, key: string, text: string)

  ghost function AddRaw(h: Hash, id: string, raw: map<Digest, RawCell>, f: Field): map<Digest, RawCell> {
    match Canonical(f.value)
    case None => raw
    case Some(text) => raw[KeyHash(h, id, f.name) := RawCell(id, f.name, text)]
  }

  ghost function AddRawFields(h: Hash, id: string, raw: map<Digest, RawCell>, fields: seq<Field>)
    : map<Digest, RawCell>
  {
    if fields == [] then raw
    else AddRaw(h, id, AddRawFields(h, id, raw, fields[..|fields| - 1]), fields[|fields| - 1])
  }

  /** keyHashToRaw. */
  ghost function RawCells(h: Hash, items: seq<Item>): map<Digest, RawCell> {
    if items == [] then map[]
    else
      var front, item := RawCells(h, items[..|items| - 1]), items[|items| - 1];
      if HasId(item) then AddRawFields(h, item.objectId.value, front, item.fields) else front
  }

  /** The cells carry the snapshot: canonical text that hashes to the value hash of its key. */
  ghost predicate RawMatches(h: Hash, raw: map<Digest, RawCell>, ps: seq<Pair>) {
    && raw.Keys == KeySet(ps)
    && forall k :: k in raw ==>
         && KeyHash(h, raw[k].objectId, raw[k].key) == k
         && RawValueHash(h, raw[k].text) == LastValue(ps, k)
  }

  /** Canonical text hashes to the hash of the value it came from: the encoding is idempotent. */
  lemma CanonicalTextHash(h: Hash, v: Json)
    requires Canonical(v).Some?
    ensures RawValueHash(h, Canonical(v).value) == ValueHash(h, v)
  {
    CanonicalRoundTrip(v);
  }

  lemma AddRawMatches(h: Hash, id: string, raw: map<Digest, RawCell>, ps: seq<Pair>, f: Field)
    requires RawMatches(h, raw, ps)
    ensures RawMatches(h, AddRaw(h, id, raw, f), ps + FieldPairs(h, id, [f]))
  {
    assert [f][..0] == [];
    if Canonical(f.value).Some? {
      CanonicalTextHash(h, f.value);
      var p := Pair(KeyHash(h, id, f.name), ValueHash(h, f.value).value);
      assert FieldPairs(h, id, [f]) == [p];
      KeySetSnoc(ps, p);
      forall k ensures LastValue(ps + [p], k) == if p.key == k then Some(p.value) else LastValue(ps, k) {
        LastOfSnoc(ps, p, k);
      }
    } else {
      assert ps + FieldPairs(h, id, [f]) == ps;
    }
  }

  lemma {:induction false} AddRawFieldsMatches(
      h: Hash, id: string, raw: map<Digest, RawCell>, ps: seq<Pair>, fields: seq<Field>)
    requires RawMatches(h, raw, ps)
    ensures RawMatches(h, AddRawFields(h, id, raw, fields), ps + FieldPairs(h, id, fields))
  {
    if fields == [] {
      assert ps + FieldPairs(h, id, fields) == ps;
    } else {
      var n := |fields| - 1;
      var front := fields[..n];
      AddRawFieldsMatches(h, id, raw, ps, front);
      AddRawMatches(h, id, AddRawFields(h, id, raw, front), ps + FieldPairs(h, id, front), fields[n]);
      assert fields == front + [fields[n]];
      FieldPairsConcat(h, id, front, [fields[n]]);
      assert ps + FieldPairs(h, id, front) + FieldPairs(h, id, [fields[n]]) == ps + FieldPairs(h, id, fields);
    }
  }

  lemma {:induction false} RawCellsMatch(h: Hash, items: seq<Item>)
    ensures RawMatches(h, RawCells(h, items), Pairs(h, items))
  {
    if items != [] {
      var n := |items| - 1;
      RawCellsMatch(h, items[..n]);
      if HasId(items[n]) {
        AddRawFieldsMatches(h, items[n].objectId.value, RawCells(h, items[..n]), Pairs(h, items[..n]), items[n].fields);
      } else {
        assert Pairs(h, items) == Pairs(h, items[..n]);
      }
    }
  }

  // ---- Entries ----

  function CellEntry(c: RawCell, opType: OpType, seqOrder: nat): Entry {
    Entry(c.objectId, c.key, c.text, opType, seqOrder)
  }

  /** Entries for published keys, skipping those that are malformed or not in the snapshot. */
  function ListedEntries(raw: map<Digest, RawCell>, kvs: seq<KVHex>, opType: OpType): seq<Entry> {
    if kvs == [] then []
    else
      var front := ListedEntries(raw, kvs[..|kvs| - 1], opType);
      match DigestOfHex(kvs[|kvs| - 1].key)
      case None => front
      case Some(k) => if k in raw then front + [CellEntry(raw[k], opType, |front|)] else front
  }

  /** Delete entries, whose object and key are looked up in the key table. */
  function DeleteEntries(keys: map<Digest, KeyRow>, dels: seq<string>): seq<Entry> {
    if dels == [] then []
    else
      var front := DeleteEntries(keys, dels[..|dels| - 1]);
      match DigestOfHex(dels[|dels| - 1])
      case None => front
      case Some(k) =>
        if k in keys then front + [Entry(keys[k].objectId, keys[k].rawKey, "", Delete, |front|)] else front
  }

  /** An entry made from a published key: the key is the hex of a digest that the snapshot has, and the
      entry carries its object, member and canonical text. */
  ghost predicate MadeFrom(raw: map<Digest, RawCell>, kv: KVHex, opType: OpType, e: Entry) {
    && DigestOfHex(kv.key).Some? && DigestOfHex(kv.key).value in raw
    && var c := raw[DigestOfHex(kv.key).value];
       e.objectId == c.objectId && e.rawKey == c.key && e.rawValue == c.text && e.opType == opType
  }

  /** The listed entries, told without the pass: one for each usable key and no other, numbered from zero
      without a gap, so that a skipped key leaves none. */
  lemma {:induction false} ListedExactly(raw: map<Digest, RawCell>, kvs: seq<KVHex>, opType: OpType, n: nat)
    ensures var es := ListedEntries(raw, kvs, opType);
            && (n < |es| ==> es[n].seqOrder == n && exists i :: 0 <= i < |kvs| && MadeFrom(raw, kvs[i], opType, es[n]))
            && (n < |kvs| && DigestOfHex(kvs[n].key).Some? && DigestOfHex(kvs[n].key).value in raw ==>
                  exists i :: 0 <= i < |es| && MadeFrom(raw, kvs[n], opType, es[i]))
  {
    if kvs != [] {
      var m := |kvs| - 1;
      var es, before := ListedEntries(raw, kvs, opType), ListedEntries(raw, kvs[..m], opType);
      ListedExactly(raw, kvs[..m], opType, n);
      if n < |before| {
        var i :| 0 <= i < m && MadeFrom(raw, kvs[..m][i], opType, before[n]);
        assert MadeFrom(raw, kvs[i], opType, es[n]);
      } else if n < |es| {
        assert MadeFrom(raw, kvs[m], opType, es[n]);
      }
      if n < m && DigestOfHex(kvs[n].key).Some? && DigestOfHex(kvs[n].key).value in raw {
        var i :| 0 <= i < |before| && MadeFrom(raw, kvs[..m][n], opType, before[i]);
        assert MadeFrom(raw, kvs[n], opType, es[i]);
      } else if n == m && |es| > |before| {
        assert MadeFrom(raw, kvs[m], opType, es[|before|]);
      }
    }
  }

  /** A delete made from a published key: the key is the hex of a digest that the key table has, whether it
      is live or not, and the entry carries the object and member of its row. */
  ghost predicate DroppedBy(keys: map<Digest, KeyRow>, name: string, e: Entry) {
    && DigestOfHex(name).Some? && DigestOfHex(name).value in keys
    && var row := keys[DigestOfHex(name).value];
       e.objectId == row.objectId && e.rawKey == row.rawKey && e.rawValue == "" && e.opType == Delete
  }

  lemma {:induction false} DeletesExactly(keys: map<Digest, KeyRow>, dels: seq<string>, n: nat)
    ensures var es := DeleteEntries(keys, dels);
            && (n < |es| ==> es[n].seqOrder == n && exists i :: 0 <= i < |dels| && DroppedBy(keys, dels[i], es[n]))
            && (n < |dels| && DigestOfHex(dels[n]).Some? && DigestOfHex(dels[n]).value in keys ==>
                  exists i :: 0 <= i < |es| && DroppedBy(keys, dels[n], es[i]))
  {
    if dels != [] {
      var m := |dels| - 1;
      var es, before := DeleteEntries(keys, dels), DeleteEntries(keys, dels[..m]);
      DeletesExactly(keys, dels[..m], n);
      if n < |before| {
        var i :| 0 <= i < m && DroppedBy(keys, dels[..m][i], before[n]);
        assert DroppedBy(keys, dels[i], es[n]);
      } else if n < |es| {
        assert DroppedBy(keys, dels[m], es[n]);
      }
      if n < m && DigestOfHex(dels[n]).Some? && DigestOfHex(dels[n]).value in keys {
        var i :| 0 <= i < |before| && DroppedBy(keys, dels[..m][n], before[i]);
        assert DroppedBy(keys, dels[n], es[i]);
      } else if n == m && |es| > |before| {
        assert DroppedBy(keys, dels[m], es[|before|]);
      }
    }
  }

  function IncrementalEntries(raw: map<Digest, RawCell>, keys: map<Digest, KeyRow>, p: Payload): seq<Entry> {
    ListedEntries(raw, p.insertions, Insert) + ListedEntries(raw, p.updates, Update) + DeleteEntries(keys, p.deletions)
  }

  /** All cells as inserts, in the order `order`. */
  function GenesisEntries(raw: map<Digest, RawCell>, order: seq<Digest>): seq<Entry>
    requires forall k :: k in order ==> k in raw
  {
    seq(|order|, i requires 0 <= i < |order| =>
      assert order[i] in order;
      CellEntry(raw[order[i]], Insert, i))
  }

  predicate IsGenesis(p: Payload) {
    p.previousRoot == NULL_TRIE_HASH || p.previousRoot == ""
  }

  ghost predicate BuiltFrom(h: Hash, keys: map<Digest, KeyRow>, p: Payload, es: seq<Entry>) {
    var raw := RawCells(h, p.data);
    if IsGenesis(p) then
      exists order: seq<Digest> :: Lists(order, raw.Keys) && es == GenesisEntries(raw, order)
    else es == IncrementalEntries(raw, keys, p)
  }

  /** Without a previous root every cell of the snapshot is inserted once, numbered from zero, whatever the
      payload lists; with one the lists decide. */
  lemma GenesisInsertsEverything(h: Hash, keys: map<Digest, KeyRow>, p: Payload, es: seq<Entry>)
    requires BuiltFrom(h, keys, p, es)
    ensures if p.previousRoot != "" && p.previousRoot != NULL_TRIE_HASH
            then es == IncrementalEntries(RawCells(h, p.data), keys, p)
            else InsertsCells(RawCells(h, p.data), es)
  {
    if p.previousRoot == "" || p.previousRoot == NULL_TRIE_HASH {
      var raw := RawCells(h, p.data);
      var order: seq<Digest> :| Lists(order, raw.Keys) && es == GenesisEntries(raw, order);
      GenesisListing(raw, order);
    }
  }

  ghost predicate InsertsCells(raw: map<Digest, RawCell>, es: seq<Entry>) {
    && |es| == |raw|
    && (forall i :: 0 <= i < |es| ==> es[i].opType == Insert && es[i].seqOrder == i)
    && forall k :: k in raw ==> exists i :: 0 <= i < |es| && CarriesCell(es[i], raw[k])
  }

  ghost predicate CarriesCell(e: Entry, c: RawCell) {
    e.objectId == c.objectId && e.rawKey == c.key && e.rawValue == c.text
  }

  lemma GenesisListing(raw: map<Digest, RawCell>, order: seq<Digest>)
    requires Lists(order, raw.Keys)
    ensures InsertsCells(raw, GenesisEntries(raw, order))
  {
    ListCount(order, raw.Keys);
    assert |raw.Keys| == |raw|;
    var es := GenesisEntries(raw, order);
    GenesisNumbered(raw, order);
    forall k | k in raw
      ensures exists i :: 0 <= i < |es| && CarriesCell(es[i], raw[k])
    {
      var i := CellListed(raw, order, k);
    }
  }

  lemma GenesisNumbered(raw: map<Digest, RawCell>, order: seq<Digest>)
    requires forall x :: x in order ==> x in raw
    ensures forall i :: 0 <= i < |order| ==>
              GenesisEntries(raw, order)[i].opType == Insert && GenesisEntries(raw, order)[i].seqOrder == i
  {
  }

  lemma CellListed(raw: map<Digest, RawCell>, order: seq<Digest>, k: Digest) returns (i: int)
    requires (forall x :: x in order ==> x in raw) && k in order && k in raw
    ensures 0 <= i < |order| && CarriesCell(GenesisEntries(raw, order)[i], raw[k])
  {
    i :| 0 <= i < |order| && order[i] == k;
  }

  method BuildRawCells(h: Hash, items: seq<Item>) returns (raw: map<Digest, RawCell>)
    ensures raw == RawCells(h, items)
  {
    raw := map[];
    for i := 0 to |items|
      invariant raw == RawCells(h, items[..i])
    {
      assert items[..i + 1][..i] == items[..i];
      if HasId(items[i]) {
        var id, fields := items[i].objectId.value, items[i].fields;
        ghost var start := raw;
        for j := 0 to |fields|
          invariant raw == AddRawFields(h, id, start, fields[..j])
        {
          assert fields[..j + 1][..j] == fields[..j];
          var c := Canonicalize(fields[j].value);
          if c.Some? {
            raw := raw[KeyHash(h, id, fields[j].name) := RawCell(id, fields[j].name, c.value)];
          }
        }
        assert fields[..|fields|] == fields;
      }
    }
    assert items[..|items|] == items;
  }

  method BuildListed(raw: map<Digest, RawCell>, kvs: seq<KVHex>, opType: OpType) returns (es: seq<Entry>)
    ensures es == ListedEntries(raw, kvs, opType)
  {
    es := [];
    for i := 0 to |kvs|
      invariant es == ListedEntries(raw, kvs[..i], opType)
    {
      assert kvs[..i + 1][..i] == kvs[..i];
      var k := DigestOfHex(kvs[i].key);
      if k.Some? && k.value in raw {
        es := es + [CellEntry(raw[k.value], opType, |es|)];
      }
    }
    assert kvs[..|kvs|] == kvs;
  }

  method BuildDeletes(keys: map<Digest, KeyRow>, dels: seq<string>) returns (es: seq<Entry>)
    ensures es == DeleteEntries(keys, dels)
  {
    es := [];
    for i := 0 to |dels|
      invariant es == DeleteEntries(keys, dels[..i])
    {
      assert dels[..i + 1][..i] == dels[..i];
      var k := DigestOfHex(dels[i]);
      if k.Some? && k.value in keys {
        es := es + [Entry(keys[k.value].objectId, keys[k.value].rawKey, "", Delete, |es|)];
      }
    }
    assert dels[..|dels|] == dels;
  }

  /** The entry building of processTransactionEvent. */
  method BuildEntries(h: Hash, keys: map<Digest, KeyRow>, p: Payload) returns (es: seq<Entry>)
    ensures BuiltFrom(h, keys, p, es)
  {
    var raw := BuildRawCells(h, p.data);
    if IsGenesis(p) {
      var order := ListSet(raw.Keys);
      es := [];
      for i := 0 to |order|
        invariant es == GenesisEntries(raw, order)[..i]
      {
        assert order[i] in order;
        es := es + [CellEntry(raw[order[i]], Insert, i)];
      }
    } else {
      var ins := BuildListed(raw, p.insertions, Insert);
      var upd := BuildListed(raw, p.updates, Update);
      var del := BuildDeletes(keys, p.deletions);
      es := ins + upd + del;
    }
  }

  function BatchOf(p: Payload, cid: string, slot: int, txId: string, es: seq<Entry>): Batch {
    Batch(
      cid,
      if p.previousFile != "" && p.previousFile != NULL_TRIE_HASH then Some(p.previousFile) else None,
      p.currentRoot,
      if !IsGenesis(p) then Some(p.previousRoot) else None,
      slot, txId, es)
  }

  /** What the consumer reads in the validator datum: the root and the file reference in hex, and the
      reference decoded. */
  datatype Datum = Datum(root: string, fileHex: string, cid: string)

  /** How the step ends: a null root or file in the datum, a previous file that is not stored, or what
      the ingest reported. */
  datatype Consumption = NothingToDo | NoPreviousFile | Ingested(outcome: Outcome)

  predicate Skipped(d: Datum) {
    d.root == NULL_TRIE_HASH || d.fileHex == NULL_TRIE_HASH
  }

  /** The lookup of the previous state succeeds: no file is referred to, or it is stored. */
  predicate Known(t: Tables, ref: string) {
    ref == "" || ref == NULL_TRIE_HASH || HasCid(t, ref)
  }

  /** The ingesting step of processTransactionEvent for a payload whose entries were built as `es`. */
  ghost function Consume(h: Hash, s: Store, p: Payload, d: Datum, slot: int, txId: string, es: seq<Entry>)
    : (Store, Consumption)
  {
    if Skipped(d) then (s, NothingToDo)
    else if !Known(s.tables, p.previousFile) then (s, NoPreviousFile)
    else
      var (s', outcome) := Ingest(h, s, BatchOf(p, d.cid, slot, txId, es));
      (s', Ingested(outcome))
  }

  /** The tables gain one row, under the next id: the file with this CID at this slot, by this transaction,
      with the payload's root, and with its previous file and root unless they are empty or null. */
  ghost predicate AddsFile(before: Tables, after: Tables, p: Payload, cid: string, slot: int, txId: string) {
    var id := before.nextTrie;
    && after.tries.Keys == before.tries.Keys + {id}
    && (forall i :: i in before.tries && i != id ==> after.tries[i] == before.tries[i])
    && var row := after.tries[id];
       && row.cid == cid && row.slot == slot && row.txId == txId && row.currentRoot == p.currentRoot
       && row.previousCid ==
            (if p.previousFile == "" || p.previousFile == NULL_TRIE_HASH then None else Some(p.previousFile))
       && row.previousRoot ==
            (if p.previousRoot == "" || p.previousRoot == NULL_TRIE_HASH then None else Some(p.previousRoot))
  }

  /** What the step answers and stores, told from its arguments. */
  lemma ConsumeAnswers(h: Hash, s: Store, p: Payload, d: Datum, slot: int, txId: string, es: seq<Entry>)
    ensures var (s', c) := Consume(h, s, p, d, slot, txId, es);
            var nothing := d.root == NULL_TRIE_HASH || d.fileHex == NULL_TRIE_HASH;
            var unknown := && p.previousFile != "" && p.previousFile != NULL_TRIE_HASH
                           && forall id :: id in s.tables.tries ==> s.tables.tries[id].cid != p.previousFile;
            && (c == NothingToDo <==> nothing)
            && (c == NoPreviousFile <==> !nothing && unknown)
            && (nothing || unknown ==> s' == s)
            && (c == Ingested(Applied) ==> AddsFile(s.tables, s'.tables, p, d.cid, slot, txId))
            && (c == Ingested(AlreadyStored) ==>
                  s' == s && exists id :: id in s.tables.tries && s.tables.tries[id].cid == d.cid)
  {
    var b := BatchOf(p, d.cid, slot, txId, es);
    IngestAnswers(h, s, b);
    if Ingest(h, s, b).1 == Applied {
      AppliedAddsRow(h, s, b);
    }
  }

  /** The ingesting part of processTransactionEvent.  The lookup of the previous state may stop it; the
      validation against that state, if it is switched on, only reports. */
  method ConsumePayload(db: Database, p: Payload, d: Datum, slot: int, txId: string, skipValidation: bool)
      returns (c: Consumption, report: Option<ValidationReport>, ghost es: seq<Entry>)
    modifies db
    ensures c.Ingested? ==> BuiltFrom(db.digest, old(db.tables.keys), p, es)
    ensures (db.State(), c) == Consume(db.digest, old(db.State()), p, d, slot, txId, es)
    ensures c == NothingToDo <==> d.root == NULL_TRIE_HASH || d.fileHex == NULL_TRIE_HASH
    ensures c == NoPreviousFile <==>
              && d.root != NULL_TRIE_HASH && d.fileHex != NULL_TRIE_HASH
              && p.previousFile != "" && p.previousFile != NULL_TRIE_HASH
              && forall id :: id in old(db.tables.tries) ==> old(db.tables.tries)[id].cid != p.previousFile
    ensures c == Ingested(Applied) ==> AddsFile(old(db.tables), db.tables, p, d.cid, slot, txId)
    ensures report.Some? <==> !skipValidation && c.Ingested?
  {
    report, es := None, [];
    if d.root == NULL_TRIE_HASH {
      return NothingToDo, report, es;
    }
    if d.fileHex == NULL_TRIE_HASH {
      return NothingToDo, report, es;
    }
    var previous := GetStateFromDB(db.tables, p.previousFile);
    if previous.None? {
      return NoPreviousFile, report, es;
    }
    if !skipValidation {
      var r := ValidateTrieOperations(db.digest, p.data, previous.value, p.insertions, p.updates, p.deletions);
      report := Some(r);
    }
    var built := BuildEntries(db.digest, db.tables.keys, p);
    es := built;
    ConsumeAnswers(db.digest, db.State(), p, d, slot, txId, built);
    var outcome := db.ApplyOracleFile(BatchOf(p, d.cid, slot, txId, built));
    c := Ingested(outcome);
  }
}
