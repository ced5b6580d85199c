/** The store's tables and the two statements that change them: the batch that ApplyOracleFile
    writes, with the row trigger on `trie_operation_key`, and the SQL function rollback_to_slot.

    An oracle file and its trie row are created together and deleted together, one for one, so the
    model keeps them as one row. */
module VersionedStore {
  import opened Common
  import opened OperationLog
  import opened BatchOrder
  import opened CanonicalJson

  /** Blake2b-256 on bytes; any function will do. */
  type Hash = string -> Digest

  datatype Batch = Batch(
    cid: string, previousCid: Option<string>, currentRoot: string, previousRoot: Option<string>,
    slot: int, txId: string, entries: seq<Entry>)

  datatype TrieRow = TrieRow(
    cid: string, previousCid: Option<string>, currentRoot: string, previousRoot: Option<string>,
    slot: int, txId: string)

  datatype OpRow = OpRow(trieId: int, opType: OpType, seqOrder: nat)

  datatype TokRow = TokRow(opId: int, keyHash: Digest, valueHash: Option<Digest>)

  /** A row of `key`.  `deletedAt` says whether the deletion time is set. */
  datatype KeyRow = KeyRow(
    objectId: string, rawKey: string, currentValue: Option<Digest>, isDeleted: bool, deletedAt: bool)

  /** The tables.  `toks` is in insertion order; ids are never reused. */
  datatype Tables = Tables(
    tries: map<int, TrieRow>, ops: map<int, OpRow>, toks: seq<TokRow>,
    keys: map<Digest, KeyRow>, values: map<Digest, string>, nextTrie: int, nextOp: int)

  const EMPTY_TABLES := Tables(map[], map[], [], map[], map[], 0, 0)

  function KeyHash(h: Hash, objectId: string, rawKey: string): Digest {
    h(objectId + ":" + rawKey)
  }

  /** ValueHash of a decoded value: the hash of its canonical bytes. */
  ghost function ValueHash(h: Hash, v: Json): Option<Digest> {
    var c := Canonical(v);
    if c.None? then None else Some(h(c.value))
  }

  /** The canonical bytes of a raw value, if it is JSON and the encoder accepts it. */
  ghost function RawCanonical(raw: string): Option<string> {
    var v := Unmarshal(raw);
    if v.None? then None else Canonical(v.value)
  }

  ghost function RawValueHash(h: Hash, raw: string): Option<Digest> {
    var c := RawCanonical(raw);
    if c.None? then None else Some(h(c.value))
  }

  function EntryKey(h: Hash, e: Entry): Digest {
    KeyHash(h, e.objectId, e.rawKey)
  }

  /** The value hash an operation row carries: none for a delete. */
  ghost function EntryValue(h: Hash, e: Entry): Option<Digest> {
    if e.opType == Delete then None else RawValueHash(h, e.rawValue)
  }

  // ---- Reading the tables ----

  /** The join of `trie_operation_key`, `trie_operation` and `trie`, in insertion order. */
  function View(tries: map<int, TrieRow>, ops: map<int, OpRow>, toks: seq<TokRow>): seq<LogRow> {
    if toks == [] then []
    else
      var front := View(tries, ops, toks[..|toks| - 1]);
      var tok := toks[|toks| - 1];
      if tok.opId in ops && ops[tok.opId].trieId in tries then front + [JoinRow(tries, ops, tok)] else front
  }

  function JoinRow(tries: map<int, TrieRow>, ops: map<int, OpRow>, tok: TokRow): LogRow
    requires tok.opId in ops && ops[tok.opId].trieId in tries
  {
    var op := ops[tok.opId];
    LogRow(tries[op.trieId].slot, op.trieId, op.opType, op.seqOrder, tok.opId, tok.keyHash, tok.valueHash)
  }

  function LogOf(t: Tables): seq<LogRow> {
    View(t.tries, t.ops, t.toks)
  }

  /** The filter of GetCurrentStateMap. */
  predicate InStateMap(row: KeyRow) {
    !row.deletedAt && row.currentValue.Some?
  }

  /** The filter of both trie loaders. */
  predicate InTrie(row: KeyRow) {
    !row.isDeleted && row.currentValue.Some?
  }

  /** The filter of the active-object listing. */
  predicate IsActive(row: KeyRow) {
    !row.deletedAt && !row.isDeleted
  }

  /** The current values of the keys that have one. */
  function LiveOf(keys: map<Digest, KeyRow>): map<Digest, Digest> {
    map k | k in keys && keys[k].currentValue.Some? :: keys[k].currentValue.value
  }

  function CurrentStateMap(t: Tables): map<Digest, Digest> {
    map k | k in t.keys && InStateMap(t.keys[k]) :: t.keys[k].currentValue.value
  }

  function LoadedTrie(t: Tables): map<Digest, Digest> {
    map k | k in t.keys && InTrie(t.keys[k]) :: t.keys[k].currentValue.value
  }

  function KeysIn(rows: seq<LogRow>): set<Digest> {
    set i | 0 <= i < |rows| :: rows[i].keyHash
  }

  /** GetStateMapAtSlot: the greatest row of each key at or before the slot, deletes left out. */
  function StateMapAtSlot(t: Tables, slot: int): map<Digest, Digest> {
    AsOf(LogOf(t), slot)
  }

  function AsOf(log: seq<LogRow>, slot: int): map<Digest, Digest> {
    var rows := UpTo(log, slot);
    map k | k in KeysIn(rows) && EffectOf(Pick(rows, QueryLess, k)).Some?
      :: EffectOf(Pick(rows, QueryLess, k)).value
  }

  predicate HasCid(t: Tables, cid: string) {
    exists id | id in t.tries :: t.tries[id].cid == cid
  }

  predicate HasTxId(t: Tables, txId: string) {
    exists id | id in t.tries :: t.tries[id].txId == txId
  }

  // ---- Writing a batch ----

  /** The operation rows allocated so far for a batch, and the id of each group. */
  datatype OpAlloc = OpAlloc(ids: map<Group, int>, ops: map<int, OpRow>, next: int)

  function AllocOp(trieId: int, a: OpAlloc, e: Entry): OpAlloc {
    var g := GroupOf(e);
    if g in a.ids then a
    else OpAlloc(a.ids[g := a.next], a.ops[a.next := OpRow(trieId, e.opType, e.seqOrder)], a.next + 1)
  }

  function AllocOps(trieId: int, start: OpAlloc, es: seq<Entry>): OpAlloc {
    if es == [] then start else AllocOp(trieId, AllocOps(trieId, start, es[..|es| - 1]), es[|es| - 1])
  }

  /** The in-memory trie while a batch is applied to it; it stops at the first failure. */
  datatype TrieRun = TrieRun(trie: map<Digest, Digest>, failed: bool)

  ghost function TrieStep(h: Hash, run: TrieRun, e: Entry): TrieRun {
    var k := EntryKey(h, e);
    if run.failed then run
    else if e.opType == Delete then
      if k in run.trie then TrieRun(run.trie - {k}, false) else TrieRun(run.trie, true)
    else
      match EntryValue(h, e)
      case None => TrieRun(run.trie, true)
      case Some(v) => TrieRun(run.trie[k := v], false)
  }

  ghost function TrieFold(h: Hash, trie: map<Digest, Digest>, es: seq<Entry>): TrieRun {
    if es == [] then TrieRun(trie, false)
    else TrieStep(h, TrieFold(h, trie, es[..|es| - 1]), es[|es| - 1])
  }

  /** The trigger on an inserted operation key: it maintains the key's current state. */
  function Trigger(keys: map<Digest, KeyRow>, opType: OpType, tok: TokRow): map<Digest, KeyRow>
    requires tok.keyHash in keys
  {
    var row := keys[tok.keyHash];
    keys[tok.keyHash :=
      if opType == Delete then row.(currentValue := None, isDeleted := true, deletedAt := true)
      else row.(currentValue := tok.valueHash, isDeleted := false, deletedAt := false)]
  }

  /** What the emission loop has written. */
  datatype Written = Written(
    toks: seq<TokRow>, keys: map<Digest, KeyRow>, values: map<Digest, string>,
    emitted: set<(Group, Digest)>)

  function EnsureKey(h: Hash, keys: map<Digest, KeyRow>, e: Entry): map<Digest, KeyRow> {
    var k := EntryKey(h, e);
    if k in keys then keys else keys[k := KeyRow(e.objectId, e.rawKey, None, false, false)]
  }

  ghost function EnsureValue(h: Hash, values: map<Digest, string>, e: Entry): map<Digest, string> {
    if e.opType == Delete || RawCanonical(e.rawValue).None? then values
    else
      var c := RawCanonical(e.rawValue).value;
      if h(c) in values then values else values[h(c) := c]
  }

  ghost function EmitOne(h: Hash, ids: map<Group, int>, w: Written, e: Entry): Written
    requires GroupOf(e) in ids
  {
    var g, k := GroupOf(e), EntryKey(h, e);
    var keys := EnsureKey(h, w.keys, e);
    if (g, k) in w.emitted then w.(keys := keys)
    else
      var tok := TokRow(ids[g], k, EntryValue(h, e));
      Written(w.toks + [tok], Trigger(keys, e.opType, tok), EnsureValue(h, w.values, e), w.emitted + {(g, k)})
  }

  ghost function Emit(h: Hash, ids: map<Group, int>, start: Written, es: seq<Entry>): Written
    requires forall e :: e in es ==> GroupOf(e) in ids
  {
    if es == [] then start else EmitOne(h, ids, Emit(h, ids, start, es[..|es| - 1]), es[|es| - 1])
  }

  lemma {:induction false} AllocCoversGroups(trieId: int, start: OpAlloc, es: seq<Entry>)
    ensures forall e :: e in es ==> GroupOf(e) in AllocOps(trieId, start, es).ids
    ensures start.ids.Keys <= AllocOps(trieId, start, es).ids.Keys
  {
    if es != [] {
      AllocCoversGroups(trieId, start, es[..|es| - 1]);
      assert es == es[..|es| - 1] + [es[|es| - 1]];
    }
  }

  function TrieRowOf(b: Batch): TrieRow {
    TrieRow(b.cid, b.previousCid, b.currentRoot, b.previousRoot, b.slot, b.txId)
  }

  function AllocBatch(t: Tables, es: seq<Entry>): OpAlloc {
    AllocOps(t.nextTrie, OpAlloc(map[], t.ops, t.nextOp), es)
  }

  /** Every row a batch writes, with its entries in execution order. */
  ghost function WriteBatch(h: Hash, t: Tables, b: Batch, es: seq<Entry>): Tables {
    AllocCoversGroups(t.nextTrie, OpAlloc(map[], t.ops, t.nextOp), es);
    var alloc := AllocBatch(t, es);
    var w := Emit(h, alloc.ids, Written(t.toks, t.keys, t.values, {}), es);
    Tables(t.tries[t.nextTrie := TrieRowOf(b)], alloc.ops, w.toks, w.keys, w.values, t.nextTrie + 1, alloc.next)
  }

  // ---- ApplyOracleFile and Rollback on the whole store ----

  datatype Store = Store(tables: Tables, trie: map<Digest, Digest>)

  datatype Outcome = Applied | AlreadyStored | Rejected(reason: Reason)

  datatype Reason = MissingCid | MissingRoot | BadSlot | MissingTxId | DuplicateTxId | TrieFailed

  /** ApplyOracleFile.  A batch that fails in the trie leaves the tables alone (the transaction is
      rolled back) but not the in-memory trie. */
  ghost function Ingest(h: Hash, s: Store, b: Batch): (Store, Outcome) {
    if b.cid == "" then (s, Rejected(MissingCid))
    else if b.currentRoot == "" then (s, Rejected(MissingRoot))
    else if b.slot <= 0 then (s, Rejected(BadSlot))
    else if b.txId == "" then (s, Rejected(MissingTxId))
    else if HasCid(s.tables, b.cid) then (s, AlreadyStored)
    else if HasTxId(s.tables, b.txId) then (s, Rejected(DuplicateTxId))
    else
      var es := StableSort(b.entries);
      var run := TrieFold(h, s.trie, es);
      if run.failed then (Store(s.tables, run.trie), Rejected(TrieFailed))
      else (Store(WriteBatch(h, s.tables, b, es), run.trie), Applied)
  }

  // ---- rollback_to_slot: every part reads the tables as they were before the statement ----

  function DoomedOps(t: Tables, cutoff: int): set<int> {
    set o | o in t.ops && t.ops[o].trieId in t.tries && t.tries[t.ops[o].trieId].slot > cutoff
  }

  function AffectedKeys(t: Tables, cutoff: int): set<Digest> {
    set i | 0 <= i < |t.toks| && t.toks[i].opId in DoomedOps(t, cutoff) :: t.toks[i].keyHash
  }

  /** `last_ops`: the last row of a key at or before the cutoff, in the rollback's own ordering. */
  function LastOp(t: Tables, cutoff: int, k: Digest): Option<LogRow> {
    Pick(UpTo(LogOf(t), cutoff), RollbackLess, k)
  }

  /** The keys `up_keys` updates. */
  function UpKeys(t: Tables, cutoff: int): set<Digest> {
    set k | k in t.keys && k in AffectedKeys(t, cutoff) && LastOp(t, cutoff, k).Some?
  }

  /** The keys `up_missing` updates. */
  function UpMissing(t: Tables, cutoff: int): set<Digest> {
    set k | k in t.keys && k in AffectedKeys(t, cutoff) && LastOp(t, cutoff, k).None?
  }

  function Restored(row: KeyRow, last: LogRow): KeyRow {
    if last.opType == Delete then Tombstone(row)
    else row.(currentValue := last.valueHash, isDeleted := false, deletedAt := false)
  }

  function Tombstone(row: KeyRow): KeyRow {
    row.(currentValue := None, isDeleted := true, deletedAt := true)
  }

  function KeepToks(toks: seq<TokRow>, doomed: set<int>): seq<TokRow> {
    if toks == [] then []
    else
      var front := KeepToks(toks[..|toks| - 1], doomed);
      if toks[|toks| - 1].opId in doomed then front else front + [toks[|toks| - 1]]
  }

  /** The values some key or some operation row refers to before the statement. */
  function UsedValues(t: Tables): set<Digest> {
    (set k | k in t.keys && t.keys[k].currentValue.Some? :: t.keys[k].currentValue.value)
    + (set i | 0 <= i < |t.toks| && t.toks[i].valueHash.Some? :: t.toks[i].valueHash.value)
  }

  /** What `del_trie` leaves. */
  function SurvivingTries(t: Tables, cutoff: int): map<int, TrieRow> {
    map id | id in t.tries && t.tries[id].slot <= cutoff :: t.tries[id]
  }

  /** What `del_op` leaves. */
  function SurvivingOps(t: Tables, cutoff: int): map<int, OpRow> {
    map o | o in t.ops && o !in DoomedOps(t, cutoff) :: t.ops[o]
  }

  function RollbackTables(t: Tables, cutoff: int): Tables {
    var upKeys, upMissing := UpKeys(t, cutoff), UpMissing(t, cutoff);
    Tables(
      SurvivingTries(t, cutoff),
      SurvivingOps(t, cutoff),
      KeepToks(t.toks, DoomedOps(t, cutoff)),
      map k | k in t.keys ::
        if k in upKeys then Restored(t.keys[k], LastOp(t, cutoff, k).value)
        else if k in upMissing then Tombstone(t.keys[k])
        else t.keys[k],
      map v | v in t.values && v in UsedValues(t) :: t.values[v],
      t.nextTrie, t.nextOp)
  }

  /** Rollback: the SQL function, then the trie rebuilt from the key table. */
  function Rollback(s: Store, cutoff: int): Store {
    var t := RollbackTables(s.tables, cutoff);
    Store(t, LoadedTrie(t))
  }
}
