/** Whole runs of batches and rollbacks.  The store behaves as a stack of batches: a rollback pops
    those after the cutoff, and what is left is as if nothing else had ever been applied. */
module StoreRuns {
  import opened Common
  import opened OperationLog
  import opened BatchOrder
  import opened VersionedStore
  import opened BatchWrites
  import opened TrieAgreement
  import opened StoreInvariant
  import opened RollbackUndo
  import opened TrieFailure

  datatype Action = IngestFile(b: Batch) | RollbackTo(slot: int)

  ghost function Step(h: Hash, s: Store, a: Action): Store {
    match a
    case IngestFile(b) => Ingest(h, s, b).0
    case RollbackTo(c) => Rollback(s, c)
  }

  ghost function Run(h: Hash, s: Store, actions: seq<Action>): Store {
    if actions == [] then s
    else Step(h, Run(h, s, actions[..|actions| - 1]), actions[|actions| - 1])
  }

  const EMPTY_STORE := Store(EMPTY_TABLES, map[])

  // ---- Ids aside ----

  /** A row without its generated ids, which a replayed batch gets anew. */
  function Erase(r: LogRow): LogRow {
    r.(trieId := 0, opId := 0)
  }

  function EraseAll(rows: seq<LogRow>): seq<LogRow> {
    seq(|rows|, i requires 0 <= i < |rows| => Erase(rows[i]))
  }

  lemma {:induction false} ReplayErased(m: map<Digest, Digest>, rows: seq<LogRow>)
    ensures Replay(m, EraseAll(rows)) == Replay(m, rows)
  {
    if rows != [] {
      assert EraseAll(rows)[..|rows| - 1] == EraseAll(rows[..|rows| - 1]);
      ReplayErased(m, rows[..|rows| - 1]);
    }
  }

  lemma {:induction false} UpToErased(rows: seq<LogRow>, slot: int)
    ensures EraseAll(UpTo(rows, slot)) == UpTo(EraseAll(rows), slot)
  {
    if rows != [] {
      var front := rows[..|rows| - 1];
      assert EraseAll(rows)[..|rows| - 1] == EraseAll(front);
      UpToErased(front, slot);
    }
  }

  ghost function ZeroIds(es: seq<Entry>): map<Group, int> {
    map i | 0 <= i < |es| :: GroupOf(es[i]) := 0
  }

  /** The log rows of a batch, ids aside. */
  ghost function BatchLog(h: Hash, b: Batch): seq<LogRow> {
    var es := StableSort(b.entries);
    ZeroIdsCover(es);
    BatchRows(h, 0, b.slot, ZeroIds(es), es)
  }

  lemma ZeroIdsCover(es: seq<Entry>)
    ensures forall e :: e in es ==> GroupOf(e) in ZeroIds(es)
    ensures forall g :: g in ZeroIds(es) ==> ZeroIds(es)[g] == 0
  {
  }

  lemma {:induction false} EraseBatchRows(
      h: Hash, trieId: int, slot: int, ids: map<Group, int>, zeros: map<Group, int>, es: seq<Entry>)
    requires forall e :: e in es ==> GroupOf(e) in ids && GroupOf(e) in zeros
    requires forall g :: g in zeros ==> zeros[g] == 0
    ensures EraseAll(BatchRows(h, trieId, slot, ids, es)) == BatchRows(h, 0, slot, zeros, es)
  {
    if es != [] {
      EraseBatchRows(h, trieId, slot, ids, zeros, es[..|es| - 1]);
    }
  }

  lemma RowsOfBatchErased(h: Hash, t: Tables, b: Batch)
    ensures EraseAll(RowsOfBatch(h, t, b, StableSort(b.entries))) == BatchLog(h, b)
  {
    var es := StableSort(b.entries);
    AllocCoversGroups(t.nextTrie, OpAlloc(map[], t.ops, t.nextOp), es);
    ZeroIdsCover(es);
    EraseBatchRows(h, t.nextTrie, b.slot, AllocBatch(t, es).ids, ZeroIds(es), es);
  }

  // ---- The reference: a stack of batches ----

  ghost function HistoryLog(h: Hash, hist: seq<Batch>): seq<LogRow> {
    if hist == [] then [] else HistoryLog(h, hist[..|hist| - 1]) + BatchLog(h, hist[|hist| - 1])
  }

  ghost function HistoryLive(h: Hash, hist: seq<Batch>): map<Digest, Digest> {
    Live(HistoryLog(h, hist))
  }

  ghost predicate WellFormedBatch(b: Batch) {
    b.cid != "" && b.currentRoot != "" && b.slot > 0 && b.txId != ""
  }

  /** The file is new: neither its CID nor its transaction is stored. */
  ghost predicate NewFile(hist: seq<Batch>, b: Batch) {
    forall x :: x in hist ==> x.cid != b.cid && x.txId != b.txId
  }

  ghost predicate Executes(h: Hash, hist: seq<Batch>, b: Batch) {
    !TrieFold(h, HistoryLive(h, hist), StableSort(b.entries)).failed
  }

  ghost predicate Accepts(h: Hash, hist: seq<Batch>, b: Batch) {
    WellFormedBatch(b) && NewFile(hist, b) && Executes(h, hist, b)
  }

  /** A stored batch may follow these: slots do not decrease, shared keys at a shared slot do not
      step back, and repeated entries repeat their value. */
  ghost predicate MayFollow(h: Hash, hist: seq<Batch>, b: Batch) {
    && (forall x :: x in hist ==> x.slot <= b.slot)
    && (forall r, e :: r in HistoryLog(h, hist) && r.slot == b.slot && e in b.entries && EntryKey(h, e) == r.keyHash
          ==> exists d :: d in b.entries && EntryKey(h, d) == r.keyHash && !GroupLess(GroupOf(d), RowGroup(r)))
    && DuplicatesAgree(h, StableSort(b.entries))
  }

  function KeptBatches(hist: seq<Batch>, cutoff: int): seq<Batch> {
    if hist == [] then []
    else
      var front := KeptBatches(hist[..|hist| - 1], cutoff);
      if hist[|hist| - 1].slot <= cutoff then front + [hist[|hist| - 1]] else front
  }

  ghost function HistoryStep(h: Hash, hist: seq<Batch>, a: Action): seq<Batch> {
    match a
    case IngestFile(b) => if Accepts(h, hist, b) then hist + [b] else hist
    case RollbackTo(c) => KeptBatches(hist, c)
  }

  /** The batches that survive a run. */
  ghost function History(h: Hash, actions: seq<Action>): seq<Batch> {
    if actions == [] then [] else HistoryStep(h, History(h, actions[..|actions| - 1]), actions[|actions| - 1])
  }

  /** A file that fails after entries that put back everything they changed. */
  ghost predicate HarmlessFailure(h: Hash, hist: seq<Batch>, b: Batch) {
    var live, es := HistoryLive(h, hist), StableSort(b.entries);
    !Executable(h, live, es) && PutsBack(h, live, es[..Reached(h, live, es)])
  }

  /** Runs in which every new file either commits and may follow what is stored, or fails harmlessly. */
  ghost predicate CleanRun(h: Hash, actions: seq<Action>) {
    forall i :: 0 <= i < |actions| ==> CleanStep(h, History(h, actions[..i]), actions[i])
  }

  ghost predicate CleanStep(h: Hash, hist: seq<Batch>, a: Action) {
    a.IngestFile? && WellFormedBatch(a.b) && NewFile(hist, a.b) ==>
      if Executes(h, hist, a.b) then MayFollow(h, hist, a.b) else HarmlessFailure(h, hist, a.b)
  }

  // ---- The store represents the stack ----

  function TrieRows(tries: map<int, TrieRow>): set<TrieRow> {
    set id | id in tries :: tries[id]
  }

  function FileRows(hist: seq<Batch>): set<TrieRow> {
    set b | b in hist :: TrieRowOf(b)
  }

  ghost predicate SameFiles(t: Tables, hist: seq<Batch>) {
    TrieRows(t.tries) == FileRows(hist)
  }

  ghost predicate TablesRepresent(h: Hash, t: Tables, hist: seq<Batch>) {
    && Inv(h, t)
    && SameFiles(t, hist)
    && EraseAll(LogOf(t)) == HistoryLog(h, hist)
  }

  ghost predicate Represents(h: Hash, s: Store, hist: seq<Batch>) {
    TablesRepresent(h, s.tables, hist) && s.trie == LiveOf(s.tables.keys)
  }

  lemma TablesLive(h: Hash, t: Tables, hist: seq<Batch>)
    requires TablesRepresent(h, t, hist)
    ensures LiveOf(t.keys) == HistoryLive(h, hist)
  {
    ReplayErased(map[], LogOf(t));
  }

  lemma RepresentsLive(h: Hash, s: Store, hist: seq<Batch>)
    requires Represents(h, s, hist)
    ensures s.trie == HistoryLive(h, hist)
  {
    TablesLive(h, s.tables, hist);
  }

  lemma RowId(tries: map<int, TrieRow>, row: TrieRow) returns (id: int)
    requires row in TrieRows(tries)
    ensures id in tries && tries[id] == row
  {
    id :| id in tries && tries[id] == row;
  }

  lemma StoredFile(t: Tables, hist: seq<Batch>, id: int) returns (b: Batch)
    requires SameFiles(t, hist) && id in t.tries
    ensures b in hist && TrieRowOf(b) == t.tries[id]
  {
    assert t.tries[id] in FileRows(hist);
    b :| b in hist && TrieRowOf(b) == t.tries[id];
  }

  lemma FileStored(t: Tables, hist: seq<Batch>, b: Batch) returns (id: int)
    requires SameFiles(t, hist) && b in hist
    ensures id in t.tries && t.tries[id] == TrieRowOf(b)
  {
    assert TrieRowOf(b) in TrieRows(t.tries);
    id := RowId(t.tries, TrieRowOf(b));
  }

  lemma FilesDecide(t: Tables, hist: seq<Batch>, b: Batch)
    requires SameFiles(t, hist)
    ensures !HasCid(t, b.cid) && !HasTxId(t, b.txId) <==> NewFile(hist, b)
  {
    if NewFile(hist, b) {
      forall id | id in t.tries ensures t.tries[id].cid != b.cid && t.tries[id].txId != b.txId {
        var x := StoredFile(t, hist, id);
      }
    }
    if !HasCid(t, b.cid) && !HasTxId(t, b.txId) {
      forall x | x in hist ensures x.cid != b.cid && x.txId != b.txId {
        var id := FileStored(t, hist, x);
      }
    }
  }

  lemma MayFollowIsAdmissible(h: Hash, s: Store, hist: seq<Batch>, b: Batch)
    requires Represents(h, s, hist) && MayFollow(h, hist, b)
    ensures Admissible(h, s.tables, b)
  {
    var t := s.tables;
    forall id | id in t.tries ensures t.tries[id].slot <= b.slot {
      var x := StoredFile(t, hist, id);
    }
    forall r, e | r in LogOf(t) && r.slot == b.slot && e in b.entries && EntryKey(h, e) == r.keyHash
      ensures exists d :: d in b.entries && EntryKey(h, d) == r.keyHash && !GroupLess(GroupOf(d), RowGroup(r))
    {
      var i :| 0 <= i < |LogOf(t)| && LogOf(t)[i] == r;
      assert EraseAll(LogOf(t))[i] == Erase(r);
      assert Erase(r) in HistoryLog(h, hist);
      assert RowGroup(Erase(r)) == RowGroup(r);
    }
  }

  /** A new file that commits pushes its batch. */
  lemma IngestPushes(h: Hash, s: Store, hist: seq<Batch>, b: Batch)
    requires Represents(h, s, hist) && Accepts(h, hist, b) && MayFollow(h, hist, b)
    ensures Ingest(h, s, b).1 == Applied
    ensures Represents(h, Ingest(h, s, b).0, hist + [b])
  {
    var t, es := s.tables, StableSort(b.entries);
    RepresentsLive(h, s, hist);
    FilesDecide(t, hist, b);
    MayFollowIsAdmissible(h, s, hist, b);
    CommittedIsHashable(h, s.trie, es);
    BatchKeepsInvariant(h, t, b, es);
    PushedLog(h, t, hist, b);
    PushedFiles(h, t, hist, b, es);
    PushedTrie(h, s, b, es);
  }

  lemma PushedLog(h: Hash, t: Tables, hist: seq<Batch>, b: Batch)
    requires Linked(t) && EraseAll(LogOf(t)) == HistoryLog(h, hist)
    ensures EraseAll(LogOf(WriteBatch(h, t, b, StableSort(b.entries)))) == HistoryLog(h, hist + [b])
  {
    var es := StableSort(b.entries);
    BatchExtendsLog(h, t, b, es);
    RowsOfBatchErased(h, t, b);
    EraseConcat(LogOf(t), RowsOfBatch(h, t, b, es));
    assert (hist + [b])[..|hist|] == hist;
  }

  lemma EraseConcat(a: seq<LogRow>, b: seq<LogRow>)
    ensures EraseAll(a + b) == EraseAll(a) + EraseAll(b)
  {
  }

  lemma PushedFiles(h: Hash, t: Tables, hist: seq<Batch>, b: Batch, es: seq<Entry>)
    requires Linked(t) && SameFiles(t, hist)
    ensures SameFiles(WriteBatch(h, t, b, es), hist + [b])
  {
    AddedRow(t.tries, t.nextTrie, TrieRowOf(b));
    assert FileRows(hist + [b]) == FileRows(hist) + {TrieRowOf(b)};
  }

  lemma AddedRow(tries: map<int, TrieRow>, id: int, row: TrieRow)
    requires id !in tries
    ensures TrieRows(tries[id := row]) == TrieRows(tries) + {row}
  {
    var more := tries[id := row];
    forall x | x in TrieRows(tries) + {row} ensures x in TrieRows(more) {
      if x in TrieRows(tries) {
        var j := RowId(tries, x);
        assert more[j] == x;
      } else {
        assert more[id] == x;
      }
    }
  }

  /** After a committed batch whose repeats agree, the trie is again the live map. */
  lemma PushedTrie(h: Hash, s: Store, b: Batch, es: seq<Entry>)
    requires Inv(h, s.tables) && s.trie == LiveOf(s.tables.keys) && es == StableSort(b.entries)
    requires !TrieFold(h, s.trie, es).failed
    ensures TrieFold(h, s.trie, es).trie == LiveOf(WriteBatch(h, s.tables, b, es).keys) <==> DuplicatesAgree(h, es)
  {
    var t := s.tables;
    StableSortIsStable(b.entries);
    CommittedIsHashable(h, s.trie, es);
    AllocCoversGroups(t.nextTrie, OpAlloc(map[], t.ops, t.nextOp), es);
    TrieTracksLog(h, t.nextTrie, b.slot, AllocBatch(t, es).ids, s.trie, es);
    WriteBatchLinked(h, t, b, es);
  }

  // ---- Rolling the stack back ----

  lemma {:induction false} BatchLogSlots(h: Hash, b: Batch, slot: int)
    ensures UpTo(BatchLog(h, b), slot) == if b.slot <= slot then BatchLog(h, b) else []
  {
    var es := StableSort(b.entries);
    ZeroIdsCover(es);
    RowsFromEntries(h, 0, b.slot, ZeroIds(es), es);
    if b.slot <= slot {
      UpToAll(BatchLog(h, b), slot);
    } else {
      UpToNone(BatchLog(h, b), slot);
    }
  }

  lemma {:induction false} KeptLog(h: Hash, hist: seq<Batch>, cutoff: int)
    ensures HistoryLog(h, KeptBatches(hist, cutoff)) == UpTo(HistoryLog(h, hist), cutoff)
  {
    if hist != [] {
      var front, b := hist[..|hist| - 1], hist[|hist| - 1];
      KeptLog(h, front, cutoff);
      BatchLogSlots(h, b, cutoff);
      UpToConcat(HistoryLog(h, front), BatchLog(h, b), cutoff);
      var kept := KeptBatches(front, cutoff);
      assert (kept + [b])[..|kept|] == kept;
    }
  }

  lemma {:induction false} KeptMembers(hist: seq<Batch>, cutoff: int)
    ensures forall b :: b in KeptBatches(hist, cutoff) <==> b in hist && b.slot <= cutoff
  {
    if hist != [] {
      KeptMembers(hist[..|hist| - 1], cutoff);
      assert hist == hist[..|hist| - 1] + [hist[|hist| - 1]];
    }
  }

  lemma KeptFiles(t: Tables, hist: seq<Batch>, cutoff: int)
    requires SameFiles(t, hist)
    ensures SameFiles(RollbackTables(t, cutoff), KeptBatches(hist, cutoff))
  {
    var tries, kept := SurvivingTries(t, cutoff), KeptBatches(hist, cutoff);
    KeptMembers(hist, cutoff);
    forall row ensures row in TrieRows(tries) <==> row in FileRows(kept) {
      if row in TrieRows(tries) {
        var id := RowId(tries, row);
        var b := StoredFile(t, hist, id);
        assert b in kept;
      }
      if row in FileRows(kept) {
        var b :| b in kept && TrieRowOf(b) == row;
        var id := FileStored(t, hist, b);
        assert id in tries && tries[id] == row;
      }
    }
  }

  /** A rollback pops the batches after the cutoff.  It needs nothing of the in-memory trie, which it
      rebuilds: whatever a failed batch left there is gone. */
  lemma RollbackPops(h: Hash, s: Store, hist: seq<Batch>, cutoff: int)
    requires TablesRepresent(h, s.tables, hist)
    ensures Represents(h, Rollback(s, cutoff), KeptBatches(hist, cutoff))
  {
    var t := s.tables;
    RollbackIsUndo(h, t, cutoff);
    FiltersAgree(h, RollbackTables(t, cutoff));
    KeptLog(h, hist, cutoff);
    UpToErased(LogOf(t), cutoff);
    KeptFiles(t, hist, cutoff);
  }

  lemma StepRepresents(h: Hash, s: Store, hist: seq<Batch>, a: Action)
    requires Represents(h, s, hist) && CleanStep(h, hist, a)
    ensures Represents(h, Step(h, s, a), HistoryStep(h, hist, a))
  {
    match a
    case RollbackTo(c) => RollbackPops(h, s, hist, c);
    case IngestFile(b) =>
      if Accepts(h, hist, b) {
        IngestPushes(h, s, hist, b);
      } else {
        FilesDecide(s.tables, hist, b);
        RepresentsLive(h, s, hist);
        if WellFormedBatch(b) && NewFile(hist, b) {
          FailedBatchLeaves(h, s.trie, StableSort(b.entries));
        }
        assert Ingest(h, s, b).0 == s;
      }
  }

  /** A new file is rejected by the trie exactly when some value does not hash or some delete misses its
      key.  The tables then stay, and the store goes on representing what it did exactly when the
      entries before the failing one put everything back. */
  lemma FailureIsExact(h: Hash, s: Store, hist: seq<Batch>, b: Batch)
    requires Represents(h, s, hist) && WellFormedBatch(b) && NewFile(hist, b)
    ensures var (s', outcome) := Ingest(h, s, b);
            && (outcome == Rejected(TrieFailed) <==> !Executable(h, HistoryLive(h, hist), StableSort(b.entries)))
            && (outcome == Rejected(TrieFailed) ==>
                  s'.tables == s.tables && (Represents(h, s', hist) <==> HarmlessFailure(h, hist, b)))
  {
    FilesDecide(s.tables, hist, b);
    RepresentsLive(h, s, hist);
    FailsExactlyWhen(h, s.trie, StableSort(b.entries));
    if !Executable(h, s.trie, StableSort(b.entries)) {
      FailedBatchLeaves(h, s.trie, StableSort(b.entries));
    }
  }

  lemma EmptyRepresents(h: Hash)
    ensures Represents(h, EMPTY_STORE, [])
  {
    EmptyTablesSound(h);
  }

  /** After every clean run, harmless failures included, the store represents exactly the batches that survive it. */
  lemma {:induction false} RunRepresentsHistory(h: Hash, actions: seq<Action>)
    requires CleanRun(h, actions)
    ensures Represents(h, Run(h, EMPTY_STORE, actions), History(h, actions))
  {
    if actions == [] {
      EmptyRepresents(h);
    } else {
      var n := |actions| - 1;
      CleanPrefix(h, actions, n);
      RunRepresentsHistory(h, actions[..n]);
      StepRepresents(h, Run(h, EMPTY_STORE, actions[..n]), History(h, actions[..n]), actions[n]);
    }
  }

  lemma CleanPrefix(h: Hash, actions: seq<Action>, n: nat)
    requires CleanRun(h, actions) && n <= |actions|
    ensures CleanRun(h, actions[..n])
  {
    forall i | 0 <= i < n ensures CleanStep(h, History(h, actions[..n][..i]), actions[..n][i]) {
      assert actions[..n][..i] == actions[..i];
    }
  }

  /** Four views of the live state coincide after every clean run: the key table, the replay of the
      log, the as-of query at any slot not below the newest, and the in-memory trie. */
  lemma FourViewsAgree(h: Hash, actions: seq<Action>, slot: int)
    requires CleanRun(h, actions)
    requires NotBefore(Run(h, EMPTY_STORE, actions).tables, slot)
    ensures var s := Run(h, EMPTY_STORE, actions);
            && s.trie == LiveOf(s.tables.keys) == CurrentStateMap(s.tables)
            && s.trie == Live(LogOf(s.tables))
            && s.trie == StateMapAtSlot(s.tables, slot)
            && s.trie == HistoryLive(h, History(h, actions))
  {
    var s := Run(h, EMPTY_STORE, actions);
    RunRepresentsHistory(h, actions);
    RepresentsLive(h, s, History(h, actions));
    ViewsCoincide(h, s.tables, slot);
    FiltersAgree(h, s.tables);
  }

  // ---- As if the undone batches had never been applied ----

  function IngestAll(hist: seq<Batch>): seq<Action> {
    seq(|hist|, i requires 0 <= i < |hist| => IngestFile(hist[i]))
  }

  /** Every batch was accepted on top of exactly those below it. */
  ghost predicate Stacked(h: Hash, hist: seq<Batch>) {
    forall i :: 0 <= i < |hist| ==> Accepts(h, hist[..i], hist[i]) && MayFollow(h, hist[..i], hist[i])
  }

  ghost predicate BatchSlotsNondecreasing(hist: seq<Batch>) {
    forall i, j :: 0 <= i < j < |hist| ==> hist[i].slot <= hist[j].slot
  }

  lemma StackedSlots(h: Hash, hist: seq<Batch>)
    requires Stacked(h, hist)
    ensures BatchSlotsNondecreasing(hist)
  {
    forall i, j | 0 <= i < j < |hist| ensures hist[i].slot <= hist[j].slot {
      assert MayFollow(h, hist[..j], hist[j]);
      assert hist[..j][i] in hist[..j];
    }
  }

  lemma {:induction false} KeptIsPrefix(hist: seq<Batch>, cutoff: int) returns (n: nat)
    requires BatchSlotsNondecreasing(hist)
    ensures n <= |hist| && KeptBatches(hist, cutoff) == hist[..n]
    ensures forall i :: 0 <= i < |hist| ==> (hist[i].slot <= cutoff <==> i < n)
  {
    if hist == [] {
      n := 0;
    } else {
      var last := |hist| - 1;
      n := KeptIsPrefix(hist[..last], cutoff);
      assert hist[..last][..n] == hist[..n];
      if hist[last].slot <= cutoff {
        assert hist[..last] + [hist[last]] == hist;
        n := |hist|;
      }
    }
  }

  lemma StackedPrefix(h: Hash, hist: seq<Batch>, n: nat)
    requires Stacked(h, hist) && n <= |hist|
    ensures Stacked(h, hist[..n])
  {
    forall i | 0 <= i < n
      ensures Accepts(h, hist[..n][..i], hist[..n][i]) && MayFollow(h, hist[..n][..i], hist[..n][i])
    {
      assert hist[..n][..i] == hist[..i];
    }
  }

  lemma {:induction false} HistoryStacked(h: Hash, actions: seq<Action>)
    requires CleanRun(h, actions)
    ensures Stacked(h, History(h, actions))
  {
    if actions != [] {
      var n := |actions| - 1;
      CleanPrefix(h, actions, n);
      HistoryStacked(h, actions[..n]);
      var hist := History(h, actions[..n]);
      match actions[n]
      case RollbackTo(c) =>
        StackedSlots(h, hist);
        var k := KeptIsPrefix(hist, c);
        StackedPrefix(h, hist, k);
      case IngestFile(b) =>
        if Accepts(h, hist, b) {
          StackedSnoc(h, hist, b);
        }
    }
  }

  lemma StackedSnoc(h: Hash, hist: seq<Batch>, b: Batch)
    requires Stacked(h, hist) && Accepts(h, hist, b) && MayFollow(h, hist, b)
    ensures Stacked(h, hist + [b])
  {
    var all := hist + [b];
    forall i | 0 <= i < |all| ensures Accepts(h, all[..i], all[i]) && MayFollow(h, all[..i], all[i]) {
      if i < |hist| {
        assert all[..i] == hist[..i] && all[i] == hist[i];
      } else {
        assert all[..i] == hist;
      }
    }
  }

  lemma AcceptedStep(h: Hash, hist: seq<Batch>, b: Batch)
    requires Accepts(h, hist, b) && MayFollow(h, hist, b)
    ensures CleanStep(h, hist, IngestFile(b)) && HistoryStep(h, hist, IngestFile(b)) == hist + [b]
  {
  }

  lemma CleanSnoc(h: Hash, actions: seq<Action>, a: Action)
    requires CleanRun(h, actions) && CleanStep(h, History(h, actions), a)
    ensures CleanRun(h, actions + [a]) && History(h, actions + [a]) == HistoryStep(h, History(h, actions), a)
  {
    var all := actions + [a];
    assert all[..|actions|] == actions;
    forall i | 0 <= i < |all| ensures CleanStep(h, History(h, all[..i]), all[i]) {
      if i < |actions| {
        assert all[..i] == actions[..i] && all[i] == actions[i];
      }
    }
  }

  lemma {:induction false} StackedRun(h: Hash, hist: seq<Batch>)
    requires Stacked(h, hist)
    ensures CleanRun(h, IngestAll(hist)) && History(h, IngestAll(hist)) == hist
  {
    if hist != [] {
      var n := |hist| - 1;
      StackedPrefix(h, hist, n);
      StackedRun(h, hist[..n]);
      AcceptedStep(h, hist[..n], hist[n]);
      CleanSnoc(h, IngestAll(hist[..n]), IngestFile(hist[n]));
      IngestAllSnoc(hist);
    }
  }

  lemma IngestAllSnoc(hist: seq<Batch>)
    requires hist != []
    ensures var n := |hist| - 1;
            IngestAll(hist) == IngestAll(hist[..n]) + [IngestFile(hist[n])] && hist == hist[..n] + [hist[n]]
  {
  }

  /** Rollback is exact undo over whole runs: the log (ids aside), the live keys, the trie and the
      stored files are those of a run that only ever applied the surviving batches. */
  lemma UndoneAsIfNeverApplied(h: Hash, actions: seq<Action>)
    requires CleanRun(h, actions)
    ensures var survivors := IngestAll(History(h, actions));
            var s, direct := Run(h, EMPTY_STORE, actions), Run(h, EMPTY_STORE, survivors);
            && CleanRun(h, survivors)
            && EraseAll(LogOf(s.tables)) == EraseAll(LogOf(direct.tables))
            && LiveOf(s.tables.keys) == LiveOf(direct.tables.keys)
            && s.trie == direct.trie
            && forall cid :: HasCid(s.tables, cid) <==> HasCid(direct.tables, cid)
  {
    var hist := History(h, actions);
    HistoryStacked(h, actions);
    StackedRun(h, hist);
    RunRepresentsHistory(h, actions);
    RunRepresentsHistory(h, IngestAll(hist));
    var s, direct := Run(h, EMPTY_STORE, actions), Run(h, EMPTY_STORE, IngestAll(hist));
    RepresentsLive(h, s, hist);
    RepresentsLive(h, direct, hist);
    forall cid ensures HasCid(s.tables, cid) <==> HasCid(direct.tables, cid) {
      CidInHistory(s.tables, hist, cid);
      CidInHistory(direct.tables, hist, cid);
    }
  }

  lemma CidInHistory(t: Tables, hist: seq<Batch>, cid: string)
    requires SameFiles(t, hist)
    ensures HasCid(t, cid) <==> exists b :: b in hist && b.cid == cid
  {
    if HasCid(t, cid) {
      var id :| id in t.tries && t.tries[id].cid == cid;
      var b := StoredFile(t, hist, id);
    }
    if exists b :: b in hist && b.cid == cid {
      var b :| b in hist && b.cid == cid;
      var id := FileStored(t, hist, b);
    }
  }

  // ---- Replay after a restart ----

  lemma {:induction false} RunConcat(h: Hash, s: Store, a: seq<Action>, b: seq<Action>)
    ensures Run(h, s, a + b) == Run(h, Run(h, s, a), b)
  {
    if b == [] {
      assert a + b == a;
    } else {
      var n := |b| - 1;
      assert (a + b)[..|a + b| - 1] == a + b[..n];
      RunConcat(h, s, a, b[..n]);
    }
  }

  /** What an ingest answers, field by field: a missing field first, then a file whose CID some row has,
      then one whose transaction some row has.  Only an applied file changes the tables, and only one
      that got as far as the trie loop the trie. */
  lemma IngestAnswers(h: Hash, s: Store, b: Batch)
    ensures var (s', outcome) := Ingest(h, s, b);
            var complete := b.cid != "" && b.currentRoot != "" && b.slot > 0 && b.txId != "";
            var hasCid := exists id :: id in s.tables.tries && s.tables.tries[id].cid == b.cid;
            var hasTxId := exists id :: id in s.tables.tries && s.tables.tries[id].txId == b.txId;
            && (outcome == Rejected(MissingCid) <==> b.cid == "")
            && (outcome == Rejected(MissingRoot) <==> b.cid != "" && b.currentRoot == "")
            && (outcome == Rejected(BadSlot) <==> b.cid != "" && b.currentRoot != "" && b.slot <= 0)
            && (outcome == Rejected(MissingTxId)
                <==> b.cid != "" && b.currentRoot != "" && b.slot > 0 && b.txId == "")
            && (outcome == AlreadyStored <==> complete && hasCid)
            && (outcome == Rejected(DuplicateTxId) <==> complete && !hasCid && hasTxId)
            && (outcome != Applied ==> s'.tables == s.tables)
            && (outcome != Applied && outcome != Rejected(TrieFailed) ==> s' == s)
  {
  }

  /** An applied file adds one row, under the next id, that says of the file what the batch says. */
  lemma AppliedAddsRow(h: Hash, s: Store, b: Batch)
    requires Ingest(h, s, b).1 == Applied
    ensures var after, id := Ingest(h, s, b).0.tables.tries, s.tables.nextTrie;
            && after.Keys == s.tables.tries.Keys + {id}
            && (forall i :: i in s.tables.tries && i != id ==> after[i] == s.tables.tries[i])
            && after[id].cid == b.cid && after[id].txId == b.txId && after[id].slot == b.slot
            && after[id].currentRoot == b.currentRoot
            && after[id].previousCid == b.previousCid && after[id].previousRoot == b.previousRoot
  {
    AppliedTries(h, s, b);
  }

  lemma AppliedTries(h: Hash, s: Store, b: Batch)
    requires Ingest(h, s, b).1 == Applied
    ensures Ingest(h, s, b).0.tables.tries == s.tables.tries[s.tables.nextTrie := TrieRowOf(b)]
  {
  }

  /** Ingesting files that are stored already, and then new ones, is ingesting the new ones; and each of
      the former, if its fields are there, is reported as stored already. */
  lemma {:induction false} ReplayIsHarmless(h: Hash, s: Store, stored: seq<Batch>, direct: seq<Batch>)
    requires forall b :: b in stored ==> HasCid(s.tables, b.cid)
    ensures Run(h, s, IngestAll(stored) + IngestAll(direct)) == Run(h, s, IngestAll(direct))
    ensures forall i :: 0 <= i < |stored| && WellFormedBatch(stored[i]) ==>
              Ingest(h, Run(h, s, IngestAll(stored[..i])), stored[i]) == (s, AlreadyStored)
  {
    RunConcat(h, s, IngestAll(stored), IngestAll(direct));
    StoredChangesNothing(h, s, stored);
    forall i | 0 <= i < |stored| && WellFormedBatch(stored[i])
      ensures Ingest(h, Run(h, s, IngestAll(stored[..i])), stored[i]) == (s, AlreadyStored)
    {
      StoredChangesNothing(h, s, stored[..i]);
      assert stored[i] in stored;
      IngestAnswers(h, s, stored[i]);
    }
  }

  lemma {:induction false} StoredChangesNothing(h: Hash, s: Store, stored: seq<Batch>)
    requires forall b :: b in stored ==> HasCid(s.tables, b.cid)
    ensures Run(h, s, IngestAll(stored)) == s
  {
    if stored != [] {
      var n := |stored| - 1;
      assert stored[n] in stored;
      assert IngestAll(stored)[..n] == IngestAll(stored[..n]);
      StoredChangesNothing(h, s, stored[..n]);
    }
  }

  // ---- A batch that fails ----

  /** A failed batch leaves the tables alone but not the trie: here the insert went through before
      the delete of an unknown key failed, and the trie holds a key the tables do not. */
  lemma FailedBatchDiverges(h: Hash, b: Batch)
    requires WellFormedBatch(b)
    requires b.entries == [Entry("o", "k", "true", Insert, 0), Entry("o", "l", "", Delete, 0)]
    requires KeyHash(h, "o", "k") != KeyHash(h, "o", "l")
    ensures var (s, outcome) := Ingest(h, EMPTY_STORE, b);
            && outcome == Rejected(TrieFailed) && s.tables == EMPTY_TABLES
            && s.trie == map[KeyHash(h, "o", "k") := h("true")]
            && s.trie != LiveOf(s.tables.keys)
  {
    var es := b.entries;
    StableSortOfSorted(es);
    InsertThenBadDelete(h, es);
    assert KeyHash(h, "o", "k") in Ingest(h, EMPTY_STORE, b).0.trie;
    assert LiveOf(EMPTY_TABLES.keys) == map[];
  }

  lemma TrueIsCanonical(h: Hash)
    ensures RawValueHash(h, "true") == Some(h("true"))
  {
  }

  lemma InsertThenBadDelete(h: Hash, es: seq<Entry>)
    requires es == [Entry("o", "k", "true", Insert, 0), Entry("o", "l", "", Delete, 0)]
    requires KeyHash(h, "o", "k") != KeyHash(h, "o", "l")
    ensures TrieFold(h, map[], es) == TrieRun(map[KeyHash(h, "o", "k") := h("true")], true)
  {
    TrueIsCanonical(h);
    var start: map<Digest, Digest> := map[];
    FoldTwo(h, start, es);
  }

  lemma FoldTwo(h: Hash, start: map<Digest, Digest>, es: seq<Entry>)
    requires |es| == 2
    ensures TrieFold(h, start, es) == TrieStep(h, TrieStep(h, TrieRun(start, false), es[0]), es[1])
  {
    assert es[..1][..0] == [];
    assert TrieFold(h, start, es[..0]) == TrieRun(start, false);
  }
}
