/** Runs in which files may fail in any way: what the tables hold all the same, and why the past that
    the as-of query reports does not change. */
module StoreHistory {
  import opened OperationLog
  import opened BatchOrder
  import opened VersionedStore
  import opened BatchWrites
  import opened TrieAgreement
  import opened StoreInvariant
  import opened RollbackUndo
  import opened StoreRuns

  /** The batches stored after a run, told by what each ingest reported. */
  ghost function StoredAfter(h: Hash, actions: seq<Action>): seq<Batch> {
    if actions == [] then []
    else
      var front, a := actions[..|actions| - 1], actions[|actions| - 1];
      match a
      case RollbackTo(c) => KeptBatches(StoredAfter(h, front), c)
      case IngestFile(b) => StoredAfter(h, front) + if Commits(h, front, b) then [b] else []
  }

  /** The file is applied when it arrives after this run. */
  ghost predicate Commits(h: Hash, front: seq<Action>, b: Batch) {
    Ingest(h, Run(h, EMPTY_STORE, front), b).1 == Applied
  }

  /** Runs in which the files that commit come in slot order and meet the tie guard.  Nothing is asked
      of the files that do not, nor of repeated entries. */
  ghost predicate OrderedRun(h: Hash, actions: seq<Action>) {
    actions != [] ==>
      var front, a := actions[..|actions| - 1], actions[|actions| - 1];
      && OrderedRun(h, front)
      && (a.IngestFile? && Commits(h, front, a.b) ==> Admissible(h, Run(h, EMPTY_STORE, front).tables, a.b))
  }

  /** What an ingest does to the tables depends on nothing but its outcome. */
  lemma IngestTables(h: Hash, s: Store, b: Batch)
    ensures Ingest(h, s, b).1 == Applied ==>
              && !TrieFold(h, s.trie, StableSort(b.entries)).failed
              && Ingest(h, s, b).0.tables == WriteBatch(h, s.tables, b, StableSort(b.entries))
    ensures Ingest(h, s, b).1 != Applied ==> Ingest(h, s, b).0.tables == s.tables
  {
  }

  /** A committed batch is pushed on the tables. */
  lemma CommitPushes(h: Hash, t: Tables, hist: seq<Batch>, b: Batch, es: seq<Entry>)
    requires TablesRepresent(h, t, hist) && es == StableSort(b.entries) && Hashable(h, es) && Admissible(h, t, b)
    ensures TablesRepresent(h, WriteBatch(h, t, b, es), hist + [b])
  {
    BatchKeepsInvariant(h, t, b, es);
    PushedLog(h, t, hist, b);
    PushedFiles(h, t, hist, b, es);
  }

  lemma StepKeepsTables(h: Hash, s: Store, hist: seq<Batch>, b: Batch)
    requires TablesRepresent(h, s.tables, hist)
    requires Ingest(h, s, b).1 == Applied ==> Admissible(h, s.tables, b)
    ensures TablesRepresent(h, Ingest(h, s, b).0.tables, if Ingest(h, s, b).1 == Applied then hist + [b] else hist)
  {
    IngestTables(h, s, b);
    if Ingest(h, s, b).1 == Applied {
      CommittedIsHashable(h, s.trie, StableSort(b.entries));
      CommitPushes(h, s.tables, hist, b, StableSort(b.entries));
    }
  }

  /** After every ordered run, failed files included, the tables represent exactly the stored batches. */
  lemma {:induction false} RunKeepsTables(h: Hash, actions: seq<Action>)
    requires OrderedRun(h, actions)
    ensures TablesRepresent(h, Run(h, EMPTY_STORE, actions).tables, StoredAfter(h, actions))
  {
    if actions == [] {
      EmptyTablesSound(h);
    } else {
      var front, a := actions[..|actions| - 1], actions[|actions| - 1];
      RunKeepsTables(h, front);
      var s := Run(h, EMPTY_STORE, front);
      match a
      case RollbackTo(c) => RollbackPops(h, s, StoredAfter(h, front), c);
      case IngestFile(b) =>
        StepKeepsTables(h, s, StoredAfter(h, front), b);
        assert StoredAfter(h, front) + [] == StoredAfter(h, front);
    }
  }

  /** The as-of query answers with the batches at or before its slot, and with nothing else. */
  lemma AsOfIsKeptHistory(h: Hash, t: Tables, hist: seq<Batch>, slot: int)
    requires TablesRepresent(h, t, hist)
    ensures StateMapAtSlot(t, slot) == HistoryLive(h, KeptBatches(hist, slot))
  {
    AsOfIsLive(LogOf(t), slot);
    UpToErased(LogOf(t), slot);
    ReplayErased(map[], UpTo(LogOf(t), slot));
    KeptLog(h, hist, slot);
  }

  /** After every ordered run the three views that live in the tables agree, and so does the trie that
      would be loaded from them; the in-memory trie itself is theirs again after any rollback. */
  lemma TableViewsAgree(h: Hash, actions: seq<Action>, slot: int)
    requires OrderedRun(h, actions) && NotBefore(Run(h, EMPTY_STORE, actions).tables, slot)
    ensures var s := Run(h, EMPTY_STORE, actions);
            && LiveOf(s.tables.keys) == CurrentStateMap(s.tables) == LoadedTrie(s.tables)
            && LiveOf(s.tables.keys) == Live(LogOf(s.tables))
            && LiveOf(s.tables.keys) == StateMapAtSlot(s.tables, slot)
            && LiveOf(s.tables.keys) == HistoryLive(h, StoredAfter(h, actions))
            && (actions != [] && actions[|actions| - 1].RollbackTo? ==> s.trie == LiveOf(s.tables.keys))
  {
    var s := Run(h, EMPTY_STORE, actions);
    RunKeepsTables(h, actions);
    TablesLive(h, s.tables, StoredAfter(h, actions));
    FiltersAgree(h, s.tables);
    ViewsCoincide(h, s.tables, slot);
  }

  // ---- The past ----

  /** The step stores nothing at or before the slot, and rolls back to it or later. */
  ghost predicate SparesSlot(h: Hash, s: Store, a: Action, slot: int) {
    match a
    case IngestFile(b) => Ingest(h, s, b).1 == Applied ==> b.slot > slot
    case RollbackTo(c) => c >= slot
  }

  /** So does every step that follows `actions`: files that commit come at later slots. */
  ghost predicate LeavesAlone(h: Hash, actions: seq<Action>, more: seq<Action>, slot: int) {
    more != [] ==>
      var front := more[..|more| - 1];
      && LeavesAlone(h, actions, front, slot)
      && SparesSlot(h, Run(h, EMPTY_STORE, actions + front), more[|more| - 1], slot)
  }

  /** One step on a store leaves the as-of answer for an older slot alone. */
  lemma StepKeepsPast(h: Hash, s: Store, a: Action, slot: int)
    requires Linked(s.tables) && SparesSlot(h, s, a, slot)
    ensures StateMapAtSlot(Step(h, s, a).tables, slot) == StateMapAtSlot(s.tables, slot)
  {
    var t := s.tables;
    match a
    case RollbackTo(c) =>
      RollbackLog(t, c);
      HistoryIsStable(LogOf(t), [], slot, c);
    case IngestFile(b) =>
      IngestTables(h, s, b);
      if Ingest(h, s, b).1 == Applied {
        BatchKeepsPast(h, t, b, StableSort(b.entries), slot);
      }
  }

  lemma BatchKeepsPast(h: Hash, t: Tables, b: Batch, es: seq<Entry>, slot: int)
    requires Linked(t) && b.slot > slot
    ensures StateMapAtSlot(WriteBatch(h, t, b, es), slot) == StateMapAtSlot(t, slot)
  {
    BatchExtendsLog(h, t, b, es);
    RowsAtItsSlot(h, t, b, es);
    HistoryIsStable(LogOf(t), RowsOfBatch(h, t, b, es), slot, slot);
  }

  lemma RowsAtItsSlot(h: Hash, t: Tables, b: Batch, es: seq<Entry>)
    ensures forall r :: r in RowsOfBatch(h, t, b, es) ==> r.slot == b.slot
  {
    AllocCoversGroups(t.nextTrie, OpAlloc(map[], t.ops, t.nextOp), es);
    RowsFromEntries(h, t.nextTrie, b.slot, AllocBatch(t, es).ids, es);
  }

  lemma {:induction false} RunKeepsPast(h: Hash, actions: seq<Action>, more: seq<Action>, slot: int)
    requires OrderedRun(h, actions + more) && LeavesAlone(h, actions, more, slot)
    ensures StateMapAtSlot(Run(h, EMPTY_STORE, actions + more).tables, slot)
            == StateMapAtSlot(Run(h, EMPTY_STORE, actions).tables, slot)
  {
    if more == [] {
      assert actions + more == actions;
    } else {
      var n := |more| - 1;
      var all := actions + more;
      assert all[..|all| - 1] == actions + more[..n] && all[|all| - 1] == more[n];
      RunKeepsPast(h, actions, more[..n], slot);
      RunKeepsTables(h, actions + more[..n]);
      StepKeepsPast(h, Run(h, EMPTY_STORE, actions + more[..n]), more[n], slot);
    }
  }

  lemma {:induction false} OrderedPrefix(h: Hash, actions: seq<Action>, more: seq<Action>)
    requires OrderedRun(h, actions + more)
    ensures OrderedRun(h, actions)
  {
    if more == [] {
      assert actions + more == actions;
    } else {
      assert (actions + more)[..|actions + more| - 1] == actions + more[..|more| - 1];
      OrderedPrefix(h, actions, more[..|more| - 1]);
    }
  }

  /** History is stable.  Whatever a run does afterwards with files that commit after `slot`, files that
      fail or are stored already, and rollbacks to the slot or later, the as-of answer for it stays what
      it was: the live map just after the last batch at or before the slot, and the live map of the store
      itself as it was at the slot. */
  lemma PastIsStable(h: Hash, actions: seq<Action>, more: seq<Action>, slot: int)
    requires OrderedRun(h, actions + more) && LeavesAlone(h, actions, more, slot)
    ensures var was, later := Run(h, EMPTY_STORE, actions).tables, Run(h, EMPTY_STORE, actions + more).tables;
            && StateMapAtSlot(later, slot) == StateMapAtSlot(was, slot)
            && StateMapAtSlot(later, slot) == HistoryLive(h, KeptBatches(StoredAfter(h, actions), slot))
            && (NotBefore(was, slot) ==> StateMapAtSlot(later, slot) == LiveOf(was.keys))
  {
    var was := Run(h, EMPTY_STORE, actions).tables;
    RunKeepsPast(h, actions, more, slot);
    OrderedPrefix(h, actions, more);
    RunKeepsTables(h, actions);
    AsOfIsKeptHistory(h, was, StoredAfter(h, actions), slot);
    if NotBefore(was, slot) {
      TableViewsAgree(h, actions, slot);
    }
  }

  // ---- Clean runs are ordered ----

  /** A clean run is ordered and stores what its history says. */
  lemma {:induction false} CleanIsOrdered(h: Hash, actions: seq<Action>)
    requires CleanRun(h, actions)
    ensures OrderedRun(h, actions) && StoredAfter(h, actions) == History(h, actions)
  {
    if actions != [] {
      var n := |actions| - 1;
      CleanPrefix(h, actions, n);
      CleanIsOrdered(h, actions[..n]);
      RunRepresentsHistory(h, actions[..n]);
      var s, hist := Run(h, EMPTY_STORE, actions[..n]), History(h, actions[..n]);
      if actions[n].IngestFile? {
        CleanCommit(h, s, hist, actions[n].b);
      }
    }
  }

  lemma CleanCommit(h: Hash, s: Store, hist: seq<Batch>, b: Batch)
    requires Represents(h, s, hist) && CleanStep(h, hist, IngestFile(b))
    ensures Ingest(h, s, b).1 == Applied <==> Accepts(h, hist, b)
    ensures Accepts(h, hist, b) ==> Admissible(h, s.tables, b)
  {
    FilesDecide(s.tables, hist, b);
    RepresentsLive(h, s, hist);
    if Accepts(h, hist, b) {
      MayFollowIsAdmissible(h, s, hist, b);
    }
  }
}
