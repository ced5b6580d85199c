/** Chain events and the store together: which files the store holds after the processor's rollbacks. */
module ChainStore {
  import opened Common
  import opened CursorTable
  import opened BlockAccounting
  import opened VersionedStore
  import Blocks = BlockRuns
  import Laws = EventLaws
  import Runs = StoreRuns

  /** A stored file and the block whose transaction announced it. */
  datatype Held = Held(key: BlockKey, batch: Batch)

  function Batches(held: seq<Held>): seq<Batch> {
    seq(|held|, i requires 0 <= i < |held| => held[i].batch)
  }

  /** Every file carries the slot of its block, and no two files share a CID. */
  ghost predicate Placed(held: seq<Held>) {
    && (forall i :: 0 <= i < |held| ==> held[i].batch.slot == held[i].key.slot)
    && (forall i, j :: 0 <= i < j < |held| ==> held[i].batch.cid != held[j].batch.cid)
  }

  function Only(held: seq<Held>, keep: Held -> bool): seq<Held> {
    if held == [] then []
    else
      var last := held[|held| - 1];
      Only(held[..|held| - 1], keep) + if keep(last) then [last] else []
  }

  lemma {:induction false} OnlyMembers(held: seq<Held>, keep: Held -> bool)
    ensures forall x :: x in Only(held, keep) <==> x in held && keep(x)
  {
    if held != [] {
      OnlyMembers(held[..|held| - 1], keep);
      assert held == held[..|held| - 1] + [held[|held| - 1]];
    }
  }

  lemma BatchesSnoc(held: seq<Held>, x: Held)
    ensures Batches(held + [x]) == Batches(held) + [x.batch]
  {
  }

  /** Cutting the batches at a slot is keeping the files of the right blocks. */
  lemma {:induction false} CutIsOnly(held: seq<Held>, keep: Held -> bool, cutoff: int)
    requires forall i :: 0 <= i < |held| ==> (keep(held[i]) <==> held[i].batch.slot <= cutoff)
    ensures Runs.KeptBatches(Batches(held), cutoff) == Batches(Only(held, keep))
  {
    if held != [] {
      var front, last := held[..|held| - 1], held[|held| - 1];
      assert held == front + [last];
      BatchesSnoc(front, last);
      assert Batches(held)[..|held| - 1] == Batches(front);
      CutIsOnly(front, keep, cutoff);
      if keep(last) {
        BatchesSnoc(Only(front, keep), last);
      }
    }
  }

  /** A file is in the listing of the batches exactly when its row is among the rows, by its CID. */
  lemma RowTellsFile(held: seq<Held>, some: seq<Held>, x: Held)
    requires Placed(held) && x in held && forall y :: y in some ==> y in held
    ensures TrieRowOf(x.batch) in Runs.FileRows(Batches(some)) <==> x in some
  {
    if x in some {
      var i :| 0 <= i < |some| && some[i] == x;
      assert Batches(some)[i] == x.batch && Batches(some)[i] in Batches(some);
    }
    if TrieRowOf(x.batch) in Runs.FileRows(Batches(some)) {
      var b :| b in Batches(some) && TrieRowOf(b) == TrieRowOf(x.batch);
      var i :| 0 <= i < |some| && Batches(some)[i] == b;
      assert some[i] in held && some[i].batch.cid == x.batch.cid;
    }
  }

  /** A store rolled back to a slot holds exactly the files to keep if and only if those are the files
      whose blocks are at or before the slot. */
  lemma RollbackKeepsExactly(h: Hash, s: Store, held: seq<Held>, cutoff: int, keep: Held -> bool)
    requires Runs.Represents(h, s, Batches(held)) && Placed(held)
    ensures Runs.Represents(h, VersionedStore.Rollback(s, cutoff), Batches(Only(held, keep)))
            <==> forall i :: 0 <= i < |held| ==> (keep(held[i]) <==> held[i].key.slot <= cutoff)
  {
    var early := (x: Held) => x.batch.slot <= cutoff;
    Runs.RollbackPops(h, s, Batches(held), cutoff);
    CutIsOnly(held, early, cutoff);
    if forall i :: 0 <= i < |held| ==> (keep(held[i]) <==> held[i].key.slot <= cutoff) {
      CutIsOnly(held, keep, cutoff);
    } else {
      var i :| 0 <= i < |held| && (keep(held[i]) <==> held[i].key.slot > cutoff);
      DifferentFiles(held, keep, early, held[i]);
    }
  }

  lemma DifferentFiles(held: seq<Held>, keep: Held -> bool, early: Held -> bool, x: Held)
    requires Placed(held) && x in held && keep(x) != early(x)
    ensures Runs.FileRows(Batches(Only(held, keep))) != Runs.FileRows(Batches(Only(held, early)))
  {
    OnlyMembers(held, keep);
    OnlyMembers(held, early);
    RowTellsFile(held, Only(held, keep), x);
    RowTellsFile(held, Only(held, early), x);
  }

  // ---- The two rollbacks of the processor ----

  function Surviving(slot: uint64, hash: BlockHash): Held -> bool {
    (x: Held) => Survives(x.key, slot, hash)
  }

  function Below(slot: uint64): Held -> bool {
    (x: Held) => x.key.slot < slot
  }

  /** The files of blocks that survive a rollback. */
  function Retained(held: seq<Held>, slot: uint64, hash: BlockHash): seq<Held> {
    Only(held, Surviving(slot, hash))
  }

  ghost predicate NoForkedFile(held: seq<Held>, slot: uint64, hash: BlockHash) {
    forall i :: 0 <= i < |held| && held[i].key.slot == slot ==> held[i].key.hash == hash
  }

  /** The store rewind of a rollback event leaves the files of the retained chain exactly when no stored
      file belongs to a block at the slot with another hash. */
  lemma StoreRewindIsFaithful(h: Hash, s: Store, held: seq<Held>, slot: uint64, hash: BlockHash)
    requires Runs.Represents(h, s, Batches(held)) && Placed(held)
    ensures Runs.Represents(h, VersionedStore.Rollback(s, slot), Batches(Retained(held, slot, hash)))
            <==> NoForkedFile(held, slot, hash)
  {
    RollbackKeepsExactly(h, s, held, slot, Surviving(slot, hash));
  }

  /** The store rewind of the offline rollback, which goes to the start slot, leaves the files of the
      blocks before the first one exactly when no stored file lies between the two. */
  lemma OfflineStoreRewind(h: Hash, s: Store, held: seq<Held>, p: Processor, k: BlockKey)
    requires Runs.Represents(h, s, Batches(held)) && Placed(held) && Offline(p, k)
    ensures Runs.Represents(h, VersionedStore.Rollback(s, p.startSlot), Batches(Only(held, Below(k.slot))))
            <==> forall i :: 0 <= i < |held| ==> !(k.slot <= held[i].key.slot <= p.startSlot)
  {
    RollbackKeepsExactly(h, s, held, p.startSlot, Below(k.slot));
  }

  /** The same through the block event that finds the offline rollback. */
  lemma OfflineBlockKeeps(h: Hash, s: Store, held: seq<Held>, p: Processor, k: BlockKey, n: uint64, v: Verdict)
    requires Runs.Represents(h, s, Batches(held)) && Placed(held) && p.justStarted && k.slot <= p.startSlot
    ensures Runs.Represents(h, OnStore(s, Step(p, Block(k, n, v)).1.effects), Batches(Only(held, Below(k.slot))))
            <==> forall i :: 0 <= i < |held| ==> !(k.slot <= held[i].key.slot <= p.startSlot)
  {
    Laws.BlockStarted(p, k, n, v);
    var fx, start := Step(p, Block(k, n, v)).1.effects, Opening(p, k);
    OpeningOnStore(s, p.startSlot, start);
    if n == 0 {
      var rest :| fx == start + [CursorPoint(k)] + rest && (rest == [] || rest == [BlockStep(k)]);
      StoreSnoc(s, start, CursorPoint(k));
      if rest != [] {
        StoreSnoc(s, start + [CursorPoint(k)], BlockStep(k));
      } else {
        assert fx == start + [CursorPoint(k)];
      }
    }
    OfflineStoreRewind(h, s, held, p, k);
  }

  lemma OpeningOnStore(s: Store, slot: uint64, start: seq<Effect>)
    requires start == [CursorRewind(slot), StoreRewind(slot)]
    ensures OnStore(s, start) == VersionedStore.Rollback(s, slot)
  {
    assert start == ([] + [start[0]]) + [start[1]];
    StoreSnoc(s, [], start[0]);
    StoreSnoc(s, [] + [start[0]], start[1]);
  }

  // ---- Whole streams ----

  /** An event, and the file that its transaction announces, if it does. */
  datatype Arrival = Arrival(event: Event, file: Option<Batch>)

  function Events(arrivals: seq<Arrival>): seq<Event> {
    seq(|arrivals|, i requires 0 <= i < |arrivals| => arrivals[i].event)
  }

  function OnStore(s: Store, fx: seq<Effect>): Store {
    if fx == [] then s
    else
      var before := OnStore(s, fx[..|fx| - 1]);
      match fx[|fx| - 1]
      case StoreRewind(slot) => VersionedStore.Rollback(before, slot)
      case _ => before
  }

  /** One arrival: the file is ingested while the transaction is processed, then the accounting acts. */
  ghost function Arrive(h: Hash, s: Store, p: Processor, a: Arrival): Store {
    var fed := if a.event.Tx? && a.file.Some? && !p.failed then Ingest(h, s, a.file.value).0 else s;
    OnStore(fed, Step(p, a.event).1.effects)
  }

  ghost function StoreAfter(h: Hash, s: Store, p: Processor, arrivals: seq<Arrival>): Store {
    if arrivals == [] then s
    else
      var front := arrivals[..|arrivals| - 1];
      Arrive(h, StoreAfter(h, s, p, front), Blocks.After(p, Events(front)), arrivals[|arrivals| - 1])
  }

  /** The file is new and commits, or it is stored already. */
  ghost predicate FileArrives(h: Hash, held: seq<Held>, a: Arrival) {
    a.file.Some? ==>
      var b := a.file.value;
      && a.event.Tx? && b.slot == a.event.key.slot && Runs.WellFormedBatch(b)
      && (if exists i :: 0 <= i < |held| && held[i].batch.cid == b.cid then true
          else Runs.Accepts(h, Batches(held), b) && Runs.MayFollow(h, Batches(held), b))
  }

  /** The files of the chain after an arrival. */
  ghost function HeldStep(h: Hash, held: seq<Held>, a: Arrival): seq<Held> {
    match a.event
    case Rollback(slot, hash) => Retained(held, slot, hash)
    case Tx(k, _, _) =>
      if a.file.Some? && Runs.Accepts(h, Batches(held), a.file.value) then held + [Held(k, a.file.value)] else held
    case _ => held
  }

  ghost function HeldAfter(h: Hash, held: seq<Held>, arrivals: seq<Arrival>): seq<Held> {
    if arrivals == [] then held
    else HeldStep(h, HeldAfter(h, held, arrivals[..|arrivals| - 1]), arrivals[|arrivals| - 1])
  }

  /** Files arrive as they should, and no rollback names a point beside the block of a stored file. */
  ghost predicate GoodArrivals(h: Hash, held: seq<Held>, arrivals: seq<Arrival>) {
    arrivals != [] ==>
      var front, a := arrivals[..|arrivals| - 1], arrivals[|arrivals| - 1];
      var now := HeldAfter(h, held, front);
      && GoodArrivals(h, held, front) && FileArrives(h, now, a)
      && (a.event.Rollback? ==> NoForkedFile(now, a.event.slot, a.event.hash))
  }

  predicate OnChain(k: BlockKey, c: Chain) {
    k in c.complete || (c.open.Some? && k == c.open.value.key)
  }

  ghost predicate AllOnChain(held: seq<Held>, c: Chain) {
    forall i :: 0 <= i < |held| ==> OnChain(held[i].key, c)
  }

  /** The store holds exactly these files, all of blocks on the chain. */
  ghost predicate Holds(h: Hash, s: Store, held: seq<Held>, c: Chain) {
    Runs.Represents(h, s, Batches(held)) && Placed(held) && AllOnChain(held, c)
  }

  lemma {:induction false} NothingCut(hist: seq<Batch>, cutoff: int)
    requires forall b :: b in hist ==> b.slot <= cutoff
    ensures Runs.KeptBatches(hist, cutoff) == hist
  {
    if hist != [] {
      assert hist[|hist| - 1] in hist;
      NothingCut(hist[..|hist| - 1], cutoff);
    }
  }

  /** The offline rollback of a block that follows the chain cuts nothing. */
  lemma OpeningCutsNothing(h: Hash, s: Store, held: seq<Held>, c: Chain, p: Processor, k: BlockKey)
    requires Holds(h, s, held, c) && Extends(c, k) && c.open.None? && Offline(p, k)
    ensures Runs.Represents(h, VersionedStore.Rollback(s, p.startSlot), Batches(held))
  {
    forall b | b in Batches(held)
      ensures b.slot <= p.startSlot
    {
      var i :| 0 <= i < |held| && Batches(held)[i] == b;
      var j :| 0 <= j < |c.complete| && c.complete[j] == held[i].key;
    }
    NothingCut(Batches(held), p.startSlot);
    Runs.RollbackPops(h, s, Batches(held), p.startSlot);
  }

  /** Only the rewinds among the effects touch the store. */
  lemma StoreEffects(s: Store, opening: seq<Effect>, expected: seq<Effect>)
    requires opening == [] || (|opening| == 2 && opening[0].CursorRewind? && opening[1].StoreRewind?)
    requires expected == [] || |expected| == 2
    requires expected != [] ==> !expected[0].StoreRewind?
    ensures var mid := if opening == [] then s else VersionedStore.Rollback(s, opening[1].slot);
            OnStore(s, opening + expected) ==
            if expected == [] || !expected[1].StoreRewind? then mid else VersionedStore.Rollback(mid, expected[1].slot)
  {
    if opening != [] {
      assert opening == ([] + [opening[0]]) + [opening[1]];
      StoreSnoc(s, [], opening[0]);
      StoreSnoc(s, [opening[0]], opening[1]);
    }
    if expected != [] {
      assert opening + expected == (opening + [expected[0]]) + [expected[1]];
      StoreSnoc(s, opening, expected[0]);
      StoreSnoc(s, opening + [expected[0]], expected[1]);
    } else {
      assert opening + expected == opening;
    }
  }

  lemma StoreSnoc(s: Store, fx: seq<Effect>, x: Effect)
    ensures OnStore(s, fx + [x]) ==
            if x.StoreRewind? then VersionedStore.Rollback(OnStore(s, fx), x.slot) else OnStore(s, fx)
  {
    assert (fx + [x])[..|fx|] == fx;
  }

  lemma AcceptedIsNew(h: Hash, held: seq<Held>, b: Batch)
    requires Runs.Accepts(h, Batches(held), b)
    ensures forall i :: 0 <= i < |held| ==> held[i].batch.cid != b.cid
  {
    forall i | 0 <= i < |held|
      ensures held[i].batch.cid != b.cid
    {
      assert Batches(held)[i] in Batches(held);
    }
  }

  lemma PlacedSnoc(held: seq<Held>, x: Held)
    requires Placed(held) && x.batch.slot == x.key.slot
    requires forall i :: 0 <= i < |held| ==> held[i].batch.cid != x.batch.cid
    ensures Placed(held + [x])
  {
  }

  /** A file that is stored changes nothing. */
  lemma StoredFileIsIdle(h: Hash, s: Store, held: seq<Held>, b: Batch, i: nat)
    requires Runs.Represents(h, s, Batches(held)) && Runs.WellFormedBatch(b)
    requires i < |held| && held[i].batch.cid == b.cid
    ensures Ingest(h, s, b).0 == s
  {
    assert Batches(held)[i] in Batches(held);
    Runs.CidInHistory(s.tables, Batches(held), b.cid);
  }

  /** Feeding the file of a transaction adds it to what the store holds. */
  lemma FileIsHeld(h: Hash, s: Store, held: seq<Held>, a: Arrival)
    requires Runs.Represents(h, s, Batches(held)) && Placed(held) && FileArrives(h, held, a)
    requires a.event.Tx? && a.file.Some?
    ensures Runs.Represents(h, Ingest(h, s, a.file.value).0, Batches(HeldStep(h, held, a)))
    ensures Placed(HeldStep(h, held, a))
  {
    var b := a.file.value;
    if Runs.Accepts(h, Batches(held), b) {
      AcceptedIsNew(h, held, b);
      Runs.IngestPushes(h, s, Batches(held), b);
      BatchesSnoc(held, Held(a.event.key, b));
      PlacedSnoc(held, Held(a.event.key, b));
    } else {
      var i :| 0 <= i < |held| && held[i].batch.cid == b.cid;
      StoredFileIsIdle(h, s, held, b, i);
    }
  }

  /** A file that arrives as it should is never an error: the store reports it as stored if it is one of
      the held files and applies it otherwise. */
  lemma ArrivalIsAnswered(h: Hash, s: Store, held: seq<Held>, a: Arrival)
    requires Runs.Represents(h, s, Batches(held)) && FileArrives(h, held, a) && a.file.Some?
    ensures Ingest(h, s, a.file.value).1 ==
              if exists i :: 0 <= i < |held| && held[i].batch.cid == a.file.value.cid then AlreadyStored else Applied
  {
    var b := a.file.value;
    Runs.IngestAnswers(h, s, b);
    if i :| 0 <= i < |held| && held[i].batch.cid == b.cid {
      assert Batches(held)[i] in Batches(held);
      var id := Runs.FileStored(s.tables, Batches(held), held[i].batch);
    } else {
      Runs.IngestPushes(h, s, Batches(held), b);
    }
  }

  /** A failed processor ingests no file and rewinds no store, unless a block event finds the offline
      rollback. */
  lemma FailedLeavesStore(h: Hash, s: Store, p: Processor, a: Arrival)
    requires p.failed && (a.event.Block? ==> !(p.justStarted && a.event.key.slot <= p.startSlot))
    ensures Arrive(h, s, p, a) == s
  {
    Laws.EffectsOfEvent(p, a.event);
    PointsLeaveStore(s, Step(p, a.event).1.effects);
  }

  lemma {:induction false} PointsLeaveStore(s: Store, fx: seq<Effect>)
    requires forall i :: 0 <= i < |fx| ==> !fx[i].StoreRewind?
    ensures OnStore(s, fx) == s
  {
    if fx != [] {
      PointsLeaveStore(s, fx[..|fx| - 1]);
    }
  }

  /** The store after a transaction: only the ingest touches it. */
  lemma TxStore(h: Hash, s: Store, c: Chain, p: Processor, a: Arrival)
    requires a.event.Tx? && Tracks(p, c) && Fits(c, a.event) && Succeeds(c, a.event)
    ensures Arrive(h, s, p, a) == if a.file.Some? then Ingest(h, s, a.file.value).0 else s
  {
    StepIsExact(p, c, a.event);
    StoreEffects(if a.file.Some? then Ingest(h, s, a.file.value).0 else s, [], Expected(c, a.event));
    assert [] + Expected(c, a.event) == Expected(c, a.event);
  }

  lemma TxHolds(h: Hash, s: Store, held: seq<Held>, c: Chain, p: Processor, a: Arrival)
    requires Holds(h, s, held, c) && FileArrives(h, held, a) && a.event.Tx?
    requires Tracks(p, c) && Fits(c, a.event) && Succeeds(c, a.event)
    ensures Holds(h, Arrive(h, s, p, a), HeldStep(h, held, a), Advance(c, a.event))
  {
    TxStore(h, s, c, p, a);
    KeysStay(held, c, a.event);
    if a.file.Some? {
      FileIsHeld(h, s, held, a);
    }
  }

  /** Keys on the chain stay on it until a rollback, and a transaction's block is on it. */
  lemma KeysStay(held: seq<Held>, c: Chain, e: Event)
    requires Fits(c, e) && !e.Rollback? && AllOnChain(held, c)
    ensures AllOnChain(held, Advance(c, e)) && (e.Tx? ==> OnChain(e.key, Advance(c, e)))
  {
    forall k
      ensures OnChain(k, c) ==> OnChain(k, Advance(c, e))
    {
    }
  }

  lemma RollbackHolds(h: Hash, s: Store, held: seq<Held>, c: Chain, p: Processor, slot: uint64, hash: BlockHash)
    requires Holds(h, s, held, c) && NoForkedFile(held, slot, hash) && Tracks(p, c)
    ensures Holds(h, OnStore(s, Step(p, Rollback(slot, hash)).1.effects), Retained(held, slot, hash),
                  Advance(c, Rollback(slot, hash)))
  {
    var e := Event.Rollback(slot, hash);
    StoreEffects(s, [], Expected(c, e));
    assert [] + Expected(c, e) == Expected(c, e);
    StoreRewindIsFaithful(h, s, held, slot, hash);
    SurvivorsKeepOrder(c.complete, slot, hash);
    OnlyMembers(held, Surviving(slot, hash));
    OnlyPlaced(held, Surviving(slot, hash));
    var kept := Retained(held, slot, hash);
    forall i | 0 <= i < |kept|
      ensures OnChain(kept[i].key, Advance(c, e))
    {
      assert kept[i] in kept;
      var j :| 0 <= j < |held| && held[j] == kept[i];
    }
  }

  lemma {:induction false} OnlyPlaced(held: seq<Held>, keep: Held -> bool)
    requires Placed(held)
    ensures Placed(Only(held, keep))
  {
    if held != [] {
      var front, last := held[..|held| - 1], held[|held| - 1];
      OnlyPlaced(front, keep);
      OnlyMembers(front, keep);
      var some := Only(front, keep);
      forall i | 0 <= i < |some|
        ensures some[i].batch.cid != last.batch.cid
      {
        assert some[i] in front;
      }
    }
  }

  lemma BlockHolds(h: Hash, s: Store, held: seq<Held>, c: Chain, p: Processor, a: Arrival)
    requires Holds(h, s, held, c) && FileArrives(h, held, a) && (a.event.Block? || a.event.Status?)
    requires Tracks(p, c) && Fits(c, a.event) && Succeeds(c, a.event)
    ensures Holds(h, Arrive(h, s, p, a), HeldStep(h, held, a), Advance(c, a.event))
  {
    var e := a.event;
    StepIsExact(p, c, e);
    StoreEffects(s, OpeningOf(p, e), Expected(c, e));
    if OpeningOf(p, e) != [] {
      OpeningCutsNothing(h, s, held, c, p, e.key);
    }
    KeysStay(held, c, e);
  }

  lemma EventsSnoc(arrivals: seq<Arrival>)
    requires arrivals != []
    ensures var n := |arrivals| - 1;
            Events(arrivals)[..n] == Events(arrivals[..n]) && Events(arrivals)[n] == arrivals[n].event
  {
  }

  /** Over any good stream with its files, the store holds exactly the files of the retained chain: those
      that arrived with blocks that no rollback removed. */
  lemma {:induction false} StoreHoldsRetainedChain(
      h: Hash, s: Store, held: seq<Held>, p: Processor, c: Chain, arrivals: seq<Arrival>)
    requires Holds(h, s, held, c) && Tracks(p, c)
    requires Blocks.GoodStream(c, Events(arrivals)) && GoodArrivals(h, held, arrivals)
    ensures Holds(h, StoreAfter(h, s, p, arrivals), HeldAfter(h, held, arrivals),
                  Blocks.ChainAfter(c, Events(arrivals)))
  {
    if arrivals != [] {
      var front, a := arrivals[..|arrivals| - 1], arrivals[|arrivals| - 1];
      EventsSnoc(arrivals);
      StoreHoldsRetainedChain(h, s, held, p, c, front);
      Blocks.RunTracks(p, c, Events(front));
      var now, q, d := HeldAfter(h, held, front), Blocks.After(p, Events(front)), Blocks.ChainAfter(c, Events(front));
      match a.event
      case Tx(_, _, _) => TxHolds(h, StoreAfter(h, s, p, front), now, d, q, a);
      case Rollback(slot, hash) => RollbackHolds(h, StoreAfter(h, s, p, front), now, d, q, slot, hash);
      case _ => BlockHolds(h, StoreAfter(h, s, p, front), now, d, q, a);
    }
  }
}
