/** A restart that rewinds the cursor but not the store: the store runs ahead of the chain, and is level
    with it again once the stream has replayed the stored files or rolled back. */
module RestartReplay {
  import opened Common
  import opened CursorTable
  import opened BlockAccounting
  import opened VersionedStore
  import opened ChainStore
  import Blocks = BlockRuns
  import Runs = StoreRuns

  /** A block beyond everything received so far. */
  ghost predicate Ahead(k: BlockKey, c: Chain) {
    Extends(c, k)
  }

  /** The store holds exactly these files, each of a block on the chain or ahead of it. */
  ghost predicate RunsAhead(h: Hash, s: Store, held: seq<Held>, c: Chain) {
    && Runs.Represents(h, s, Batches(held)) && Placed(held)
    && forall i :: 0 <= i < |held| ==> OnChain(held[i].key, c) || Ahead(held[i].key, c)
  }

  /** After a restart: a beginning of the complete blocks is left of the chain, and all the files. */
  lemma RestartRunsAhead(h: Hash, s: Store, held: seq<Held>, c: Chain, n: nat)
    requires Holds(h, s, held, c) && WellFormed(c) && n <= |c.complete|
    ensures RunsAhead(h, s, held, Chain(c.complete[..n], None))
  {
    var d := Chain(c.complete[..n], None);
    forall i | 0 <= i < |held|
      ensures OnChain(held[i].key, d) || Ahead(held[i].key, d)
    {
      var k := held[i].key;
      if k in c.complete {
        var j :| 0 <= j < |c.complete| && c.complete[j] == k;
        if j < n {
          assert d.complete[j] == k;
        } else {
          assert forall x :: 0 <= x < n ==> d.complete[x] == c.complete[x];
        }
      } else {
        assert forall x :: 0 <= x < n ==> d.complete[x] == c.complete[x];
      }
    }
  }

  /** No block is completed at or past the slot of a file ahead, except the file's own block: the stream
      replays the chain that the files came from. */
  ghost predicate Replays(held: seq<Held>, c: Chain, e: Event) {
    Completes(c, e).Some? ==>
      forall i :: 0 <= i < |held| && Ahead(held[i].key, c) && held[i].key.slot <= Completes(c, e).value.slot ==>
        held[i].key == Completes(c, e).value
  }

  function AtMost(slot: uint64): Held -> bool {
    (x: Held) => x.key.slot <= slot
  }

  /** The files after an arrival, where the offline rollback may cut files ahead. */
  ghost function AheadStep(h: Hash, held: seq<Held>, p: Processor, a: Arrival): seq<Held> {
    if a.event.Block? && Offline(p, a.event.key) then Only(held, AtMost(p.startSlot)) else HeldStep(h, held, a)
  }

  ghost function AheadAfter(h: Hash, held: seq<Held>, p: Processor, arrivals: seq<Arrival>): seq<Held> {
    if arrivals == [] then held
    else
      var front := arrivals[..|arrivals| - 1];
      AheadStep(h, AheadAfter(h, held, p, front), Blocks.After(p, Events(front)), arrivals[|arrivals| - 1])
  }

  /** Files arrive as they should, blocks are replayed, and no rollback names a point beside the block of
      a stored file. */
  ghost predicate GoodReplay(h: Hash, held: seq<Held>, p: Processor, c: Chain, arrivals: seq<Arrival>) {
    arrivals != [] ==>
      var front, a := arrivals[..|arrivals| - 1], arrivals[|arrivals| - 1];
      var now := AheadAfter(h, held, p, front);
      && GoodReplay(h, held, p, c, front) && FileArrives(h, now, a)
      && Replays(now, Blocks.ChainAfter(c, Events(front)), a.event)
      && (a.event.Rollback? ==> NoForkedFile(now, a.event.slot, a.event.hash))
  }

  /** One key: on the chain it stays, ahead of it it stays or its block is reached. */
  lemma KeyKeepsUp(c: Chain, e: Event, k: BlockKey)
    requires Fits(c, e) && !e.Rollback? && (OnChain(k, c) || Ahead(k, c))
    requires Completes(c, e).Some? && Ahead(k, c) && k.slot <= Completes(c, e).value.slot ==>
               k == Completes(c, e).value
    ensures OnChain(k, Advance(c, e)) || Ahead(k, Advance(c, e))
    ensures e.Tx? ==> OnChain(e.key, Advance(c, e))
  {
    var d := Advance(c, e);
    if Completes(c, e).Some? {
      var done := Completes(c, e).value;
      assert d.complete == c.complete + [done];
      assert d.complete[|c.complete|] == done;
      assert forall i :: 0 <= i < |c.complete| ==> d.complete[i] == c.complete[i];
    } else {
      assert d.complete == c.complete;
    }
  }

  lemma KeysKeepUp(held: seq<Held>, c: Chain, e: Event)
    requires Fits(c, e) && !e.Rollback? && Replays(held, c, e)
    requires forall i :: 0 <= i < |held| ==> OnChain(held[i].key, c) || Ahead(held[i].key, c)
    ensures forall i :: 0 <= i < |held| ==> OnChain(held[i].key, Advance(c, e)) || Ahead(held[i].key, Advance(c, e))
  {
    forall i | 0 <= i < |held|
      ensures OnChain(held[i].key, Advance(c, e)) || Ahead(held[i].key, Advance(c, e))
    {
      KeyKeepsUp(c, e, held[i].key);
    }
  }

  lemma TxKeepsUp(h: Hash, s: Store, held: seq<Held>, c: Chain, p: Processor, a: Arrival)
    requires RunsAhead(h, s, held, c) && FileArrives(h, held, a) && a.event.Tx? && Replays(held, c, a.event)
    requires Tracks(p, c) && Fits(c, a.event) && Succeeds(c, a.event)
    ensures RunsAhead(h, Arrive(h, s, p, a), HeldStep(h, held, a), Advance(c, a.event))
  {
    TxStore(h, s, c, p, a);
    KeysKeepUp(held, c, a.event);
    KeysStay([], c, a.event);
    if a.file.Some? {
      FileIsHeld(h, s, held, a);
    }
  }

  /** Cutting the files to some of them keeps each on the chain or ahead of it. */
  lemma OnlyKeepsUp(held: seq<Held>, keep: Held -> bool, c: Chain)
    requires Placed(held) && forall i :: 0 <= i < |held| ==> OnChain(held[i].key, c) || Ahead(held[i].key, c)
    ensures Placed(Only(held, keep))
    ensures forall i :: 0 <= i < |Only(held, keep)| ==>
              OnChain(Only(held, keep)[i].key, c) || Ahead(Only(held, keep)[i].key, c)
  {
    OnlyPlaced(held, keep);
    OnlyMembers(held, keep);
    var some := Only(held, keep);
    forall i | 0 <= i < |some|
      ensures OnChain(some[i].key, c) || Ahead(some[i].key, c)
    {
      assert some[i] in some;
      var j :| 0 <= j < |held| && held[j] == some[i];
    }
  }

  lemma BlockKeepsUp(h: Hash, s: Store, held: seq<Held>, c: Chain, p: Processor, a: Arrival)
    requires RunsAhead(h, s, held, c) && FileArrives(h, held, a) && (a.event.Block? || a.event.Status?)
    requires Replays(held, c, a.event) && Tracks(p, c) && Fits(c, a.event) && Succeeds(c, a.event)
    ensures RunsAhead(h, Arrive(h, s, p, a), AheadStep(h, held, p, a), Advance(c, a.event))
  {
    var e := a.event;
    StepIsExact(p, c, e);
    StoreEffects(s, OpeningOf(p, e), Expected(c, e));
    KeysKeepUp(held, c, e);
    if OpeningOf(p, e) != [] {
      RollbackKeepsExactly(h, s, held, p.startSlot, AtMost(p.startSlot));
      OnlyKeepsUp(held, AtMost(p.startSlot), Advance(c, e));
    }
  }

  lemma RollbackKeepsUp(h: Hash, s: Store, held: seq<Held>, c: Chain, p: Processor, slot: uint64, hash: BlockHash)
    requires RunsAhead(h, s, held, c) && NoForkedFile(held, slot, hash) && Tracks(p, c)
    ensures RunsAhead(h, OnStore(s, Step(p, Rollback(slot, hash)).1.effects), Retained(held, slot, hash),
                      Advance(c, Rollback(slot, hash)))
  {
    RollbackStore(s, p, c, slot, hash);
    StoreRewindIsFaithful(h, s, held, slot, hash);
    SurvivorsKeepOrder(c.complete, slot, hash);
    OnlyKeepsUp(held, Surviving(slot, hash), c);
    OnlyMembers(held, Surviving(slot, hash));
    var d, kept := Advance(c, Rollback(slot, hash)), Retained(held, slot, hash);
    forall i | 0 <= i < |kept|
      ensures OnChain(kept[i].key, d) || Ahead(kept[i].key, d)
    {
      assert kept[i] in kept;
      assert forall j :: 0 <= j < |d.complete| ==> d.complete[j] == c.complete[j];
    }
  }

  lemma RollbackStore(s: Store, p: Processor, c: Chain, slot: uint64, hash: BlockHash)
    requires Tracks(p, c)
    ensures OnStore(s, Step(p, Rollback(slot, hash)).1.effects) == VersionedStore.Rollback(s, slot)
  {
    var fx := [CursorRewind(slot), StoreRewind(slot)];
    StoreEffects(s, [], fx);
    assert [] + fx == fx;
  }

  /** Over any good stream that replays the chain, the store holds exactly its files, each of a block on
      the chain or still ahead of it. */
  lemma {:induction false} ReplayKeepsUp(
      h: Hash, s: Store, held: seq<Held>, p: Processor, c: Chain, arrivals: seq<Arrival>)
    requires RunsAhead(h, s, held, c) && Tracks(p, c)
    requires Blocks.GoodStream(c, Events(arrivals)) && GoodReplay(h, held, p, c, arrivals)
    ensures RunsAhead(h, StoreAfter(h, s, p, arrivals), AheadAfter(h, held, p, arrivals),
                      Blocks.ChainAfter(c, Events(arrivals)))
  {
    if arrivals != [] {
      var front, a := arrivals[..|arrivals| - 1], arrivals[|arrivals| - 1];
      EventsSnoc(arrivals);
      ReplayKeepsUp(h, s, held, p, c, front);
      Blocks.RunTracks(p, c, Events(front));
      var now, q := AheadAfter(h, held, p, front), Blocks.After(p, Events(front));
      var d, t := Blocks.ChainAfter(c, Events(front)), StoreAfter(h, s, p, front);
      match a.event
      case Tx(_, _, _) => TxKeepsUp(h, t, now, d, q, a);
      case Rollback(slot, hash) => RollbackKeepsUp(h, t, now, d, q, slot, hash);
      case _ => BlockKeepsUp(h, t, now, d, q, a);
    }
  }

  /** No file is past the newest complete block, save of the block being received. */
  ghost predicate Level(held: seq<Held>, c: Chain) {
    forall i :: 0 <= i < |held| ==>
      || (c.open.Some? && held[i].key == c.open.value.key)
      || (c.complete != [] && held[i].key.slot <= c.complete[|c.complete| - 1].slot)
  }

  /** A store that ran ahead holds exactly the files of the chain again if and only if it is level. */
  lemma LevelIsCaughtUp(h: Hash, s: Store, held: seq<Held>, c: Chain)
    requires RunsAhead(h, s, held, c) && WellFormed(c)
    ensures Holds(h, s, held, c) <==> Level(held, c)
  {
    forall i | 0 <= i < |held|
      ensures OnChain(held[i].key, c) <==>
                || (c.open.Some? && held[i].key == c.open.value.key)
                || (c.complete != [] && held[i].key.slot <= c.complete[|c.complete| - 1].slot)
    {
      KeyLevel(held[i].key, c);
    }
  }

  lemma KeyLevel(k: BlockKey, c: Chain)
    requires WellFormed(c) && (OnChain(k, c) || Ahead(k, c))
    ensures OnChain(k, c) <==>
              || (c.open.Some? && k == c.open.value.key)
              || (c.complete != [] && k.slot <= c.complete[|c.complete| - 1].slot)
  {
    if k in c.complete {
      var i :| 0 <= i < |c.complete| && c.complete[i] == k;
      assert i < |c.complete| - 1 ==> c.complete[i].slot < c.complete[|c.complete| - 1].slot;
    }
  }

  /** A restart and what follows: from a store that held the files of the chain, with the cursor and the
      processor set back to an earlier block, any good stream that replays the chain leaves a store that
      holds exactly the files of the retained chain if and only if it is level with it. */
  lemma RestartCatchesUp(h: Hash, s: Store, held: seq<Held>, c: Chain, n: nat, start: Position, arrivals: seq<Arrival>)
    requires Holds(h, s, held, c) && WellFormed(c) && n <= |c.complete|
    requires var d, p := Chain(c.complete[..n], None), Fresh(start);
             Blocks.GoodStream(d, Events(arrivals)) && GoodReplay(h, held, p, d, arrivals)
    ensures var d, p := Chain(c.complete[..n], None), Fresh(start);
            var files, chain := AheadAfter(h, held, p, arrivals), Blocks.ChainAfter(d, Events(arrivals));
            && RunsAhead(h, StoreAfter(h, s, p, arrivals), files, chain)
            && (Holds(h, StoreAfter(h, s, p, arrivals), files, chain) <==> Level(files, chain))
  {
    var d, p := Chain(c.complete[..n], None), Fresh(start);
    RestartRunsAhead(h, s, held, c, n);
    assert forall x :: 0 <= x < n ==> d.complete[x] == c.complete[x];
    assert Tracks(p, d);
    ReplayKeepsUp(h, s, held, p, d, arrivals);
    Blocks.RunTracks(p, d, Events(arrivals));
    LevelIsCaughtUp(h, StoreAfter(h, s, p, arrivals), AheadAfter(h, held, p, arrivals),
                    Blocks.ChainAfter(d, Events(arrivals)));
  }
}
