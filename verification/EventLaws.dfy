/** What one event does to the processor, field by field: when it fails, what becomes of the two maps,
    the start slot and the progress bar, and what is skipped. */
module EventLaws {
  import opened Common
  import opened CursorTable
  import opened BlockAccounting
  import opened BlockRuns

  /** The event is the last one of its block: a block without transactions, or a transaction that brings
      the count down. */
  predicate Ends(p: Processor, e: Event) {
    match e
    case Block(_, n, _) => n == 0
    case Tx(k, ok, _) => !p.failed && ok && k in p.counts && p.counts[k] <= 1
    case _ => false
  }

  // ---- Failing ----

  lemma FinishFails(p: Processor, k: BlockKey, v: Verdict)
    ensures Finish(p, k, v).0.failed <==>
              p.failed || (k !in p.processed && (v == Broken || v == Agreed(false)))
    ensures !p.failed && Finish(p, k, v).0.failed ==> Finish(p, k, v).0.lastIndexed == p.lastIndexed
  {
  }

  /** A processor that has not failed fails exactly at a transaction that errs or whose block is not
      counted, or at the end of a block, not processed before, whose work at the tip breaks.  The
      position to restart from then stays where it was. */
  lemma FailsExactlyAt(p: Processor, e: Event)
    requires !p.failed
    ensures Step(p, e).0.failed <==>
              || (e.Tx? && (!e.ok || e.key !in p.counts))
              || (Ends(p, e) && e.key !in p.processed && (e.verdict == Broken || e.verdict == Agreed(false)))
    ensures Step(p, e).0.failed ==> Step(p, e).0.lastIndexed == p.lastIndexed
  {
    match e
    case Block(k, n, v) =>
      if n == 0 {
        FinishFails(p.(counts := p.counts[k := n] - {k}, justStarted := false,
                       startSlot := if Offline(p, k) then k.slot else p.startSlot), k, v);
      }
    case Tx(k, ok, v) =>
      FinishFails(p.(counts := p.counts - {k}), k, v);
    case Rollback(_, _) =>
    case Status(_, _, _) =>
  }

  /** From the failing event on, whatever else arrives, transactions and rollbacks do nothing. */
  lemma FailureStopsForGood(p: Processor, e: Event, more: seq<Event>, next: Event)
    requires !p.failed && Step(p, e).0.failed
    ensures var q := After(Step(p, e).0, more);
            q.failed && (next.Tx? || next.Rollback? ==> Step(q, next) == (q, Output([], None)))
  {
    FailureLasts(Step(p, e).0, more);
    FailureStopsAllButBlocks(After(Step(p, e).0, more), next);
  }

  /** The end of a block already processed adds its cursor point and nothing else: no step, no restart
      request, no collection, no failure, whatever the work at the tip would have done. */
  lemma ProcessedBlockIsSkipped(p: Processor, e: Event)
    requires !p.failed && Ends(p, e) && e.key in p.processed
    ensures var (q, out) := Step(p, e);
            && out.effects == OpeningOf(p, e) + [CursorPoint(e.key)] && out.restart.None?
            && !q.failed && q.processed == p.processed && q.mismatches == p.mismatches
            && q.counts == p.counts - {e.key}
            && q.lastIndexed == Position(e.key.slot, e.key.hash)
  {
    match e
    case Block(k, n, v) => assert p.counts[k := n] - {k} == p.counts - {k};
    case Tx(_, _, _) =>
    case _ =>
  }

  // ---- The two maps ----

  /** The entry is not collected by work at the tip in this slot: within the finality window, or, below
      its length, past the wrapped cutoff. */
  predicate Within(x: BlockKey, slot: uint64) {
    if slot >= 129600 then x.slot + 129600 >= slot else x.slot + 129600 >= slot + TWO_64
  }

  /** Work at the tip runs for this event. */
  predicate Collects(p: Processor, e: Event) {
    Ends(p, e) && e.key !in p.processed && e.verdict != Syncing
  }

  lemma CutoffIsWindow(x: BlockKey, slot: uint64)
    ensures x.slot >= Cutoff(slot) <==> Within(x, slot)
  {
  }

  lemma CollectedExactly(p: Processor, slot: uint64)
    ensures var g := CollectOld(p, Cutoff(slot));
            && (forall x :: x in g.processed <==> x in p.processed && Within(x, slot))
            && (forall x :: x in g.counts <==> x in p.counts && Within(x, slot))
            && (forall x :: x in g.counts ==> g.counts[x] == p.counts[x])
  {
    forall x: BlockKey
      ensures x.slot >= Cutoff(slot) <==> Within(x, slot)
    {
      CutoffIsWindow(x, slot);
    }
  }

  /** Beyond a rollback's slot, or beside its point. */
  predicate Undone(x: BlockKey, slot: uint64, hash: BlockHash) {
    x.slot > slot || (x.slot == slot && x.hash != hash)
  }

  lemma FinishMaps(p: Processor, k: BlockKey, v: Verdict)
    ensures var q, collects := Finish(p, k, v).0, k !in p.processed && v != Syncing;
            && (forall x :: x in q.processed <==> (x in p.processed || x == k) && (collects ==> Within(x, k.slot)))
            && (forall x :: x in q.counts <==> x in p.counts && (collects ==> Within(x, k.slot)))
            && (forall x :: x in q.counts ==> q.counts[x] == p.counts[x])
  {
    CollectedExactly(p.(processed := p.processed + {k}), k.slot);
  }

  /** The processed blocks after an event: the ended one joins; work at the tip drops what is outside the
      window; a rollback drops exactly what is beyond its slot or beside its point. */
  lemma ProcessedAfter(p: Processor, e: Event, x: BlockKey)
    ensures x in Step(p, e).0.processed <==>
              if e.Rollback? then x in p.processed && (p.failed || !Undone(x, e.slot, e.hash))
              else
                && (x in p.processed || (Ends(p, e) && x == e.key))
                && (Collects(p, e) ==> Within(x, e.key.slot))
  {
    match e
    case Block(k, n, v) =>
      if n == 0 {
        FinishMaps(p.(counts := p.counts[k := n] - {k}, justStarted := false,
                      startSlot := if Offline(p, k) then k.slot else p.startSlot), k, v);
      }
    case Tx(k, ok, v) =>
      FinishMaps(p.(counts := p.counts - {k}), k, v);
    case Rollback(_, _) =>
    case Status(_, _, _) =>
  }

  /** What the event itself says about the count of a block, before collection. */
  function Counted(p: Processor, e: Event, x: BlockKey): Option<uint64> {
    match e
    case Block(k, n, _) =>
      if x == k then if n == 0 then None else Some(n) else Lookup(p.counts, x)
    case Tx(k, ok, _) =>
      if x != k || p.failed || !ok || k !in p.counts then Lookup(p.counts, x)
      else if p.counts[k] <= 1 then None else Some(p.counts[k] - 1)
    case Rollback(slot, hash) => if !p.failed && Undone(x, slot, hash) then None else Lookup(p.counts, x)
    case Status(_, _, _) => Lookup(p.counts, x)
  }

  /** The transaction counts after an event: set by a block, taken down by a transaction, gone at the end
      of a block and past a rollback; work at the tip drops what is outside the window. */
  lemma CountsAfter(p: Processor, e: Event, x: BlockKey)
    ensures Lookup(Step(p, e).0.counts, x) ==
            if Collects(p, e) && !Within(x, e.key.slot) then None else Counted(p, e, x)
  {
    match e
    case Block(k, n, v) =>
      if n == 0 {
        FinishMaps(p.(counts := p.counts[k := n] - {k}, justStarted := false,
                      startSlot := if Offline(p, k) then k.slot else p.startSlot), k, v);
      }
    case Tx(k, ok, v) =>
      FinishMaps(p.(counts := p.counts - {k}), k, v);
    case Rollback(_, _) =>
    case Status(_, _, _) =>
  }

  // ---- What is done outside the processor ----

  /** The database work of an event, in order: the offline rewinds, then for the end of a block its cursor
      point and, unless it was processed before, its step, however that ends; a rollback rewinds both. */
  lemma EffectsOfEvent(p: Processor, e: Event)
    ensures Step(p, e).1.effects ==
            OpeningOf(p, e)
            + (if !Ends(p, e) then []
               else if e.key in p.processed then [CursorPoint(e.key)]
               else [CursorPoint(e.key), BlockStep(e.key)])
            + (if e.Rollback? && !p.failed then [CursorRewind(e.slot), StoreRewind(e.slot)] else [])
  {
  }

  /** A restart is asked for by the third mismatch or a later one, at the position finished before. */
  lemma RestartAsked(p: Processor, e: Event)
    ensures var (q, out) := Step(p, e);
            var works := Ends(p, e) && e.key !in p.processed;
            && out.restart ==
                 (if works && e.verdict == Mismatch && p.mismatches >= 2 then Some(p.lastIndexed) else None)
            && q.mismatches ==
                 (if works && e.verdict == Mismatch then p.mismatches + 1
                  else if works && e.verdict.Agreed? then 0 else p.mismatches)
            && q.lastIndexed ==
                 (if Ends(p, e) && (e.key in p.processed || (e.verdict != Broken && e.verdict != Agreed(false)))
                  then Position(e.key.slot, e.key.hash) else p.lastIndexed)
  {
  }

  // ---- The start ----

  /** The progress bar appears with a status event short of a tip beyond the start slot, and goes with one
      that reports the tip; appearing, it raises the start slot to the cursor's if that is greater. */
  lemma BarMoves(p: Processor, e: Event)
    ensures var q := Step(p, e).0;
            var appears := e.Status? && !p.bar && !e.tipReached && e.tipSlot > p.startSlot;
            && (q.bar <==> appears || (p.bar && !(e.Status? && e.tipReached)))
            && (appears ==> q.startSlot == if e.cursorSlot > p.startSlot then e.cursorSlot else p.startSlot)
            && (e.Status? && !appears ==> q.startSlot == p.startSlot)
  {
    StartSlotMoves(p, e);
  }

  /** Only the first block event can find an offline rollback: it rewinds cursor and store to the start
      slot, first of all, and makes its own slot the start slot; later ones never do. */
  lemma OpeningShows(p: Processor, k: BlockKey, n: uint64, v: Verdict)
    ensures var (q, out) := Step(p, Block(k, n, v));
            && !q.justStarted
            && (if p.justStarted && k.slot <= p.startSlot then
                  && |out.effects| >= 2
                  && out.effects[0] == CursorRewind(p.startSlot) && out.effects[1] == StoreRewind(p.startSlot)
                  && q.startSlot == k.slot
                else
                  && q.startSlot == p.startSlot
                  && forall i :: 0 <= i < |out.effects| ==>
                       out.effects[i] == CursorPoint(k) || out.effects[i] == BlockStep(k))
  {
    BlockStart(p, k, n, v);
    BlockStarted(p, k, n, v);
  }

  lemma BlockStarted(p: Processor, k: BlockKey, n: uint64, v: Verdict)
    ensures !OnBlock(p, k, n, v).0.justStarted
    ensures n == 0 ==> exists rest ::
              OnBlock(p, k, n, v).1.effects == Opening(p, k) + [CursorPoint(k)] + rest
              && (rest == [] || rest == [BlockStep(k)])
    ensures n != 0 ==> OnBlock(p, k, n, v).1.effects == Opening(p, k)
  {
    if n == 0 {
      var q := p.(counts := p.counts[k := n] - {k}, justStarted := false,
                  startSlot := if Offline(p, k) then k.slot else p.startSlot);
      var rest := Finish(q, k, v).1.effects;
      assert rest == [] || rest == [BlockStep(k)];
      assert OnBlock(p, k, n, v).1.effects == Opening(p, k) + [CursorPoint(k)] + rest;
    }
  }

  /** Nothing but a block event clears the mark of the start. */
  lemma StartedByBlockOnly(p: Processor, e: Event)
    requires !e.Block?
    ensures Step(p, e).0.justStarted == p.justStarted
  {
  }

  /** The block event of an offline rollback, through the cursor: the list stays in order exactly when no
      kept point lies between the block's slot and the start slot. */
  lemma OfflineBlockOrders(t: Cursor, p: Processor, k: BlockKey, v: Verdict)
    requires SlotsAscend(t.rows) && p.justStarted && k.slot <= p.startSlot
    ensures SlotsAscend(CursorAfter(t, Step(p, Block(k, 0, v)).1.effects, false).rows)
            <==> forall i :: 0 <= i < |t.rows| ==> !(k.slot <= t.rows[i].point.slot <= p.startSlot)
  {
    BlockStarted(p, k, 0, v);
    var fx := Step(p, Block(k, 0, v)).1.effects;
    var rest :| fx == Opening(p, k) + [CursorPoint(k)] + rest && (rest == [] || rest == [BlockStep(k)]);
    var start := [CursorRewind(p.startSlot), StoreRewind(p.startSlot)];
    assert start == ([] + [start[0]]) + [start[1]];
    CursorSnoc(t, [], start[0], false);
    CursorSnoc(t, [] + [start[0]], start[1], false);
    CursorSnoc(t, start, CursorPoint(k), false);
    if rest == [] {
      assert fx == start + [CursorPoint(k)];
    } else {
      CursorSnoc(t, start + [CursorPoint(k)], BlockStep(k), false);
    }
    OfflineRewindOrders(t, p, k);
  }
}
