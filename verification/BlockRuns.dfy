/** Whole event streams: every block finalised exactly once, the collected window, the restart point,
    and the cursor as a faithful list of where to resume. */
module BlockRuns {
  import opened Common
  import opened CursorTable
  import opened BlockAccounting

  function After(p: Processor, es: seq<Event>): Processor {
    if es == [] then p else Step(After(p, es[..|es| - 1]), es[|es| - 1]).0
  }

  function ChainAfter(c: Chain, es: seq<Event>): Chain {
    if es == [] then c else Advance(ChainAfter(c, es[..|es| - 1]), es[|es| - 1])
  }

  function EffectsOf(p: Processor, es: seq<Event>): seq<Effect> {
    if es == [] then []
    else
      var front := es[..|es| - 1];
      EffectsOf(p, front) + Step(After(p, front), es[|es| - 1]).1.effects
  }

  /** Every event fits the chain so far and is handled without an error. */
  ghost predicate GoodStream(c: Chain, es: seq<Event>) {
    es != [] ==>
      var front, last := es[..|es| - 1], es[|es| - 1];
      GoodStream(c, front) && Fits(ChainAfter(c, front), last) && Succeeds(ChainAfter(c, front), last)
  }

  lemma {:induction false} RunTracks(p: Processor, c: Chain, es: seq<Event>)
    requires Tracks(p, c) && GoodStream(c, es)
    ensures Tracks(After(p, es), ChainAfter(c, es))
  {
    if es != [] {
      var front, last := es[..|es| - 1], es[|es| - 1];
      RunTracks(p, c, front);
      StepIsExact(After(p, front), ChainAfter(c, front), last);
    }
  }

  /** At every event of every good stream the database sees what the chain calls for and no more. */
  lemma EventIsExact(p: Processor, c: Chain, es: seq<Event>, e: Event)
    requires Tracks(p, c) && GoodStream(c, es + [e])
    ensures Step(After(p, es), e).1.effects == OpeningOf(After(p, es), e) + Expected(ChainAfter(c, es), e)
    ensures Tracks(After(p, es + [e]), ChainAfter(c, es + [e]))
  {
    assert (es + [e])[..|es|] == es;
    RunTracks(p, c, es);
    StepIsExact(After(p, es), ChainAfter(c, es), e);
  }

  // ---------------------------------------------------------------------------------------------
  // Exactly once.
  // ---------------------------------------------------------------------------------------------

  function PointsIn(fx: seq<Effect>): seq<BlockKey> {
    if fx == [] then []
    else
      var last := fx[|fx| - 1];
      PointsIn(fx[..|fx| - 1]) + if last.CursorPoint? then [last.key] else []
  }

  function StepsIn(fx: seq<Effect>): seq<BlockKey> {
    if fx == [] then []
    else
      var last := fx[|fx| - 1];
      StepsIn(fx[..|fx| - 1]) + if last.BlockStep? then [last.key] else []
  }

  lemma {:induction false} InConcat(a: seq<Effect>, b: seq<Effect>)
    ensures PointsIn(a + b) == PointsIn(a) + PointsIn(b)
    ensures StepsIn(a + b) == StepsIn(a) + StepsIn(b)
  {
    if b == [] {
      assert a + b == a;
    } else {
      assert (a + b)[..|a + b| - 1] == a + b[..|b| - 1];
      InConcat(a, b[..|b| - 1]);
    }
  }

  function FinishedBy(c: Chain, e: Event): seq<BlockKey> {
    match Completes(c, e)
    case Some(k) => [k]
    case None => []
  }

  lemma InPair(x: Effect, y: Effect)
    ensures PointsIn([x, y]) == (if x.CursorPoint? then [x.key] else []) + (if y.CursorPoint? then [y.key] else [])
    ensures StepsIn([x, y]) == (if x.BlockStep? then [x.key] else []) + (if y.BlockStep? then [y.key] else [])
  {
    assert [x, y] == [x] + [y] && [x][..0] == [] && [y][..0] == [];
    InConcat([x], [y]);
    assert PointsIn([]) == [] && StepsIn([]) == [];
  }

  lemma InExpected(p: Processor, c: Chain, e: Event)
    ensures PointsIn(OpeningOf(p, e) + Expected(c, e)) == FinishedBy(c, e)
    ensures StepsIn(OpeningOf(p, e) + Expected(c, e)) == FinishedBy(c, e)
  {
    var opening, expected := OpeningOf(p, e), Expected(c, e);
    InConcat(opening, expected);
    if opening != [] {
      InPair(opening[0], opening[1]);
    }
    if expected != [] {
      InPair(expected[0], expected[1]);
    }
  }

  /** The blocks completed by a stream, in order, a block completed again after a rollback twice. */
  function Completed(c: Chain, es: seq<Event>): seq<BlockKey> {
    if es == [] then []
    else
      var front := es[..|es| - 1];
      Completed(c, front) + FinishedBy(ChainAfter(c, front), es[|es| - 1])
  }

  /** One cursor point and one processing step per completion, in completion order. */
  lemma {:induction false} OncePerCompletion(p: Processor, c: Chain, es: seq<Event>)
    requires Tracks(p, c) && GoodStream(c, es)
    ensures PointsIn(EffectsOf(p, es)) == Completed(c, es)
    ensures StepsIn(EffectsOf(p, es)) == Completed(c, es)
  {
    if es != [] {
      var front, last := es[..|es| - 1], es[|es| - 1];
      OncePerCompletion(p, c, front);
      RunTracks(p, c, front);
      StepIsExact(After(p, front), ChainAfter(c, front), last);
      InExpected(After(p, front), ChainAfter(c, front), last);
      InConcat(EffectsOf(p, front), Step(After(p, front), last).1.effects);
    }
  }

  /** The blocks a stream announces, in order. */
  function Announced(es: seq<Event>): seq<BlockKey> {
    if es == [] then []
    else
      var last := es[|es| - 1];
      Announced(es[..|es| - 1]) + if last.Block? then [last.key] else []
  }

  function StillOpen(c: Chain): seq<BlockKey> {
    if c.open.Some? then [c.open.value.key] else []
  }

  lemma CompletionStep(c: Chain, e: Event)
    requires Fits(c, e) && !e.Rollback?
    ensures FinishedBy(c, e) + StillOpen(Advance(c, e)) == StillOpen(c) + if e.Block? then [e.key] else []
    ensures Advance(c, e).complete == c.complete + FinishedBy(c, e)
  {
  }

  lemma {:induction false} CompletedAreAnnounced(c: Chain, es: seq<Event>)
    requires c.open.None? && GoodStream(c, es) && forall e :: e in es ==> !e.Rollback?
    ensures Announced(es) == Completed(c, es) + StillOpen(ChainAfter(c, es))
    ensures ChainAfter(c, es).complete == c.complete + Completed(c, es)
  {
    if es != [] {
      var front, last := es[..|es| - 1], es[|es| - 1];
      CompletedAreAnnounced(c, front);
      var before := ChainAfter(c, front);
      CompletionStep(before, last);
      Regroup(Completed(c, front), FinishedBy(before, last), StillOpen(ChainAfter(c, es)));
      Regroup(Completed(c, front), StillOpen(before), if last.Block? then [last.key] else []);
      Regroup(c.complete, Completed(c, front), FinishedBy(before, last));
    }
  }

  lemma Regroup(a: seq<BlockKey>, b: seq<BlockKey>, d: seq<BlockKey>)
    ensures (a + b) + d == a + (b + d)
  {
  }

  /** Blocks added to a well-formed chain one after the other differ. */
  lemma AscendingDiffer(c: Chain, prior: seq<BlockKey>, done: seq<BlockKey>, i: nat, j: nat)
    requires WellFormed(c) && c.complete == prior + done && i < j < |done|
    ensures done[i] != done[j]
  {
    assert c.complete[|prior| + i] == done[i] && c.complete[|prior| + j] == done[j];
  }

  ghost predicate NoRepeats(ks: seq<BlockKey>) {
    forall i, j :: 0 <= i < j < |ks| ==> ks[i] != ks[j]
  }

  /** Without rollbacks: every announced block gets one cursor point and one step, in order of
      announcement, the last one excepted while transactions of it are missing; and no block twice. */
  lemma FinalisedExactlyOnce(p: Processor, c: Chain, es: seq<Event>)
    requires Tracks(p, c) && c.open.None? && GoodStream(c, es) && forall e :: e in es ==> !e.Rollback?
    ensures Announced(es) == PointsIn(EffectsOf(p, es)) + StillOpen(ChainAfter(c, es))
    ensures StepsIn(EffectsOf(p, es)) == PointsIn(EffectsOf(p, es))
    ensures NoRepeats(PointsIn(EffectsOf(p, es)))
  {
    OncePerCompletion(p, c, es);
    CompletedAreAnnounced(c, es);
    RunTracks(p, c, es);
    var done := Completed(c, es);
    forall i, j | 0 <= i < j < |done|
      ensures done[i] != done[j]
    {
      AscendingDiffer(ChainAfter(c, es), c.complete, done, i, j);
    }
  }

  // ---------------------------------------------------------------------------------------------
  // The window that garbage collection keeps, and what a failure stops.
  // ---------------------------------------------------------------------------------------------

  /** At the tip, collection keeps exactly the blocks within the finality window, the block just
      finished among them - if and only if the current slot is at least the window's length: below
      that the unsigned subtraction wraps around. */
  lemma CollectionKeepsWindow(p: Processor, k: BlockKey, v: Verdict)
    requires k !in p.processed && !v.Syncing?
    ensures (forall x :: x in p.processed + {k} ==>
               (x in ProcessBlock(p, k, v).after.processed <==> x.slot + FINALITY_SLOTS >= k.slot))
            <==> k.slot >= FINALITY_SLOTS
  {
    assert k.slot < FINALITY_SLOTS ==> Cutoff(k.slot) == k.slot - FINALITY_SLOTS + TWO_64;
    assert k.slot < FINALITY_SLOTS ==> k in p.processed + {k} && k !in ProcessBlock(p, k, v).after.processed;
  }

  /** After a failure, transactions and rollbacks do nothing; a block event still writes to the
      database exactly when it has no transactions or is the first one after an offline rollback. */
  lemma FailureStopsAllButBlocks(p: Processor, e: Event)
    requires p.failed
    ensures Step(p, e).0.failed
    ensures Step(p, e).1.effects != [] <==> e.Block? && (e.txCount == 0 || Offline(p, e.key))
    ensures e.Tx? || e.Rollback? ==> Step(p, e).0 == p
  {
  }

  lemma {:induction false} FailureLasts(p: Processor, es: seq<Event>)
    requires p.failed
    ensures After(p, es).failed
  {
    if es != [] {
      FailureLasts(p, es[..|es| - 1]);
      FailureStopsAllButBlocks(After(p, es[..|es| - 1]), es[|es| - 1]);
    }
  }

  // ---------------------------------------------------------------------------------------------
  // The start slot.
  // ---------------------------------------------------------------------------------------------

  /** The start slot goes up only with a status event that brings up the progress bar, to the cursor's
      slot; it goes down only with the offline rollback, to the slot of the block. */
  lemma StartSlotMoves(p: Processor, e: Event)
    ensures var q := Step(p, e).0;
            && (q.startSlot > p.startSlot ==>
                  e.Status? && !e.tipReached && !p.bar && q.bar && q.startSlot == e.cursorSlot)
            && (q.startSlot < p.startSlot ==> e.Block? && Offline(p, e.key) && q.startSlot == e.key.slot)
            && (!e.Status? ==> q.bar == p.bar)
  {
    match e
    case Block(k, n, v) => BlockStart(p, k, n, v);
    case Tx(k, ok, v) => TxStart(p, k, ok, v);
    case Rollback(_, _) =>
    case Status(_, _, _) =>
  }

  lemma FinishStart(p: Processor, k: BlockKey, v: Verdict)
    ensures Finish(p, k, v).0.startSlot == p.startSlot && Finish(p, k, v).0.bar == p.bar
  {
  }

  lemma BlockStart(p: Processor, k: BlockKey, n: uint64, v: Verdict)
    ensures var q := OnBlock(p, k, n, v).0;
            q.bar == p.bar && q.startSlot == if Offline(p, k) then k.slot else p.startSlot
  {
    var q := p.(counts := p.counts[k := n], justStarted := false,
                startSlot := if Offline(p, k) then k.slot else p.startSlot);
    FinishStart(q.(counts := q.counts - {k}), k, v);
  }

  lemma TxStart(p: Processor, k: BlockKey, ok: bool, v: Verdict)
    ensures OnTx(p, k, ok, v).0.startSlot == p.startSlot && OnTx(p, k, ok, v).0.bar == p.bar
  {
    FinishStart(p.(counts := p.counts - {k}), k, v);
  }

  function Shown(p: Processor): nat {
    if p.bar then 1 else 0
  }

  /** How many events of a stream raise the start slot. */
  function Raises(p: Processor, es: seq<Event>): nat {
    if es == [] then 0
    else
      var front := es[..|es| - 1];
      Raises(p, front) + if After(p, es).startSlot > After(p, front).startSlot then 1 else 0
  }

  function TipNotices(es: seq<Event>): nat {
    if es == [] then 0
    else
      var last := es[|es| - 1];
      TipNotices(es[..|es| - 1]) + if last.Status? && last.tipReached then 1 else 0
  }

  lemma RaiseShowsBar(p: Processor, e: Event)
    ensures var q := Step(p, e).0;
            (if q.startSlot > p.startSlot then 1 else 0) + Shown(p)
            <= (if e.Status? && e.tipReached then 1 else 0) + Shown(q)
  {
    StartSlotMoves(p, e);
  }

  /** Over any stream the start slot is raised at most once per progress bar: between two raises a
      status event reports the tip. */
  lemma {:induction false} StartSlotRaisedOncePerBar(p: Processor, es: seq<Event>)
    ensures Raises(p, es) + Shown(p) <= TipNotices(es) + Shown(After(p, es))
  {
    if es != [] {
      var front := es[..|es| - 1];
      StartSlotRaisedOncePerBar(p, front);
      RaiseShowsBar(After(p, front), es[|es| - 1]);
    }
  }

  // ---------------------------------------------------------------------------------------------
  // Restart requests.
  // ---------------------------------------------------------------------------------------------

  /** The root comparisons made so far, true for a mismatch. */
  function Comparisons(c: Chain, es: seq<Event>): seq<bool> {
    if es == [] then []
    else
      var front, last := es[..|es| - 1], es[|es| - 1];
      var v := VerdictOf(last);
      Comparisons(c, front) +
      if Completes(ChainAfter(c, front), last).Some? && (v.Mismatch? || v.Agreed?) then [v.Mismatch?] else []
  }

  function Trailing(bs: seq<bool>): nat {
    if bs == [] || !bs[|bs| - 1] then 0 else Trailing(bs[..|bs| - 1]) + 1
  }

  function LastFinished(start: Position, c: Chain, es: seq<Event>): Position {
    if es == [] then start
    else
      var front, last := es[..|es| - 1], es[|es| - 1];
      match Completes(ChainAfter(c, front), last)
      case Some(k) => Position(k.slot, k.hash)
      case None => LastFinished(start, c, front)
  }

  lemma TrailingSnoc(bs: seq<bool>, b: bool)
    ensures Trailing(bs + [b]) == if b then Trailing(bs) + 1 else 0
  {
    assert (bs + [b])[..|bs|] == bs;
  }

  lemma {:induction false} CountersTrack(start: Position, c: Chain, es: seq<Event>)
    requires Tracks(Fresh(start), c) && GoodStream(c, es)
    ensures After(Fresh(start), es).mismatches == Trailing(Comparisons(c, es))
    ensures After(Fresh(start), es).lastIndexed == LastFinished(start, c, es)
  {
    if es != [] {
      var front, last := es[..|es| - 1], es[|es| - 1];
      CountersTrack(start, c, front);
      RunTracks(Fresh(start), c, front);
      CountersStep(After(Fresh(start), front), ChainAfter(c, front), last);
      TrailingSnoc(Comparisons(c, front), VerdictOf(last).Mismatch?);
      assert Comparisons(c, front) + [] == Comparisons(c, front);
    }
  }

  /** What one event does to the mismatch counter and the last indexed position. */
  lemma CountersStep(p: Processor, c: Chain, e: Event)
    requires Tracks(p, c) && Fits(c, e) && Succeeds(c, e)
    ensures var q := Step(p, e).0;
            match Completes(c, e) {
              case None => q.mismatches == p.mismatches && q.lastIndexed == p.lastIndexed && Step(p, e).1.restart.None?
              case Some(k) =>
                && q.lastIndexed == Position(k.slot, k.hash)
                && q.mismatches == (match VerdictOf(e) {
                     case Mismatch => p.mismatches + 1
                     case Agreed(_) => 0
                     case _ => p.mismatches
                   })
                && Step(p, e).1.restart ==
                   (if VerdictOf(e).Mismatch? && q.mismatches >= 3 then Some(p.lastIndexed) else None)
            }
  {
    match e
    case Block(k, n, v) =>
      FreshBlockNotProcessed(p, c, k);
    case Tx(k, ok, v) =>
      FreshBlockNotProcessed(p, c, k);
    case Rollback(_, _) =>
    case Status(_, _, _) =>
  }

  /** A restart is requested exactly when this event brings the third or a later mismatch in a row,
      and it names the block finished just before. */
  lemma RestartAfterThreeMismatches(start: Position, c: Chain, es: seq<Event>, e: Event)
    requires Tracks(Fresh(start), c) && GoodStream(c, es + [e])
    ensures Step(After(Fresh(start), es), e).1.restart ==
            if Completes(ChainAfter(c, es), e).Some? && VerdictOf(e).Mismatch?
               && Trailing(Comparisons(c, es + [e])) >= 3
            then Some(LastFinished(start, c, es)) else None
  {
    assert (es + [e])[..|es|] == es;
    RunTracks(Fresh(start), c, es);
    CountersTrack(start, c, es);
    CountersStep(After(Fresh(start), es), ChainAfter(c, es), e);
    TrailingSnoc(Comparisons(c, es), VerdictOf(e).Mismatch?);
  }

  function LastCompleted(c: Chain, es: seq<Event>): Option<BlockKey> {
    var done := Completed(c, es);
    if done == [] then None else Some(done[|done| - 1])
  }

  /** No rollback after the last completion discarded it. */
  predicate UndisturbedSince(c: Chain, es: seq<Event>) {
    es != [] ==>
      var front, last := es[..|es| - 1], es[|es| - 1];
      match last
      case Rollback(slot, hash) =>
        && UndisturbedSince(c, front)
        && (LastCompleted(c, front).Some? ==> Survives(LastCompleted(c, front).value, slot, hash))
      case _ => Completes(ChainAfter(c, front), last).Some? || UndisturbedSince(c, front)
  }

  ghost predicate IsNewest(ks: seq<BlockKey>, k: BlockKey) {
    ks != [] && ks[|ks| - 1] == k
  }

  /** A rollback keeps the newest block where it was or removes it. */
  lemma NewestAfterRollback(c: Chain, k: BlockKey, kept: bool, slot: uint64, hash: BlockHash)
    requires WellFormed(c) && (kept <==> k in c.complete) && (kept ==> IsNewest(c.complete, k))
    ensures kept && Survives(k, slot, hash) <==> k in SurvivingBlocks(c.complete, slot, hash)
    ensures kept && Survives(k, slot, hash) ==> IsNewest(SurvivingBlocks(c.complete, slot, hash), k)
  {
    SurvivorsKeepOrder(c.complete, slot, hash);
    if kept && Survives(k, slot, hash) {
      AllSurvive(c.complete[..|c.complete| - 1], k, slot, hash);
    }
  }

  /** The last finished block is the newest of the retained chain exactly when no rollback since then
      went past it: the position that a restart request names is not moved back by rollbacks. */
  lemma {:induction false} LastFinishedIsNewest(p: Processor, c: Chain, es: seq<Event>)
    requires Tracks(p, c) && GoodStream(c, es) && LastCompleted(c, es).Some?
    ensures UndisturbedSince(c, es) <==> LastCompleted(c, es).value in ChainAfter(c, es).complete
    ensures UndisturbedSince(c, es) ==> IsNewest(ChainAfter(c, es).complete, LastCompleted(c, es).value)
  {
    var front, last := es[..|es| - 1], es[|es| - 1];
    var before := ChainAfter(c, front);
    if Completes(before, last).Some? {
      CompletionIsLast(before, last);
    } else {
      assert Completed(c, es) == Completed(c, front);
      LastFinishedIsNewest(p, c, front);
      if last.Rollback? {
        RunTracks(p, c, front);
        NewestAfterRollback(before, LastCompleted(c, front).value, UndisturbedSince(c, front), last.slot, last.hash);
      } else {
        SameComplete(before, last);
      }
    }
  }

  lemma GoodSnoc(c: Chain, es: seq<Event>, e: Event)
    ensures GoodStream(c, es + [e])
            <==> GoodStream(c, es) && Fits(ChainAfter(c, es), e) && Succeeds(ChainAfter(c, es), e)
    ensures ChainAfter(c, es + [e]) == Advance(ChainAfter(c, es), e)
  {
    assert (es + [e])[..|es|] == es;
  }

  lemma CompletionSnoc(start: Position, c: Chain, es: seq<Event>, e: Event)
    ensures Completed(c, es + [e]) == Completed(c, es) + FinishedBy(ChainAfter(c, es), e)
    ensures LastFinished(start, c, es + [e]) ==
            (match Completes(ChainAfter(c, es), e) {
               case Some(k) => Position(k.slot, k.hash)
               case None => LastFinished(start, c, es)
             })
    ensures e.Rollback? && LastCompleted(c, es).Some? && !Survives(LastCompleted(c, es).value, e.slot, e.hash) ==>
              !UndisturbedSince(c, es + [e])
  {
    assert (es + [e])[..|es|] == es;
  }

  /** Two empty blocks and a rollback to the first: a restart would name the second, which is gone. */
  lemma RestartPointStranded(start: Position, a: BlockKey, b: BlockKey)
    requires a.slot < b.slot
    ensures var c := Chain([], None);
            var es := [] + [Block(a, 0, Syncing)] + [Block(b, 0, Syncing)] + [Event.Rollback(a.slot, a.hash)];
            && GoodStream(c, es) && ChainAfter(c, es).complete == [a]
            && LastFinished(start, c, es) == Position(b.slot, b.hash) && !UndisturbedSince(c, es)
  {
    var c, x, y, z := Chain([], None), Block(a, 0, Syncing), Block(b, 0, Syncing), Event.Rollback(a.slot, a.hash);
    GoodSnoc(c, [], x);
    GoodSnoc(c, [] + [x], y);
    GoodSnoc(c, [] + [x] + [y], z);
    CompletionSnoc(start, c, [], x);
    CompletionSnoc(start, c, [] + [x], y);
    CompletionSnoc(start, c, [] + [x] + [y], z);
    FirstSurvives(a, b);
  }

  lemma FirstSurvives(a: BlockKey, b: BlockKey)
    requires a.slot < b.slot
    ensures SurvivingBlocks([] + [a] + [b], a.slot, a.hash) == [a]
  {
    assert ([] + [a] + [b])[..1] == [a] && [a][..0] == [];
    assert SurvivingBlocks([a], a.slot, a.hash) == [a];
  }

  lemma SameComplete(c: Chain, e: Event)
    requires !e.Rollback? && Completes(c, e).None?
    ensures Advance(c, e).complete == c.complete
  {
  }

  lemma CompletionIsLast(c: Chain, e: Event)
    requires Completes(c, e).Some?
    ensures Advance(c, e).complete == c.complete + [Completes(c, e).value] && !e.Rollback?
  {
  }

  // ---------------------------------------------------------------------------------------------
  // The cursor.
  // ---------------------------------------------------------------------------------------------

  function PointOf(k: BlockKey): Point {
    Point(k.slot, k.hash)
  }

  /** The effect on the cursor table; `prune` is drawn when a point is added. */
  function OnCursor(t: Cursor, fx: Effect, prune: bool): Cursor {
    match fx
    case CursorPoint(k) => Add(t, PointOf(k), prune)
    case CursorRewind(slot) => Rewind(t, slot)
    case _ => t
  }

  function CursorAfter(t: Cursor, fx: seq<Effect>, prune: bool): Cursor {
    if fx == [] then t
    else OnCursor(CursorAfter(t, fx[..|fx| - 1], prune), fx[|fx| - 1], prune)
  }

  /** Newest first, the retained blocks without a gap, down to some age. */
  ghost predicate Resumes(ps: seq<Point>, complete: seq<BlockKey>) {
    && |ps| <= |complete|
    && forall i :: 0 <= i < |ps| ==> ps[i] == PointOf(complete[|complete| - 1 - i])
  }

  ghost predicate Faithful(t: Cursor, c: Chain) {
    IdsAscend(t) && SlotsAscend(t.rows) && Resumes(Points(t), c.complete)
  }

  /** Newest-first slots strictly decrease. */
  lemma ResumeSlotsDescend(t: Cursor)
    requires SlotsAscend(t.rows)
    ensures forall i, j :: 0 <= i < j < |Points(t)| ==> Points(t)[i].slot > Points(t)[j].slot
  {
  }

  lemma CompletionKeepsFaithful(t: Cursor, c: Chain, k: BlockKey, prune: bool)
    requires Faithful(t, c) && WellFormed(c) && Extends(c, k)
    ensures Faithful(Add(t, PointOf(k), prune), c.(complete := c.complete + [k]))
    ensures Points(Add(t, PointOf(k), prune)) != []
  {
    var ps := Points(t);
    forall i | 0 <= i < |t.rows|
      ensures t.rows[i].point.slot < k.slot
    {
      assert t.rows[i].point == ps[|ps| - 1 - i];
    }
    AddedPointLeads(t, PointOf(k), prune);
  }

  ghost predicate NoOtherHash(ps: seq<Point>, slot: nat, hash: BlockHash) {
    forall i :: 0 <= i < |ps| && ps[i].slot == slot ==> ps[i].hash == hash
  }

  ghost predicate CutAt(ps: seq<Point>, slot: nat, cut: nat) {
    cut <= |ps| && forall i :: 0 <= i < |ps| ==> (ps[i].slot <= slot <==> i >= cut)
  }

  /** With no fork at the slot, the chain loses as many blocks as the list loses points, or more when
      the list runs out. */
  lemma SameCut(ps: seq<Point>, c: Chain, slot: uint64, hash: BlockHash, cut: nat)
    requires Resumes(ps, c.complete) && WellFormed(c) && CutAt(ps, slot, cut) && NoOtherHash(ps, slot, hash)
    ensures Resumes(ps[cut..], SurvivingBlocks(c.complete, slot, hash))
  {
    if cut < |ps| {
      var n := |c.complete|;
      assert ps[cut] == PointOf(c.complete[n - 1 - cut]);
      assert cut > 0 ==> ps[cut - 1] == PointOf(c.complete[n - cut]);
      SurvivorCount(c, slot, hash, n - cut);
      SurvivorsKeepOrder(c.complete, slot, hash);
      SuffixResumes(ps, c.complete, SurvivingBlocks(c.complete, slot, hash), cut);
    }
  }

  lemma SuffixResumes(ps: seq<Point>, complete: seq<BlockKey>, kept: seq<BlockKey>, cut: nat)
    requires Resumes(ps, complete) && cut <= |ps| && kept <= complete && |kept| == |complete| - cut
    ensures Resumes(ps[cut..], kept)
  {
  }

  lemma SurvivorCount(c: Chain, slot: uint64, hash: BlockHash, m: nat)
    requires WellFormed(c) && 0 < m <= |c.complete| && Survives(c.complete[m - 1], slot, hash)
    requires m < |c.complete| ==> !Survives(c.complete[m], slot, hash)
    ensures |SurvivingBlocks(c.complete, slot, hash)| == m
  {
    SurvivorsKeepOrder(c.complete, slot, hash);
    var kept := SurvivingBlocks(c.complete, slot, hash);
    SurvivorIndex(c.complete, kept, m - 1, slot, hash);
    if m < |c.complete| {
      SurvivorIndex(c.complete, kept, m, slot, hash);
    }
  }

  /** Which indices the survivors, a prefix, reach. */
  lemma SurvivorIndex(ks: seq<BlockKey>, kept: seq<BlockKey>, i: nat, slot: uint64, hash: BlockHash)
    requires kept <= ks && i < |ks| && forall k :: k in kept <==> k in ks && Survives(k, slot, hash)
    requires forall x, y :: 0 <= x < y < |ks| ==> ks[x].slot < ks[y].slot
    ensures i < |kept| <==> Survives(ks[i], slot, hash)
  {
    assert ks[i] in ks && forall j :: 0 <= j < |kept| ==> kept[j] == ks[j];
    if ks[i] in kept {
      var j :| 0 <= j < |kept| && kept[j] == ks[i];
      assert ks[j].slot == ks[i].slot;
    }
  }

  /** A faithful list holds no point beside the rollback slot once its block is gone. */
  lemma ForkIsUnlisted(qs: seq<Point>, kept: seq<BlockKey>, j: nat, slot: uint64, hash: BlockHash)
    requires forall k :: k in kept ==> Survives(k, slot, hash)
    requires j < |qs| && qs[j].slot == slot && qs[j].hash != hash
    ensures !Resumes(qs, kept)
  {
    assert |qs| <= |kept| ==> kept[|kept| - 1 - j] in kept;
  }

  /** The rewind leaves such a point in place. */
  lemma ForkStays(ps: seq<Point>, c: Chain, slot: uint64, hash: BlockHash, cut: nat)
    requires WellFormed(c) && CutAt(ps, slot, cut) && !NoOtherHash(ps, slot, hash)
    ensures !Resumes(ps[cut..], SurvivingBlocks(c.complete, slot, hash))
  {
    var i :| 0 <= i < |ps| && ps[i].slot == slot && ps[i].hash != hash;
    SurvivorsKeepOrder(c.complete, slot, hash);
    ForkIsUnlisted(ps[cut..], SurvivingBlocks(c.complete, slot, hash), i - cut, slot, hash);
  }

  /** A cursor rewind follows the chain's rollback exactly when no kept point lies at the rollback slot
      with another hash; it empties the list exactly when it goes past every kept point. */
  lemma RewindIsFaithful(t: Cursor, c: Chain, slot: uint64, hash: BlockHash)
    requires Faithful(t, c) && WellFormed(c)
    ensures Faithful(Rewind(t, slot), Chain(SurvivingBlocks(c.complete, slot, hash), None))
            <==> NoOtherHash(Points(t), slot, hash)
    ensures Points(Rewind(t, slot)) == [] <==> forall i :: 0 <= i < |Points(t)| ==> Points(t)[i].slot > slot
  {
    var ps, qs := Points(t), Points(Rewind(t, slot));
    RewindDropsHead(t, slot);
    var cut := |ps| - |qs|;
    assert CutAt(ps, slot, cut);
    if NoOtherHash(ps, slot, hash) {
      SameCut(ps, c, slot, hash, cut);
    } else {
      ForkStays(ps, c, slot, hash, cut);
    }
    assert qs != [] ==> ps[cut].slot <= slot;
  }

  /** A rewind above every retained block changes nothing. */
  lemma HighRewindIsIdle(t: Cursor, c: Chain, slot: uint64)
    requires Faithful(t, c) && forall i :: 0 <= i < |c.complete| ==> c.complete[i].slot <= slot
    ensures Rewind(t, slot) == t
  {
    forall i | 0 <= i < |t.rows|
      ensures t.rows[i].point.slot <= slot
    {
      assert Points(t)[|t.rows| - 1 - i] == t.rows[i].point;
    }
    AllUpTo(t.rows, slot);
  }

  /** No kept cursor point lies beside the point that a rollback names. */
  ghost predicate NoForkAt(t: Cursor, e: Event) {
    e.Rollback? ==> NoOtherHash(Points(t), e.slot, e.hash)
  }

  lemma EventKeepsFaithful(t: Cursor, p: Processor, c: Chain, e: Event, prune: bool)
    requires Faithful(t, c) && Tracks(p, c) && Fits(c, e) && Succeeds(c, e) && NoForkAt(t, e)
    ensures Faithful(CursorAfter(t, Step(p, e).1.effects, prune), Advance(c, e))
    ensures Completes(c, e).Some? ==> Points(CursorAfter(t, Step(p, e).1.effects, prune)) != []
  {
    StepIsExact(p, c, e);
    var opening, expected := OpeningOf(p, e), Expected(c, e);
    if opening != [] {
      HighRewindIsIdle(t, c, p.startSlot);
    }
    OpeningIsIdle(t, opening, expected, prune);
    match e
    case Rollback(slot, hash) => RewindIsFaithful(t, c, slot, hash);
    case Status(_, _, _) =>
    case Block(k, n, _) =>
      if n == 0 {
        CompletionKeepsFaithful(t, c, k, prune);
      }
    case Tx(k, _, _) =>
      if c.open.value.remaining <= 1 {
        CompletionKeepsFaithful(t, c, k, prune);
      }
  }

  /** The opening effects, when they leave the table alone, can be skipped. */
  lemma OpeningIsIdle(t: Cursor, opening: seq<Effect>, expected: seq<Effect>, prune: bool)
    requires opening == [] || (|opening| == 2 && opening[0].CursorRewind? && opening[1].StoreRewind?
                               && Rewind(t, opening[0].slot) == t)
    requires expected == [] || (|expected| == 2 && !expected[1].CursorPoint? && !expected[1].CursorRewind?)
    ensures CursorAfter(t, opening + expected, prune) ==
            if expected == [] then t else OnCursor(t, expected[0], prune)
  {
    if opening != [] {
      assert opening == ([] + [opening[0]]) + [opening[1]];
      CursorSnoc(t, [], opening[0], prune);
      CursorSnoc(t, [opening[0]], opening[1], prune);
    }
    if expected != [] {
      assert opening + expected == (opening + [expected[0]]) + [expected[1]];
      CursorSnoc(t, opening, expected[0], prune);
      CursorSnoc(t, opening + [expected[0]], expected[1], prune);
    } else {
      assert opening + expected == opening;
    }
  }

  lemma CursorSnoc(t: Cursor, fx: seq<Effect>, x: Effect, prune: bool)
    ensures CursorAfter(t, fx + [x], prune) == OnCursor(CursorAfter(t, fx, prune), x, prune)
  {
    assert (fx + [x])[..|fx|] == fx;
  }

  function CursorRun(t: Cursor, p: Processor, es: seq<Event>, draws: seq<bool>): Cursor
    requires |draws| == |es|
  {
    if es == [] then t
    else
      var n := |es| - 1;
      CursorAfter(CursorRun(t, p, es[..n], draws[..n]), Step(After(p, es[..n]), es[n]).1.effects, draws[n])
  }

  ghost predicate NoForks(t: Cursor, p: Processor, es: seq<Event>, draws: seq<bool>)
    requires |draws| == |es|
  {
    es != [] ==>
      var n := |es| - 1;
      NoForks(t, p, es[..n], draws[..n]) && NoForkAt(CursorRun(t, p, es[..n], draws[..n]), es[n])
  }

  /** Over any good stream without such forks, with prunings drawn in any way, the cursor lists the
      retained blocks newest first without a gap, and it is not empty right after a block was finished. */
  lemma {:induction false} CursorIsFaithful(t: Cursor, p: Processor, c: Chain, es: seq<Event>, draws: seq<bool>)
    requires |draws| == |es|
    requires Faithful(t, c) && Tracks(p, c) && GoodStream(c, es) && NoForks(t, p, es, draws)
    ensures Faithful(CursorRun(t, p, es, draws), ChainAfter(c, es))
    ensures es != [] && Completes(ChainAfter(c, es[..|es| - 1]), es[|es| - 1]).Some? ==>
              Points(CursorRun(t, p, es, draws)) != []
  {
    if es != [] {
      var n := |es| - 1;
      CursorIsFaithful(t, p, c, es[..n], draws[..n]);
      RunTracks(p, c, es[..n]);
      EventKeepsFaithful(CursorRun(t, p, es[..n], draws[..n]), After(p, es[..n]), ChainAfter(c, es[..n]),
                         es[n], draws[n]);
    }
  }

  /** The cursor is faithful now and was at every earlier event. */
  ghost predicate AlwaysFaithful(t: Cursor, p: Processor, c: Chain, es: seq<Event>, draws: seq<bool>)
    requires |draws| == |es|
  {
    && Faithful(CursorRun(t, p, es, draws), ChainAfter(c, es))
    && (es != [] ==> AlwaysFaithful(t, p, c, es[..|es| - 1], draws[..|es| - 1]))
  }

  /** The condition on forks is exact: the cursor stays faithful throughout a good stream exactly when no
      rollback names a point beside one that is kept. */
  lemma {:induction false} FaithfulExactlyWithoutForks(
      t: Cursor, p: Processor, c: Chain, es: seq<Event>, draws: seq<bool>)
    requires |draws| == |es|
    requires Faithful(t, c) && Tracks(p, c) && GoodStream(c, es)
    ensures AlwaysFaithful(t, p, c, es, draws) <==> NoForks(t, p, es, draws)
  {
    if es != [] {
      var n := |es| - 1;
      FaithfulExactlyWithoutForks(t, p, c, es[..n], draws[..n]);
      if NoForks(t, p, es, draws) {
        CursorIsFaithful(t, p, c, es, draws);
      }
      if AlwaysFaithful(t, p, c, es, draws) {
        RunTracks(p, c, es[..n]);
        FaithfulMeansNoFork(CursorRun(t, p, es[..n], draws[..n]), After(p, es[..n]), ChainAfter(c, es[..n]),
                            es[n], draws[n]);
      }
    }
  }

  lemma RollbackOnCursor(t: Cursor, p: Processor, c: Chain, slot: uint64, hash: BlockHash, prune: bool)
    requires Tracks(p, c)
    ensures CursorAfter(t, Step(p, Rollback(slot, hash)).1.effects, prune) == Rewind(t, slot)
  {
    var fx := [CursorRewind(slot), StoreRewind(slot)];
    assert [] + fx == fx;
    OpeningIsIdle(t, [], fx, prune);
  }

  lemma FaithfulMeansNoFork(t: Cursor, p: Processor, c: Chain, e: Event, prune: bool)
    requires Faithful(t, c) && Tracks(p, c)
    requires Faithful(CursorAfter(t, Step(p, e).1.effects, prune), Advance(c, e))
    ensures NoForkAt(t, e)
  {
    if e.Rollback? {
      RollbackOnCursor(t, p, c, e.slot, e.hash, prune);
      RewindIsFaithful(t, c, e.slot, e.hash);
    }
  }

  lemma CursorRunSnoc(t: Cursor, p: Processor, es: seq<Event>, draws: seq<bool>, e: Event, draw: bool)
    requires |draws| == |es|
    ensures NoForks(t, p, es + [e], draws + [draw])
            <==> NoForks(t, p, es, draws) && NoForkAt(CursorRun(t, p, es, draws), e)
    ensures CursorRun(t, p, es + [e], draws + [draw])
            == CursorAfter(CursorRun(t, p, es, draws), Step(After(p, es), e).1.effects, draw)
  {
    assert (es + [e])[..|es|] == es && (draws + [draw])[..|es|] == draws;
  }

  /** One empty block, from the beginning. */
  lemma OneBlock(start: Position, k: BlockKey)
    requires start.slot < k.slot
    ensures var es, p, c := [] + [Block(k, 0, Syncing)], Fresh(start), Chain([], None);
            && GoodStream(c, es) && ChainAfter(c, es) == Chain([k], None) && Tracks(After(p, es), Chain([k], None))
  {
    var p, c, e := Fresh(start), Chain([], None), Block(k, 0, Syncing);
    GoodSnoc(c, [], e);
    RunTracks(p, c, [] + [e]);
  }

  lemma OneBlockOnCursor(start: Position, k: BlockKey)
    requires start.slot < k.slot
    ensures var t, es, p := Cursor([], 1), [] + [Block(k, 0, Syncing)], Fresh(start);
            && NoForks(t, p, es, [] + [false]) && CursorRun(t, p, es, [] + [false]) == Add(t, PointOf(k), false)
  {
    var t, p, e := Cursor([], 1), Fresh(start), Block(k, 0, Syncing);
    CursorRunSnoc(t, p, [], [], e, false);
    StepIsExact(p, Chain([], None), e);
    var fx := [CursorPoint(k), BlockStep(k)];
    assert [] + fx == fx;
    OpeningIsIdle(t, [], fx, false);
  }

  /** A rollback to the slot of the only block under another hash: the chain is empty, the cursor is not. */
  lemma ForkedPointStays(start: Position, k: BlockKey, hash: BlockHash, es: seq<Event>, draws: seq<bool>)
    requires hash != k.hash && start.slot < k.slot
    requires es == [] + [Block(k, 0, Syncing)] + [Rollback(k.slot, hash)] && draws == [] + [false] + [false]
    ensures var t, p, c := Cursor([], 1), Fresh(start), Chain([], None);
            && GoodStream(c, es) && ChainAfter(c, es).complete == [] && !NoForks(t, p, es, draws)
            && Points(CursorRun(t, p, es, draws)) == [PointOf(k)]
  {
    var t, p, c := Cursor([], 1), Fresh(start), Chain([], None);
    var first, e, one := [] + [Block(k, 0, Syncing)], Event.Rollback(k.slot, hash), Add(t, PointOf(k), false);
    OneBlock(start, k);
    OneBlockOnCursor(start, k);
    GoodSnoc(c, first, e);
    CursorRunSnoc(t, p, first, [] + [false], e, false);
    ForkRewind(one, After(p, first), k, hash);
    assert [k][..0] == [] && Points(one)[0] == PointOf(k);
    assert SurvivingBlocks([k], k.slot, hash) == [] && !NoForkAt(one, e);
  }

  lemma ForkRewind(t: Cursor, p: Processor, k: BlockKey, hash: BlockHash)
    requires t.rows == [CursorRow(1, PointOf(k))] && !p.failed
    ensures CursorAfter(t, Step(p, Rollback(k.slot, hash)).1.effects, false) == t
    ensures Points(t) == [PointOf(k)]
  {
    AllUpTo(t.rows, k.slot);
    var fx := [CursorRewind(k.slot), StoreRewind(k.slot)];
    assert [] + fx == fx;
    OpeningIsIdle(t, [], fx, false);
  }

  /** Appending to ascending slots. */
  lemma AppendAscends(rows: seq<CursorRow>, r: CursorRow)
    requires SlotsAscend(rows)
    ensures SlotsAscend(rows + [r]) <==> forall i :: 0 <= i < |rows| ==> rows[i].point.slot < r.point.slot
  {
    var all := rows + [r];
    assert all[|rows|] == r;
    assert forall i :: 0 <= i < |rows| ==> all[i] == rows[i];
  }

  lemma RewoundBelow(rows: seq<CursorRow>, start: nat, slot: nat)
    requires SlotsAscend(rows)
    ensures (forall i :: 0 <= i < |UpToSlot(rows, start)| ==> UpToSlot(rows, start)[i].point.slot < slot)
            <==> forall i :: 0 <= i < |rows| ==> !(slot <= rows[i].point.slot <= start)
  {
    var n := UpToSlotIsPrefix(rows, start);
    var kept := UpToSlot(rows, start);
    assert forall i :: 0 <= i < n ==> kept[i] == rows[i];
  }

  /** The rollback detected at start-up goes to the configured start slot, not to the block's: the list
      stays in order after that block exactly when no kept point lies between the two. */
  lemma OfflineRewindOrders(t: Cursor, p: Processor, k: BlockKey)
    requires SlotsAscend(t.rows) && Offline(p, k)
    ensures SlotsAscend(Add(Rewind(t, p.startSlot), PointOf(k), false).rows)
            <==> forall i :: 0 <= i < |t.rows| ==> !(k.slot <= t.rows[i].point.slot <= p.startSlot)
  {
    var n := UpToSlotIsPrefix(t.rows, p.startSlot);
    AppendAscends(UpToSlot(t.rows, p.startSlot), CursorRow(t.nextId, PointOf(k)));
    RewoundBelow(t.rows, p.startSlot, k.slot);
  }

  /** The start slot is that of the newest cursor point, so the branch always leaves that point in place. */
  lemma OfflineRewindKeepsHead(t: Cursor, p: Processor, k: BlockKey)
    requires SlotsAscend(t.rows) && Offline(p, k)
    requires t.rows != [] && p.startSlot == Points(t)[0].slot
    ensures !SlotsAscend(Add(Rewind(t, p.startSlot), PointOf(k), false).rows)
  {
    OfflineRewindOrders(t, p, k);
    assert Points(t)[0] == t.rows[|t.rows| - 1].point;
  }
}
