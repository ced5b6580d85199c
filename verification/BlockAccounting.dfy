/** The block and transaction bookkeeping of the chain event processor, one event at a time. */
module BlockAccounting {
  import opened Common
  import opened CursorTable

  const TWO_64 := 0x1_0000_0000_0000_0000

  type uint64 = n: int | 0 <= n < TWO_64

  const FINALITY_SLOTS: uint64 := 129600

  datatype BlockKey = BlockKey(number: uint64, hash: BlockHash, slot: uint64)

  /** How the work at the tip of the chain ends for one block.  Syncing: the tip is not reached.
      Broken: an error before the trie roots are compared.  Mismatch: nothing is pending and the
      on-chain root differs.  Agreed: the rest of the update ran, with or without an error. */
  datatype Verdict = Syncing | Broken | Mismatch | Agreed(ok: bool)

  datatype Event =
    | Block(key: BlockKey, txCount: uint64, verdict: Verdict)
    | Tx(key: BlockKey, ok: bool, verdict: Verdict)
    | Rollback(slot: uint64, hash: BlockHash)
    | Status(tipReached: bool, tipSlot: uint64, cursorSlot: uint64)

  datatype Effect =
    | CursorPoint(key: BlockKey)
    | BlockStep(key: BlockKey)
    | CursorRewind(slot: uint64)
    | StoreRewind(slot: uint64)

  datatype Position = Position(slot: uint64, hash: BlockHash)

  /** The fields of the actor.  `bar` says whether the progress bar is shown. */
  datatype Processor = Processor(
    processed: set<BlockKey>,
    counts: map<BlockKey, uint64>,
    failed: bool,
    justStarted: bool,
    startSlot: uint64,
    bar: bool,
    mismatches: nat,
    lastIndexed: Position)

  /** What one event does outside the actor: database work in order, and a restart request. */
  datatype Output = Output(effects: seq<Effect>, restart: Option<Position>)

  /** A fresh actor starts at the configured position. */
  function Fresh(start: Position): Processor {
    Processor({}, map[], false, true, start.slot, false, 0, start)
  }

  /** currentSlot - 129600 in unsigned 64-bit arithmetic. */
  function Cutoff(slot: uint64): uint64 {
    (slot - FINALITY_SLOTS) % TWO_64
  }

  function CollectOld(p: Processor, cutoff: uint64): Processor {
    p.(processed := (set k | k in p.processed && k.slot >= cutoff),
       counts := (map k | k in p.counts && k.slot >= cutoff :: p.counts[k]))
  }

  datatype Outcome = Outcome(after: Processor, out: Output, ok: bool)

  /** The work at the tip for a block just marked as processed. */
  function AtTip(p: Processor, k: BlockKey, v: Verdict): Outcome {
    var g := CollectOld(p, Cutoff(k.slot));
    var step := [BlockStep(k)];
    match v
    case Mismatch =>
      var seen := g.mismatches + 1;
      Outcome(g.(mismatches := seen),
              Output(step, if seen >= 3 then Some(g.lastIndexed) else None), true)
    case Agreed(ok) => Outcome(g.(mismatches := 0), Output(step, None), ok)
    case _ => Outcome(g, Output(step, None), false)
  }

  /** processBlockEvent: a block already in the processed map is skipped. */
  function ProcessBlock(p: Processor, k: BlockKey, v: Verdict): Outcome {
    if k in p.processed then Outcome(p, Output([], None), true)
    else
      var q := p.(processed := p.processed + {k});
      if v.Syncing? then Outcome(q, Output([BlockStep(k)], None), true)
      else AtTip(q, k, v)
  }

  /** processBlockEvent under the guard that turns an error into the failed state. */
  function Finish(p: Processor, k: BlockKey, v: Verdict): (Processor, Output) {
    var r := ProcessBlock(p, k, v);
    (if r.ok then r.after.(lastIndexed := Position(k.slot, k.hash)) else r.after.(failed := true), r.out)
  }

  /** Whether the first block says that a rollback happened while the program was down. */
  predicate Offline(p: Processor, k: BlockKey) {
    p.justStarted && k.slot <= p.startSlot
  }

  function Opening(p: Processor, k: BlockKey): seq<Effect> {
    if Offline(p, k) then [CursorRewind(p.startSlot), StoreRewind(p.startSlot)] else []
  }

  function OnBlock(p: Processor, k: BlockKey, n: uint64, v: Verdict): (Processor, Output) {
    var q := p.(counts := p.counts[k := n], justStarted := false,
                startSlot := if Offline(p, k) then k.slot else p.startSlot);
    if n == 0 then
      var (r, out) := Finish(q.(counts := q.counts - {k}), k, v);
      (r, out.(effects := Opening(p, k) + [CursorPoint(k)] + out.effects))
    else (q, Output(Opening(p, k), None))
  }

  function OnTx(p: Processor, k: BlockKey, ok: bool, v: Verdict): (Processor, Output) {
    if p.failed then (p, Output([], None))
    else if !ok || k !in p.counts then (p.(failed := true), Output([], None))
    else if p.counts[k] <= 1 then
      var (r, out) := Finish(p.(counts := p.counts - {k}), k, v);
      (r, out.(effects := [CursorPoint(k)] + out.effects))
    else (p.(counts := p.counts[k := p.counts[k] - 1]), Output([], None))
  }

  /** A block survives a rollback to a point unless it lies beyond it or beside it. */
  predicate Survives(k: BlockKey, slot: uint64, hash: BlockHash) {
    k.slot < slot || (k.slot == slot && k.hash == hash)
  }

  function OnRollback(p: Processor, slot: uint64, hash: BlockHash): (Processor, Output) {
    if p.failed then (p, Output([], None))
    else
      (p.(processed := (set k | k in p.processed && Survives(k, slot, hash)),
          counts := (map k | k in p.counts && Survives(k, slot, hash) :: p.counts[k])),
       Output([CursorRewind(slot), StoreRewind(slot)], None))
  }

  /** A status event only drives the progress bar, which may raise the start slot once. */
  function OnStatus(p: Processor, tipReached: bool, tipSlot: uint64, cursorSlot: uint64): Processor {
    if !tipReached && tipSlot > p.startSlot then
      if p.bar then p
      else p.(bar := true, startSlot := if p.startSlot < cursorSlot then cursorSlot else p.startSlot)
    else if tipReached && p.bar then p.(bar := false)
    else p
  }

  function Step(p: Processor, e: Event): (Processor, Output) {
    match e
    case Block(k, n, v) => OnBlock(p, k, n, v)
    case Tx(k, ok, v) => OnTx(p, k, ok, v)
    case Rollback(slot, hash) => OnRollback(p, slot, hash)
    case Status(tipReached, tipSlot, cursorSlot) => (OnStatus(p, tipReached, tipSlot, cursorSlot), Output([], None))
  }

  // ---------------------------------------------------------------------------------------------
  // The chain the events describe, told without the bookkeeping maps.
  // ---------------------------------------------------------------------------------------------

  datatype Open = Open(key: BlockKey, remaining: nat)

  /** Blocks completely received and not rolled back, oldest first, and the block being received. */
  datatype Chain = Chain(complete: seq<BlockKey>, open: Option<Open>)

  ghost predicate WellFormed(c: Chain) {
    && (forall i, j :: 0 <= i < j < |c.complete| ==> c.complete[i].slot < c.complete[j].slot)
    && (c.open.Some? ==> c.open.value.remaining > 0 && Extends(c, c.open.value.key))
  }

  ghost predicate Extends(c: Chain, k: BlockKey) {
    forall i :: 0 <= i < |c.complete| ==> c.complete[i].slot < k.slot
  }

  /** A block follows everything received; its transactions follow it, as many as announced. */
  ghost predicate Fits(c: Chain, e: Event) {
    match e
    case Block(k, _, _) => c.open.None? && Extends(c, k)
    case Tx(k, _, _) => c.open.Some? && c.open.value.key == k
    case _ => true
  }

  function SurvivingBlocks(ks: seq<BlockKey>, slot: uint64, hash: BlockHash): seq<BlockKey> {
    if ks == [] then []
    else
      var last := ks[|ks| - 1];
      SurvivingBlocks(ks[..|ks| - 1], slot, hash) + if Survives(last, slot, hash) then [last] else []
  }

  function Advance(c: Chain, e: Event): Chain {
    match e
    case Block(k, n, _) =>
      if n == 0 then c.(complete := c.complete + [k]) else c.(open := Some(Open(k, n)))
    case Tx(k, _, _) =>
      if c.open.None? then c
      else if c.open.value.remaining <= 1 then Chain(c.complete + [k], None)
      else c.(open := Some(Open(c.open.value.key, c.open.value.remaining - 1)))
    case Rollback(slot, hash) =>
      Chain(SurvivingBlocks(c.complete, slot, hash),
            if c.open.Some? && Survives(c.open.value.key, slot, hash) then c.open else None)
    case Status(_, _, _) => c
  }

  /** The block an event completes. */
  function Completes(c: Chain, e: Event): Option<BlockKey> {
    match e
    case Block(k, n, _) => if n == 0 then Some(k) else None
    case Tx(k, _, _) => if c.open.Some? && c.open.value.remaining <= 1 then Some(k) else None
    case _ => None
  }

  /** Nothing goes wrong while the event is handled. */
  predicate Succeeds(c: Chain, e: Event) {
    && (e.Tx? ==> e.ok)
    && (Completes(c, e).Some? ==> VerdictOf(e) != Broken && VerdictOf(e) != Agreed(false))
  }

  function VerdictOf(e: Event): Verdict {
    match e
    case Block(_, _, v) => v
    case Tx(_, _, v) => v
    case _ => Syncing
  }

  /** What the database should see: a finished block exactly once, right after its last transaction. */
  function Expected(c: Chain, e: Event): seq<Effect> {
    match e
    case Rollback(slot, _) => [CursorRewind(slot), StoreRewind(slot)]
    case _ =>
      match Completes(c, e)
      case Some(k) => [CursorPoint(k), BlockStep(k)]
      case None => []
  }

  function OpeningOf(p: Processor, e: Event): seq<Effect> {
    if e.Block? then Opening(p, e.key) else []
  }

  function OpenCount(c: Chain): map<BlockKey, nat> {
    if c.open.None? then map[] else map[c.open.value.key := c.open.value.remaining]
  }

  /** The bookkeeping says no more than the chain does, and about the open block exactly as much. */
  ghost predicate Tracks(p: Processor, c: Chain) {
    && !p.failed
    && p.counts == OpenCount(c)
    && (forall k :: k in p.processed ==> k in c.complete)
    && WellFormed(c)
  }

  lemma {:induction false} SurvivorsKeepOrder(ks: seq<BlockKey>, slot: uint64, hash: BlockHash)
    requires forall i, j :: 0 <= i < j < |ks| ==> ks[i].slot < ks[j].slot
    ensures var ss := SurvivingBlocks(ks, slot, hash);
            && ss <= ks
            && (forall k :: k in ss <==> k in ks && Survives(k, slot, hash))
  {
    if ks != [] {
      var front, last := ks[..|ks| - 1], ks[|ks| - 1];
      SurvivorsKeepOrder(front, slot, hash);
      assert ks == front + [last];
      if Survives(last, slot, hash) {
        AllSurvive(front, last, slot, hash);
      }
    }
  }

  lemma {:induction false} AllSurvive(ks: seq<BlockKey>, last: BlockKey, slot: uint64, hash: BlockHash)
    requires last.slot <= slot && forall i :: 0 <= i < |ks| ==> ks[i].slot < last.slot
    ensures SurvivingBlocks(ks, slot, hash) == ks
  {
    if ks != [] {
      AllSurvive(ks[..|ks| - 1], last, slot, hash);
    }
  }

  lemma FreshBlockNotProcessed(p: Processor, c: Chain, k: BlockKey)
    requires Tracks(p, c) && Extends(c, k)
    ensures k !in p.processed
  {
  }

  /** Finishing a new block with nothing open: one step, and the collected maps still fit. */
  lemma FinishTracks(p: Processor, c: Chain, k: BlockKey, v: Verdict)
    requires Tracks(p, c) && c.open.None? && Extends(c, k) && v != Broken && v != Agreed(false)
    ensures Finish(p, k, v).1.effects == [BlockStep(k)]
    ensures Tracks(Finish(p, k, v).0, c.(complete := c.complete + [k]))
    ensures Finish(p, k, v).0.lastIndexed == Position(k.slot, k.hash)
  {
    FreshBlockNotProcessed(p, c, k);
    var done := Finish(p, k, v).0;
    assert forall x :: x in done.processed ==> x in p.processed + {k};
    assert done.counts == map[];
  }

  lemma BlockIsExact(p: Processor, c: Chain, k: BlockKey, n: uint64, v: Verdict)
    requires Tracks(p, c) && Fits(c, Block(k, n, v)) && Succeeds(c, Block(k, n, v))
    ensures OnBlock(p, k, n, v).1.effects == Opening(p, k) + Expected(c, Block(k, n, v))
    ensures Tracks(OnBlock(p, k, n, v).0, Advance(c, Block(k, n, v)))
  {
    if n == 0 {
      var q := p.(counts := p.counts[k := n] - {k}, justStarted := false,
                  startSlot := if Offline(p, k) then k.slot else p.startSlot);
      assert q.counts == map[];
      FinishTracks(q, c, k, v);
    }
  }

  lemma TxIsExact(p: Processor, c: Chain, k: BlockKey, ok: bool, v: Verdict)
    requires Tracks(p, c) && Fits(c, Tx(k, ok, v)) && Succeeds(c, Tx(k, ok, v))
    ensures OnTx(p, k, ok, v).1.effects == Expected(c, Tx(k, ok, v))
    ensures Tracks(OnTx(p, k, ok, v).0, Advance(c, Tx(k, ok, v)))
  {
    if c.open.value.remaining <= 1 {
      var q := p.(counts := p.counts - {k});
      assert q.counts == map[];
      FinishTracks(q, c.(open := None), k, v);
    }
  }

  lemma RollbackIsExact(p: Processor, c: Chain, slot: uint64, hash: BlockHash)
    requires Tracks(p, c)
    ensures Tracks(OnRollback(p, slot, hash).0, Advance(c, Rollback(slot, hash)))
  {
    SurvivorsKeepOrder(c.complete, slot, hash);
  }

  /** One event: the effects are the expected ones and the bookkeeping follows the chain. */
  lemma StepIsExact(p: Processor, c: Chain, e: Event)
    requires Tracks(p, c) && Fits(c, e) && Succeeds(c, e)
    ensures Step(p, e).1.effects == OpeningOf(p, e) + Expected(c, e)
    ensures Tracks(Step(p, e).0, Advance(c, e))
  {
    match e
    case Block(k, n, v) => BlockIsExact(p, c, k, n, v);
    case Tx(k, ok, v) => TxIsExact(p, c, k, ok, v);
    case Rollback(slot, hash) => RollbackIsExact(p, c, slot, hash);
    case Status(_, _, _) =>
  }
}
