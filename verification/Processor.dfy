/** The actor as it runs: fields changed in place and the loops over its two maps, proved to take the
    specified step for every event. */
module ProcessorObject {
  import opened Common
  import opened CursorTable
  import opened BlockAccounting

  class ChainEventProcessor {
    var startBlockSlot: uint64
    var justStarted: bool
    var processingFailed: bool
    var progressBar: bool
    var trieRootMismatchCount: nat
    var lastSuccessfullyIndexed: Position
    var processedBlockMap: set<BlockKey>
    var blockTransactionCountMap: map<BlockKey, uint64>

    ghost function State(): Processor
      reads this
    {
      Processor(processedBlockMap, blockTransactionCountMap, processingFailed, justStarted, startBlockSlot,
                progressBar, trieRootMismatchCount, lastSuccessfullyIndexed)
    }

    constructor (start: Position)
      ensures State() == Fresh(start)
    {
      startBlockSlot := start.slot;
      justStarted := true;
      processingFailed := false;
      progressBar := false;
      trieRootMismatchCount := 0;
      lastSuccessfullyIndexed := start;
      processedBlockMap := {};
      blockTransactionCountMap := map[];
    }

    /** Both loops delete while they range over the map, in whatever order it yields its keys. */
    method GarbageCollectOldBlocks(cutoffSlot: uint64)
      modifies this`processedBlockMap, this`blockTransactionCountMap
      ensures State() == CollectOld(old(State()), cutoffSlot)
    {
      var todo := processedBlockMap;
      while todo != {}
        invariant todo <= processedBlockMap <= old(processedBlockMap)
        invariant forall k :: k in old(processedBlockMap) ==>
                    (k in processedBlockMap <==> k in todo || k.slot >= cutoffSlot)
        invariant blockTransactionCountMap == old(blockTransactionCountMap)
        decreases todo
      {
        var k :| k in todo;
        todo := todo - {k};
        if k.slot < cutoffSlot {
          processedBlockMap := processedBlockMap - {k};
        }
      }
      ghost var kept := processedBlockMap;
      var counted := blockTransactionCountMap.Keys;
      while counted != {}
        invariant processedBlockMap == kept
        invariant counted <= blockTransactionCountMap.Keys <= old(blockTransactionCountMap).Keys
        invariant forall k :: k in old(blockTransactionCountMap) ==>
                    (k in blockTransactionCountMap <==> k in counted || k.slot >= cutoffSlot)
        invariant forall k :: k in blockTransactionCountMap ==>
                    blockTransactionCountMap[k] == old(blockTransactionCountMap)[k]
        decreases counted
      {
        var k :| k in counted;
        counted := counted - {k};
        if k.slot < cutoffSlot {
          blockTransactionCountMap := blockTransactionCountMap - {k};
        }
      }
    }

    method ProcessBlockTipReached(k: BlockKey, v: Verdict) returns (out: Output, ok: bool)
      requires v != Syncing
      modifies this`processedBlockMap, this`blockTransactionCountMap, this`trieRootMismatchCount
      ensures Outcome(State(), out, ok) == AtTip(old(State()), k, v)
    {
      GarbageCollectOldBlocks((k.slot - FINALITY_SLOTS) % TWO_64);
      out, ok := Output([BlockStep(k)], None), true;
      if v == Broken {
        ok := false;
      } else if v == Mismatch {
        trieRootMismatchCount := trieRootMismatchCount + 1;
        if trieRootMismatchCount >= 3 {
          out := out.(restart := Some(lastSuccessfullyIndexed));
        }
      } else {
        trieRootMismatchCount := 0;
        ok := v.ok;
      }
    }

    method ProcessBlockEvent(k: BlockKey, v: Verdict) returns (out: Output, ok: bool)
      modifies this`processedBlockMap, this`blockTransactionCountMap, this`trieRootMismatchCount
      ensures Outcome(State(), out, ok) == ProcessBlock(old(State()), k, v)
    {
      if k in processedBlockMap {
        return Output([], None), true;
      }
      processedBlockMap := processedBlockMap + {k};
      if v != Syncing {
        out, ok := ProcessBlockTipReached(k, v);
      } else {
        out, ok := Output([BlockStep(k)], None), true;
      }
    }

    /** The common end of both ways a block completes, under the guard. */
    method CompleteBlock(k: BlockKey, v: Verdict) returns (out: Output)
      modifies this
      ensures (State(), out) == Finish(old(State()), k, v)
    {
      var ok;
      out, ok := ProcessBlockEvent(k, v);
      if ok {
        lastSuccessfullyIndexed := Position(k.slot, k.hash);
      } else {
        processingFailed := true;
      }
    }

    method ReceiveBlock(k: BlockKey, txCount: uint64, v: Verdict) returns (out: Output)
      modifies this
      ensures (State(), out) == Step(old(State()), Block(k, txCount, v))
    {
      var effects: seq<Effect> := [];
      blockTransactionCountMap := blockTransactionCountMap[k := txCount];
      if justStarted {
        if k.slot <= startBlockSlot {
          effects := [CursorRewind(startBlockSlot), StoreRewind(startBlockSlot)];
          startBlockSlot := k.slot;
        }
        justStarted := false;
      }
      out := Output(effects, None);
      if txCount == 0 {
        effects := effects + [CursorPoint(k)];
        blockTransactionCountMap := blockTransactionCountMap - {k};
        out := CompleteBlock(k, v);
        out := out.(effects := effects + out.effects);
      }
    }

    method ReceiveTransaction(k: BlockKey, txOk: bool, v: Verdict) returns (out: Output)
      modifies this
      ensures (State(), out) == Step(old(State()), Tx(k, txOk, v))
      ensures old(processingFailed) ==> State() == old(State()) && out == Output([], None)
      ensures !old(processingFailed) && (!txOk || k !in old(blockTransactionCountMap)) ==>
                processingFailed && out == Output([], None)
                && processedBlockMap == old(processedBlockMap)
                && blockTransactionCountMap == old(blockTransactionCountMap)
      ensures !old(processingFailed) && txOk && k in old(blockTransactionCountMap)
              && old(blockTransactionCountMap)[k] > 1 ==>
                !processingFailed && out == Output([], None)
                && blockTransactionCountMap ==
                     old(blockTransactionCountMap)[k := old(blockTransactionCountMap)[k] - 1]
    {
      out := Output([], None);
      if processingFailed {
        return;
      }
      if !txOk || k !in blockTransactionCountMap {
        processingFailed := true;
        return;
      }
      var cnt := blockTransactionCountMap[k];
      if cnt <= 1 {
        blockTransactionCountMap := blockTransactionCountMap - {k};
        out := CompleteBlock(k, v);
        out := out.(effects := [CursorPoint(k)] + out.effects);
      } else {
        blockTransactionCountMap := blockTransactionCountMap[k := cnt - 1];
      }
    }

    /** Four loops: entries beyond the slot, then entries at the slot with another hash, in each map. */
    method ReceiveRollback(slot: uint64, hash: BlockHash) returns (out: Output)
      modifies this
      ensures (State(), out) == Step(old(State()), Rollback(slot, hash))
    {
      if processingFailed {
        return Output([], None);
      }
      out := Output([CursorRewind(slot), StoreRewind(slot)], None);
      DropProcessed(slot, hash, false);
      DropCounts(slot, hash, false);
      DropProcessed(slot, hash, true);
      DropCounts(slot, hash, true);
      assert processedBlockMap == OnRollback(old(State()), slot, hash).0.processed;
      assert blockTransactionCountMap == OnRollback(old(State()), slot, hash).0.counts;
    }

    /** One pass over the processed blocks: those beyond the slot, or those forked at it. */
    method DropProcessed(slot: uint64, hash: BlockHash, forked: bool)
      modifies this`processedBlockMap
      ensures processedBlockMap == set k | k in old(processedBlockMap) && !Dropped(k, slot, hash, forked)
    {
      var todo := processedBlockMap;
      while todo != {}
        invariant todo <= processedBlockMap <= old(processedBlockMap)
        invariant forall k :: k in old(processedBlockMap) ==>
                    (k in processedBlockMap <==> k in todo || !Dropped(k, slot, hash, forked))
        decreases todo
      {
        var k :| k in todo;
        todo := todo - {k};
        if Dropped(k, slot, hash, forked) {
          processedBlockMap := processedBlockMap - {k};
        }
      }
    }

    method DropCounts(slot: uint64, hash: BlockHash, forked: bool)
      modifies this`blockTransactionCountMap
      ensures blockTransactionCountMap ==
              map k | k in old(blockTransactionCountMap) && !Dropped(k, slot, hash, forked)
                :: old(blockTransactionCountMap)[k]
    {
      var todo := blockTransactionCountMap.Keys;
      while todo != {}
        invariant todo <= blockTransactionCountMap.Keys <= old(blockTransactionCountMap).Keys
        invariant forall k :: k in old(blockTransactionCountMap) ==>
                    (k in blockTransactionCountMap <==> k in todo || !Dropped(k, slot, hash, forked))
        invariant forall k :: k in blockTransactionCountMap ==>
                    blockTransactionCountMap[k] == old(blockTransactionCountMap)[k]
        decreases todo
      {
        var k :| k in todo;
        todo := todo - {k};
        if Dropped(k, slot, hash, forked) {
          blockTransactionCountMap := blockTransactionCountMap - {k};
        }
      }
    }

    method ReceiveStatus(tipReached: bool, tipSlot: uint64, cursorSlot: uint64)
      modifies this
      ensures (State(), Output([], None)) == Step(old(State()), Status(tipReached, tipSlot, cursorSlot))
      ensures startBlockSlot >= old(startBlockSlot)
      ensures startBlockSlot > old(startBlockSlot) ==>
                !tipReached && !old(progressBar) && progressBar && startBlockSlot == cursorSlot
    {
      if !tipReached && tipSlot > startBlockSlot {
        if !progressBar {
          if startBlockSlot < cursorSlot {
            startBlockSlot := cursorSlot;
          }
          progressBar := true;
        }
      } else if tipReached && progressBar {
        progressBar := false;
      }
    }
  }

  predicate Dropped(k: BlockKey, slot: uint64, hash: BlockHash, forked: bool) {
    if forked then k.slot == slot && k.hash != hash else k.slot > slot
  }
}
