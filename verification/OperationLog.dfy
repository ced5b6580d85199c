/** The operation log as the queries see it: one row per `trie_operation_key`, joined with its
    `trie_operation` and `trie`, in the order in which the rows were inserted.

    The module relates four readings of the log: replaying it, asking for the last row of a key,
    and the two SQL orderings (the one of the as-of query and the one of the rollback). */
module OperationLog {
  import opened Common

  datatype OpType = Insert | Update | Delete

  /** The CASE expression of both SQL queries, and the sort rank of ApplyOracleFile. */
  function Rank(t: OpType): nat {
    match t
    case Insert => 1
    case Update => 2
    case Delete => 3
  }

  datatype LogRow = LogRow(
    slot: int, trieId: int, opType: OpType, seqOrder: nat, opId: int,
    keyHash: Digest, valueHash: Option<Digest>)

  /** What a row leaves behind for its key: nothing after a delete. */
  function Effect(row: LogRow): Option<Digest> {
    if row.opType == Delete then None else row.valueHash
  }

  function EffectOf(row: Option<LogRow>): Option<Digest> {
    if row.None? then None else Effect(row.value)
  }

  // ---- Replaying the log ----

  function ReplayRow(m: map<Digest, Digest>, row: LogRow): map<Digest, Digest> {
    match Effect(row)
    case None => m - {row.keyHash}
    case Some(v) => m[row.keyHash := v]
  }

  function Replay(m: map<Digest, Digest>, rows: seq<LogRow>): map<Digest, Digest> {
    if rows == [] then m
    else ReplayRow(Replay(m, rows[..|rows| - 1]), rows[|rows| - 1])
  }

  /** The live map of a log: the result of applying every row in order to an empty store. */
  function Live(rows: seq<LogRow>): map<Digest, Digest> {
    Replay(map[], rows)
  }

  /** The row of `k` that was inserted last. */
  function Last(rows: seq<LogRow>, k: Digest): Option<LogRow> {
    if rows == [] then None
    else if rows[|rows| - 1].keyHash == k then Some(rows[|rows| - 1])
    else Last(rows[..|rows| - 1], k)
  }

  lemma {:induction false} LastIsInLog(rows: seq<LogRow>, k: Digest) returns (i: nat)
    ensures Last(rows, k).None? ==> forall j :: 0 <= j < |rows| ==> rows[j].keyHash != k
    ensures Last(rows, k).Some? ==>
              i < |rows| && rows[i] == Last(rows, k).value && rows[i].keyHash == k
              && forall j :: i < j < |rows| ==> rows[j].keyHash != k
  {
    i := 0;
    if rows != [] {
      var n := |rows| - 1;
      if rows[n].keyHash == k {
        i := n;
      } else {
        i := LastIsInLog(rows[..n], k);
      }
    }
  }

  lemma {:induction false} ReplayLookup(m: map<Digest, Digest>, rows: seq<LogRow>, k: Digest)
    ensures Lookup(Replay(m, rows), k)
            == if Last(rows, k).None? then Lookup(m, k) else EffectOf(Last(rows, k))
  {
    if rows != [] {
      ReplayLookup(m, rows[..|rows| - 1], k);
    }
  }

  lemma {:induction false} ReplayConcat(m: map<Digest, Digest>, a: seq<LogRow>, b: seq<LogRow>)
    ensures Replay(m, a + b) == Replay(Replay(m, a), b)
  {
    if b == [] {
      assert a + b == a;
    } else {
      var n := |b| - 1;
      assert (a + b)[..|a + b| - 1] == a + b[..n];
      ReplayConcat(m, a, b[..n]);
    }
  }

  // ---- Slots ----

  /** The rows at or before a slot: `WHERE t.slot <= ?`. */
  function UpTo(rows: seq<LogRow>, slot: int): seq<LogRow> {
    if rows == [] then []
    else
      var front := UpTo(rows[..|rows| - 1], slot);
      if rows[|rows| - 1].slot <= slot then front + [rows[|rows| - 1]] else front
  }

  ghost predicate SlotsNondecreasing(rows: seq<LogRow>) {
    forall i, j :: 0 <= i < j < |rows| ==> rows[i].slot <= rows[j].slot
  }

  /** In a log in slot order, the rows at or before a slot are a prefix. */
  lemma {:induction false} UpToIsPrefix(rows: seq<LogRow>, slot: int) returns (n: nat)
    requires SlotsNondecreasing(rows)
    ensures n <= |rows| && UpTo(rows, slot) == rows[..n]
    ensures forall i :: 0 <= i < |rows| ==> (rows[i].slot <= slot <==> i < n)
  {
    if rows == [] {
      n := 0;
    } else {
      var last := |rows| - 1;
      n := UpToIsPrefix(rows[..last], slot);
      assert rows[..last][..n] == rows[..n];
      if rows[last].slot <= slot {
        assert rows[..last] + [rows[last]] == rows;
        n := |rows|;
      }
    }
  }

  lemma {:induction false} UpToMembers(rows: seq<LogRow>, slot: int)
    ensures forall r :: r in UpTo(rows, slot) <==> r in rows && r.slot <= slot
  {
    if rows != [] {
      var front, last := rows[..|rows| - 1], rows[|rows| - 1];
      UpToMembers(front, slot);
      assert rows == front + [last];
    }
  }

  lemma {:induction false} UpToAll(rows: seq<LogRow>, slot: int)
    requires forall r :: r in rows ==> r.slot <= slot
    ensures UpTo(rows, slot) == rows
  {
    if rows != [] {
      UpToAll(rows[..|rows| - 1], slot);
      assert rows[..|rows| - 1] + [rows[|rows| - 1]] == rows;
    }
  }

  lemma {:induction false} UpToNone(rows: seq<LogRow>, slot: int)
    requires forall r :: r in rows ==> r.slot > slot
    ensures UpTo(rows, slot) == []
  {
    if rows != [] {
      assert rows[|rows| - 1] in rows;
      UpToNone(rows[..|rows| - 1], slot);
    }
  }

  lemma {:induction false} UpToUpTo(rows: seq<LogRow>, a: int, b: int)
    ensures UpTo(UpTo(rows, a), b) == UpTo(rows, if a <= b then a else b)
  {
    if rows != [] {
      var front, last := rows[..|rows| - 1], rows[|rows| - 1];
      UpToUpTo(front, a, b);
      if last.slot <= a {
        assert (UpTo(front, a) + [last])[..|UpTo(front, a) + [last]| - 1] == UpTo(front, a);
      }
    }
  }

  lemma {:induction false} UpToConcat(a: seq<LogRow>, b: seq<LogRow>, slot: int)
    ensures UpTo(a + b, slot) == UpTo(a, slot) + UpTo(b, slot)
  {
    if b == [] {
      assert a + b == a;
    } else {
      var n := |b| - 1;
      assert (a + b)[..|a + b| - 1] == a + b[..n];
      UpToConcat(a, b[..n], slot);
    }
  }

  // ---- SELECT DISTINCT ON (key_hash) ... ORDER BY ... ----

  /** The order of the as-of query (ascending; the query sorts descending and takes the first). */
  predicate QueryLess(a: LogRow, b: LogRow) {
    || a.slot < b.slot
    || (a.slot == b.slot &&
        (|| a.trieId < b.trieId
         || (a.trieId == b.trieId && WithinBatchLess(a, b))))
  }

  /** The order of rollback_to_slot: the same, without the tie-break on the trie row. */
  predicate RollbackLess(a: LogRow, b: LogRow) {
    a.slot < b.slot || (a.slot == b.slot && WithinBatchLess(a, b))
  }

  predicate WithinBatchLess(a: LogRow, b: LogRow) {
    || Rank(a.opType) < Rank(b.opType)
    || (Rank(a.opType) == Rank(b.opType) &&
        (|| a.seqOrder < b.seqOrder
         || (a.seqOrder == b.seqOrder && a.opId < b.opId)))
  }

  /** The greatest row of `k` in an ordering: what DISTINCT ON keeps. */
  function Pick(rows: seq<LogRow>, less: (LogRow, LogRow) -> bool, k: Digest): Option<LogRow> {
    if rows == [] then None
    else
      var best := Pick(rows[..|rows| - 1], less, k);
      var last := rows[|rows| - 1];
      if last.keyHash != k then best
      else if best.None? || less(best.value, last) then Some(last)
      else best
  }

  lemma {:induction false} PickIsInLog(rows: seq<LogRow>, less: (LogRow, LogRow) -> bool, k: Digest)
    ensures Pick(rows, less, k).Some? ==>
              Pick(rows, less, k).value in rows && Pick(rows, less, k).value.keyHash == k
    ensures Pick(rows, less, k).None? <==> forall r :: r in rows ==> r.keyHash != k
  {
    if rows != [] {
      var front, last := rows[..|rows| - 1], rows[|rows| - 1];
      PickIsInLog(front, less, k);
      assert rows == front + [last];
    }
  }

  /** The row DISTINCT ON keeps is a maximum of the rollback ordering. */
  lemma {:induction false} PickIsMaximum(rows: seq<LogRow>, k: Digest)
    ensures forall r :: r in rows && r.keyHash == k ==>
              var best := Pick(rows, RollbackLess, k);
              best.Some? && !RollbackLess(best.value, r)
  {
    if rows != [] {
      var front, last := rows[..|rows| - 1], rows[|rows| - 1];
      PickIsMaximum(front, k);
      assert rows == front + [last];
    }
  }

  /** If the row inserted last is above every earlier row of its key, the ordering picks it. */
  lemma {:induction false} PickIsLast(rows: seq<LogRow>, less: (LogRow, LogRow) -> bool, k: Digest)
    requires forall i, j :: 0 <= i < j < |rows| && rows[i].keyHash == k && LastOfKey(rows, j, k)
                            ==> less(rows[i], rows[j])
    ensures Pick(rows, less, k) == Last(rows, k)
  {
    if rows != [] {
      var n := |rows| - 1;
      if rows[n].keyHash == k {
        assert LastOfKey(rows, n, k);
        PickIsInLog(rows[..n], less, k);
      } else {
        forall i, j | 0 <= i < j < n && rows[..n][i].keyHash == k && LastOfKey(rows[..n], j, k)
          ensures less(rows[..n][i], rows[..n][j])
        {
          assert LastOfKey(rows, j, k) by {
            assert forall m :: j < m < n ==> rows[..n][m] == rows[m];
          }
        }
        PickIsLast(rows[..n], less, k);
      }
    }
  }

  ghost predicate LastOfKey(rows: seq<LogRow>, j: int, k: Digest)
    requires 0 <= j < |rows|
  {
    rows[j].keyHash == k && forall m :: j < m < |rows| ==> rows[m].keyHash != k
  }

  /** The strict log order: of two rows of one key, the later one is greater for the as-of query. */
  ghost predicate QueryOrdered(rows: seq<LogRow>) {
    forall i, j :: 0 <= i < j < |rows| && rows[i].keyHash == rows[j].keyHash
                   ==> QueryLess(rows[i], rows[j])
  }

  /** Every operation belongs to one trie row. */
  ghost predicate OperationsHaveOneTrie(rows: seq<LogRow>) {
    forall i, j :: 0 <= i < j < |rows| && rows[i].opId == rows[j].opId
                   ==> rows[i].trieId == rows[j].trieId
  }

  /** Of the rows a key has at one slot, the last one is the greatest in the rollback ordering.
      Batches at distinct slots always satisfy this; two batches at one slot may not. */
  ghost predicate SlotTiesResolved(rows: seq<LogRow>) {
    forall i, j :: 0 <= i < j < |rows| && rows[i].keyHash == rows[j].keyHash
                   && rows[i].slot == rows[j].slot && LastOfItsSlot(rows, j)
                   ==> RollbackLess(rows[i], rows[j])
  }

  ghost predicate LastOfItsSlot(rows: seq<LogRow>, j: int)
    requires 0 <= j < |rows|
  {
    forall m :: j < m < |rows| ==> rows[m].keyHash != rows[j].keyHash || rows[m].slot != rows[j].slot
  }

  /** The as-of query finds the row inserted last at or before the slot. */
  lemma AsOfPickIsLast(rows: seq<LogRow>, slot: int, k: Digest)
    requires QueryOrdered(rows) && SlotsNondecreasing(rows)
    ensures Pick(UpTo(rows, slot), QueryLess, k) == Last(UpTo(rows, slot), k)
  {
    var n := UpToIsPrefix(rows, slot);
    PickIsLast(rows[..n], QueryLess, k);
  }

  ghost predicate RollbackPicksLast(rows: seq<LogRow>, slot: int, k: Digest) {
    Pick(UpTo(rows, slot), RollbackLess, k) == Last(UpTo(rows, slot), k)
  }

  /** The rollback's ordering finds, for every key and every cutoff, the row inserted last exactly
      when ties inside a slot are resolved in insertion order. */
  lemma RollbackPickIsLast(rows: seq<LogRow>)
    requires QueryOrdered(rows) && SlotsNondecreasing(rows) && OperationsHaveOneTrie(rows)
    ensures (forall slot, k :: RollbackPicksLast(rows, slot, k)) <==> SlotTiesResolved(rows)
  {
    if SlotTiesResolved(rows) {
      forall slot, k ensures RollbackPicksLast(rows, slot, k) {
        ResolvedTiesPickLast(rows, slot, k);
      }
    }
    if forall slot, k :: RollbackPicksLast(rows, slot, k) {
      forall i, j | 0 <= i < j < |rows| && rows[i].keyHash == rows[j].keyHash
                    && rows[i].slot == rows[j].slot && LastOfItsSlot(rows, j)
        ensures RollbackLess(rows[i], rows[j])
      {
        PickingLastResolvesTie(rows, i, j);
      }
    }
  }

  lemma ResolvedTiesPickLast(rows: seq<LogRow>, slot: int, k: Digest)
    requires SlotsNondecreasing(rows) && SlotTiesResolved(rows)
    ensures RollbackPicksLast(rows, slot, k)
  {
    var n := UpToIsPrefix(rows, slot);
    forall i, j | 0 <= i < j < n && rows[..n][i].keyHash == k && LastOfKey(rows[..n], j, k)
      ensures RollbackLess(rows[..n][i], rows[..n][j])
    {
      assert rows[i].slot <= rows[j].slot;
      if rows[i].slot == rows[j].slot {
        forall m | j < m < |rows|
          ensures rows[m].keyHash != rows[j].keyHash || rows[m].slot != rows[j].slot
        {
          if m < n {
            assert rows[..n][m].keyHash != k;
          }
        }
        assert LastOfItsSlot(rows, j);
      }
    }
    PickIsLast(rows[..n], RollbackLess, k);
  }

  lemma PickingLastResolvesTie(rows: seq<LogRow>, i: int, j: int)
    requires QueryOrdered(rows) && SlotsNondecreasing(rows) && OperationsHaveOneTrie(rows)
    requires 0 <= i < j < |rows| && rows[i].keyHash == rows[j].keyHash
    requires rows[i].slot == rows[j].slot && LastOfItsSlot(rows, j)
    requires RollbackPicksLast(rows, rows[j].slot, rows[j].keyHash)
    ensures RollbackLess(rows[i], rows[j])
  {
    var slot, k := rows[j].slot, rows[j].keyHash;
    var n := UpToIsPrefix(rows, slot);
    assert rows[..n][i] == rows[i] && rows[..n][j] == rows[j];
    var last := LastIsInLog(rows[..n], k);
    assert last == j;
    PickIsMaximum(rows[..n], k);
    assert rows[..n][i] in rows[..n];
    assert !RollbackLess(rows[j], rows[i]);
    assert QueryLess(rows[i], rows[j]);
  }
}
