/** The chain-sync cursor: one row per finalised block, pruned now and then, cut back by rollbacks. */
module CursorTable {
  import opened Common

  /** Chain points carry the block hash as bytes; the text form is its hex. */
  type BlockHash = seq<byte>

  datatype Point = Point(slot: nat, hash: BlockHash)

  datatype CursorRow = CursorRow(id: nat, point: Point)

  /** The table in insertion order, and the next value of its serial key. */
  datatype Cursor = Cursor(rows: seq<CursorRow>, nextId: nat)

  const MAX_CURSOR_ENTRIES := 50

  ghost predicate IdsUp(rows: seq<CursorRow>) {
    forall i, j :: 0 <= i < j < |rows| ==> rows[i].id < rows[j].id
  }

  ghost predicate IdsAscend(c: Cursor) {
    && IdsUp(c.rows)
    && (forall i :: 0 <= i < |c.rows| ==> c.rows[i].id < c.nextId)
  }

  ghost predicate SlotsAscend(rows: seq<CursorRow>) {
    forall i, j :: 0 <= i < j < |rows| ==> rows[i].point.slot < rows[j].point.slot
  }

  function MaxId(rows: seq<CursorRow>): (m: nat)
    requires rows != []
  {
    var last := rows[|rows| - 1];
    if |rows| == 1 then last.id
    else
      var m := MaxId(rows[..|rows| - 1]);
      if m < last.id then last.id else m
  }

  /** The rows a DELETE ... WHERE id < low leaves. */
  function FromId(rows: seq<CursorRow>, low: int): seq<CursorRow> {
    if rows == [] then []
    else
      var last := rows[|rows| - 1];
      FromId(rows[..|rows| - 1], low) + if last.id < low then [] else [last]
  }

  /** The rows a DELETE ... WHERE slot > s leaves. */
  function UpToSlot(rows: seq<CursorRow>, s: nat): seq<CursorRow> {
    if rows == [] then []
    else
      var last := rows[|rows| - 1];
      UpToSlot(rows[..|rows| - 1], s) + if last.point.slot > s then [] else [last]
  }

  /** AddCursorPoint; `prune` is the one-in-a-hundred draw. */
  function Add(c: Cursor, p: Point, prune: bool): Cursor {
    var rows := c.rows + [CursorRow(c.nextId, p)];
    Cursor(if prune then FromId(rows, MaxId(rows) - MAX_CURSOR_ENTRIES) else rows, c.nextId + 1)
  }

  function Rewind(c: Cursor, s: nat): Cursor {
    c.(rows := UpToSlot(c.rows, s))
  }

  /** SELECT ... ORDER BY id DESC, on a table whose ids ascend with insertion. */
  function Points(c: Cursor): (ps: seq<Point>)
    ensures |ps| == |c.rows|
  {
    seq(|c.rows|, i requires 0 <= i < |c.rows| => c.rows[|c.rows| - 1 - i].point)
  }

  lemma {:induction false} MaxIdIsLast(rows: seq<CursorRow>)
    requires rows != [] && IdsUp(rows)
    ensures MaxId(rows) == rows[|rows| - 1].id
  {
    if |rows| > 1 {
      MaxIdIsLast(rows[..|rows| - 1]);
    }
  }

  lemma {:induction false} AllBelow(rows: seq<CursorRow>, low: int)
    requires forall i :: 0 <= i < |rows| ==> rows[i].id < low
    ensures FromId(rows, low) == []
  {
    if rows != [] {
      AllBelow(rows[..|rows| - 1], low);
    }
  }

  lemma SuffixSnoc(front: seq<CursorRow>, last: CursorRow, n: nat)
    requires n <= |front|
    ensures (front + [last])[n..] == front[n..] + [last]
  {
  }

  ghost predicate SplitAt(rows: seq<CursorRow>, low: int, n: nat) {
    && n <= |rows|
    && (forall i :: 0 <= i < n ==> rows[i].id < low)
    && (forall i :: n <= i < |rows| ==> rows[i].id >= low)
  }

  lemma {:induction false} FromIdIsSuffix(rows: seq<CursorRow>, low: int) returns (n: nat)
    requires IdsUp(rows)
    ensures SplitAt(rows, low, n) && FromId(rows, low) == rows[n..]
  {
    if rows == [] {
      n := 0;
    } else if rows[|rows| - 1].id < low {
      AllBelow(rows, low);
      n := |rows|;
    } else {
      var front, last := rows[..|rows| - 1], rows[|rows| - 1];
      n := FromIdIsSuffix(front, low);
      assert rows == front + [last];
      SuffixSnoc(front, last, n);
    }
  }

  lemma {:induction false} AllUpTo(rows: seq<CursorRow>, s: nat)
    requires forall i :: 0 <= i < |rows| ==> rows[i].point.slot <= s
    ensures UpToSlot(rows, s) == rows
  {
    if rows != [] {
      AllUpTo(rows[..|rows| - 1], s);
    }
  }

  lemma {:induction false} UpToSlotIsPrefix(rows: seq<CursorRow>, s: nat) returns (n: nat)
    requires SlotsAscend(rows)
    ensures n <= |rows| && UpToSlot(rows, s) == rows[..n]
    ensures forall i :: 0 <= i < n ==> rows[i].point.slot <= s
    ensures forall i :: n <= i < |rows| ==> rows[i].point.slot > s
  {
    if rows == [] {
      n := 0;
    } else if rows[|rows| - 1].point.slot <= s {
      AllUpTo(rows, s);
      n := |rows|;
    } else {
      n := UpToSlotIsPrefix(rows[..|rows| - 1], s);
      assert rows[..|rows| - 1][..n] == rows[..n];
    }
  }

  /** A DELETE by slot keeps the order of the rest, whatever the slots are. */
  lemma {:induction false} UpToSlotKeepsIds(rows: seq<CursorRow>, s: nat)
    requires IdsUp(rows)
    ensures IdsUp(UpToSlot(rows, s))
    ensures forall r :: r in UpToSlot(rows, s) <==> r in rows && r.point.slot <= s
  {
    if rows != [] {
      var front, last := rows[..|rows| - 1], rows[|rows| - 1];
      UpToSlotKeepsIds(front, s);
      var kept := UpToSlot(front, s);
      assert rows == front + [last];
      forall i | 0 <= i < |kept|
        ensures kept[i].id < last.id
      {
        assert kept[i] in front;
      }
    }
  }

  function Reversed(rows: seq<CursorRow>): seq<Point> {
    Points(Cursor(rows, 0))
  }

  lemma PointsOfSuffix(rows: seq<CursorRow>, n: nat)
    requires n <= |rows|
    ensures Reversed(rows[n..]) == Reversed(rows)[..|rows| - n]
  {
  }

  lemma PointsOfPrefix(rows: seq<CursorRow>, n: nat)
    requires n <= |rows|
    ensures Reversed(rows[..n]) == Reversed(rows)[|rows| - n..]
  {
  }

  /** The rows before pruning. */
  function Inserted(c: Cursor, p: Point): seq<CursorRow> {
    c.rows + [CursorRow(c.nextId, p)]
  }

  lemma InsertedAscends(c: Cursor, p: Point)
    requires IdsAscend(c)
    ensures IdsUp(Inserted(c, p))
    ensures MaxId(Inserted(c, p)) == c.nextId
    ensures Reversed(Inserted(c, p)) == [p] + Points(c)
  {
    MaxIdIsLast(Inserted(c, p));
  }

  lemma AddIsSuffix(c: Cursor, p: Point, prune: bool) returns (n: nat)
    requires IdsAscend(c)
    ensures n <= |c.rows| && Add(c, p, prune).rows == Inserted(c, p)[n..]
    ensures if prune then SplitAt(Inserted(c, p), c.nextId - MAX_CURSOR_ENTRIES, n) else n == 0
  {
    InsertedAscends(c, p);
    if prune {
      n := FromIdIsSuffix(Inserted(c, p), c.nextId - MAX_CURSOR_ENTRIES);
      assert Inserted(c, p)[|c.rows|].id == c.nextId;
    } else {
      n := 0;
    }
  }

  lemma SuffixAscends(c: Cursor, p: Point, n: nat)
    requires IdsAscend(c) && n <= |c.rows|
    ensures IdsAscend(Cursor(Inserted(c, p)[n..], c.nextId + 1))
  {
  }

  /** Adding a point newer than every kept one: it becomes the head; pruning only drops from the tail. */
  lemma AddedPointLeads(c: Cursor, p: Point, prune: bool)
    requires IdsAscend(c) && SlotsAscend(c.rows)
    requires forall i :: 0 <= i < |c.rows| ==> c.rows[i].point.slot < p.slot
    ensures IdsAscend(Add(c, p, prune)) && SlotsAscend(Add(c, p, prune).rows)
    ensures Points(Add(c, p, prune)) != [] && Points(Add(c, p, prune)) <= [p] + Points(c)
    ensures !prune ==> Points(Add(c, p, prune)) == [p] + Points(c)
  {
    var n := AddIsSuffix(c, p, prune);
    SuffixAscends(c, p, n);
    InsertedAscends(c, p);
    PointsOfSuffix(Inserted(c, p), n);
  }

  /** Rewinding drops from the head exactly the points above the slot. */
  lemma RewindDropsHead(c: Cursor, s: nat)
    requires IdsAscend(c) && SlotsAscend(c.rows)
    ensures IdsAscend(Rewind(c, s)) && SlotsAscend(Rewind(c, s).rows)
    ensures |Points(Rewind(c, s))| <= |Points(c)|
    ensures Points(Rewind(c, s)) == Points(c)[|Points(c)| - |Points(Rewind(c, s))|..]
    ensures forall i :: 0 <= i < |Points(c)| ==>
              (Points(c)[i].slot <= s <==> i >= |Points(c)| - |Points(Rewind(c, s))|)
  {
    var n := UpToSlotIsPrefix(c.rows, s);
    PointsOfPrefix(c.rows, n);
  }

  ghost predicate ConsecutiveIds(c: Cursor) {
    && |c.rows| <= c.nextId
    && forall i :: 0 <= i < |c.rows| ==> c.rows[i].id == c.nextId - |c.rows| + i
  }

  /** Every added row takes the next id, so as long as nothing is deleted from the head no gap appears. */
  lemma IdsStayConsecutive(c: Cursor, p: Point, prune: bool)
    requires ConsecutiveIds(c)
    ensures ConsecutiveIds(Add(c, p, prune))
  {
    var n := AddIsSuffix(c, p, prune);
  }

  /** Pruning keeps one row more than the limit: with no gap in the ids, the newest 51. */
  lemma PruningKeepsFiftyOne(c: Cursor, p: Point)
    requires ConsecutiveIds(c)
    ensures |Points(Add(c, p, true))| == if |c.rows| < 50 then |c.rows| + 1 else 51
    ensures Points(Add(c, p, true)) <= [p] + Points(c)
  {
    var n := AddIsSuffix(c, p, true);
    InsertedAscends(c, p);
    PointsOfSuffix(Inserted(c, p), n);
    PrunedRows(c, p, n);
  }

  /** The rows that pruning drops, when ids have no gap. */
  lemma PrunedRows(c: Cursor, p: Point, n: nat)
    requires ConsecutiveIds(c) && n <= |c.rows|
    requires SplitAt(Inserted(c, p), c.nextId - MAX_CURSOR_ENTRIES, n)
    ensures n == if |c.rows| < 50 then 0 else |c.rows| - 50
  {
    assert 0 < n ==> Inserted(c, p)[n - 1] == c.rows[n - 1];
    assert n < |c.rows| ==> Inserted(c, p)[n] == c.rows[n];
  }

  class CursorObject {
    var rows: seq<CursorRow>
    var nextId: nat

    ghost function State(): Cursor
      reads this
    {
      Cursor(rows, nextId)
    }

    constructor ()
      ensures State() == Cursor([], 1)
    {
      rows := [];
      nextId := 1;
    }

    method AddCursorPoint(point: Point, prune: bool)
      modifies this
      ensures State() == Add(old(State()), point, prune)
    {
      rows := rows + [CursorRow(nextId, point)];
      nextId := nextId + 1;
      if prune {
        rows := FromId(rows, MaxId(rows) - MAX_CURSOR_ENTRIES);
      }
    }

    method RollbackCursor(slot: nat)
      modifies this
      ensures State() == Rewind(old(State()), slot)
    {
      rows := UpToSlot(rows, slot);
    }

    method GetCursorPoints() returns (ps: seq<Point>)
      ensures ps == Points(State())
    {
      ps := [];
      while |ps| < |rows|
        invariant |ps| <= |rows| && ps == Points(State())[..|ps|]
      {
        ps := ps + [rows[|rows| - 1 - |ps|].point];
      }
    }
  }
}
