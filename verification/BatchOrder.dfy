/** The entries of one oracle file and the order in which ApplyOracleFile executes them. */
module BatchOrder {
  import opened OperationLog

  datatype Entry = Entry(
    objectId: string, rawKey: string, rawValue: string, opType: OpType, seqOrder: nat)

  /** The operation an entry belongs to: one `trie_operation` per type and sequence number. */
  datatype Group = Group(opType: OpType, seqOrder: nat)

  function GroupOf(e: Entry): Group {
    Group(e.opType, e.seqOrder)
  }

  /** The comparison function of the batch sort. */
  predicate GroupLess(a: Group, b: Group) {
    if Rank(a.opType) == Rank(b.opType) then a.seqOrder < b.seqOrder else Rank(a.opType) < Rank(b.opType)
  }

  ghost predicate Sorted(es: seq<Entry>) {
    forall i, j :: 0 <= i < j < |es| ==> !GroupLess(GroupOf(es[j]), GroupOf(es[i]))
  }

  /** Puts `e` behind every entry that is not greater. */
  function Place(es: seq<Entry>, e: Entry): seq<Entry> {
    if es == [] || !GroupLess(GroupOf(e), GroupOf(es[|es| - 1])) then es + [e]
    else Place(es[..|es| - 1], e) + [es[|es| - 1]]
  }

  /** `sort.SliceStable` by type rank, then sequence number. */
  function StableSort(es: seq<Entry>): seq<Entry> {
    if es == [] then [] else Place(StableSort(es[..|es| - 1]), es[|es| - 1])
  }

  /** The entries of one group, in order. */
  ghost function InGroup(es: seq<Entry>, g: Group): seq<Entry> {
    if es == [] then []
    else
      var front := InGroup(es[..|es| - 1], g);
      if GroupOf(es[|es| - 1]) == g then front + [es[|es| - 1]] else front
  }

  lemma {:induction false} PlaceKeepsEntries(es: seq<Entry>, e: Entry)
    ensures multiset(Place(es, e)) == multiset(es) + multiset{e}
  {
    if es != [] && GroupLess(GroupOf(e), GroupOf(es[|es| - 1])) {
      PlaceKeepsEntries(es[..|es| - 1], e);
      assert es == es[..|es| - 1] + [es[|es| - 1]];
    }
  }

  lemma PlaceMembers(es: seq<Entry>, e: Entry)
    ensures forall x :: x in Place(es, e) <==> x == e || x in es
  {
    PlaceKeepsEntries(es, e);
    forall x ensures x in Place(es, e) <==> x == e || x in es {
      assert x in Place(es, e) <==> x in multiset(Place(es, e));
      assert x in es <==> x in multiset(es);
    }
  }

  /** The last entry of a sorted list is not below any other. */
  ghost predicate IsGreatest(es: seq<Entry>, last: Entry) {
    forall x :: x in es ==> !GroupLess(GroupOf(last), GroupOf(x))
  }

  lemma SortedSnoc(es: seq<Entry>, last: Entry)
    ensures Sorted(es + [last]) <==> Sorted(es) && IsGreatest(es, last)
  {
    var s := es + [last];
    if Sorted(s) {
      forall i, j | 0 <= i < j < |es| ensures !GroupLess(GroupOf(es[j]), GroupOf(es[i])) {
        assert s[i] == es[i] && s[j] == es[j];
      }
      forall x | x in es ensures !GroupLess(GroupOf(last), GroupOf(x)) {
        var i :| 0 <= i < |es| && es[i] == x;
        assert s[i] == x && s[|es|] == last;
      }
    }
    if Sorted(es) && IsGreatest(es, last) {
      forall i, j | 0 <= i < j < |s| ensures !GroupLess(GroupOf(s[j]), GroupOf(s[i])) {
        if j == |es| {
          assert es[i] in es;
        }
      }
    }
  }

  lemma {:induction false} PlaceKeepsOrder(es: seq<Entry>, e: Entry)
    requires Sorted(es)
    ensures Sorted(Place(es, e))
  {
    if es == [] {
    } else {
      var front, last := es[..|es| - 1], es[|es| - 1];
      assert es == front + [last];
      SortedSnoc(front, last);
      if GroupLess(GroupOf(e), GroupOf(last)) {
        PlaceKeepsOrder(front, e);
        PlaceMembers(front, e);
        SortedSnoc(Place(front, e), last);
      } else {
        SortedSnoc(es, e);
      }
    }
  }

  lemma InGroupSnoc(es: seq<Entry>, e: Entry, g: Group)
    ensures InGroup(es + [e], g) == InGroup(es, g) + if GroupOf(e) == g then [e] else []
  {
    assert (es + [e])[..|es|] == es;
  }

  lemma {:induction false} PlaceKeepsGroups(es: seq<Entry>, e: Entry, g: Group)
    ensures InGroup(Place(es, e), g) == InGroup(es + [e], g)
  {
    if es != [] && GroupLess(GroupOf(e), GroupOf(es[|es| - 1])) {
      var front, last := es[..|es| - 1], es[|es| - 1];
      PlaceKeepsGroups(front, e, g);
      InGroupSnoc(Place(front, e), last, g);
      InGroupSnoc(front, e, g);
      InGroupSnoc(es, e, g);
    }
  }

  /** The sorted batch is ordered, holds the same entries, and keeps the order inside each group:
      together these determine the result of a stable sort. */
  lemma {:induction false} StableSortIsStable(es: seq<Entry>)
    ensures Sorted(StableSort(es))
    ensures multiset(StableSort(es)) == multiset(es)
    ensures forall g :: InGroup(StableSort(es), g) == InGroup(es, g)
  {
    if es != [] {
      var front, last := es[..|es| - 1], es[|es| - 1];
      var p := StableSort(front);
      StableSortIsStable(front);
      PlaceKeepsOrder(p, last);
      PlaceKeepsEntries(p, last);
      assert es == front + [last];
      forall g ensures InGroup(Place(p, last), g) == InGroup(es, g) {
        PlaceKeepsGroups(p, last, g);
        InGroupSnoc(p, last, g);
        InGroupSnoc(front, last, g);
      }
    }
  }

  /** Inserts run first, then updates, then deletes; among entries of one type the sequence decides. */
  lemma ExecutionOrder(es: seq<Entry>, i: int, j: int)
    requires 0 <= i < j < |StableSort(es)|
    ensures var a, b := StableSort(es)[i], StableSort(es)[j];
            && (a.opType == Insert || b.opType == Delete || (a.opType == Update && b.opType == Update))
            && (a.opType == b.opType ==> a.seqOrder <= b.seqOrder)
  {
    StableSortIsStable(es);
  }

  /** A batch that is in order already is executed as it stands. */
  lemma {:induction false} StableSortOfSorted(es: seq<Entry>)
    requires Sorted(es)
    ensures StableSort(es) == es
  {
    if es != [] {
      var front, last := es[..|es| - 1], es[|es| - 1];
      assert es == front + [last];
      SortedSnoc(front, last);
      StableSortOfSorted(front);
      assert front != [] ==> front[|front| - 1] in front;
    }
  }

  lemma SortedPrefix(es: seq<Entry>, n: nat)
    requires Sorted(es) && n <= |es|
    ensures Sorted(es[..n])
  {
  }
}
