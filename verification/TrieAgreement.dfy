/** The in-memory trie and the log apply one batch in two loops.  They agree exactly when entries
    that repeat an operation and key repeat its value: the trie keeps the last such entry, the
    tables keep the first. */
module TrieAgreement {
  import opened Common
  import opened OperationLog
  import opened BatchOrder
  import opened VersionedStore
  import opened BatchWrites

  /** Index of the last entry for a key, or -1. */
  ghost function LastIndex(h: Hash, es: seq<Entry>, k: Digest): (i: int)
    ensures -1 <= i < |es|
    ensures i >= 0 ==> EntryKey(h, es[i]) == k
    ensures forall j :: i < j < |es| ==> EntryKey(h, es[j]) != k
  {
    if es == [] then -1
    else if EntryKey(h, es[|es| - 1]) == k then |es| - 1
    else LastIndex(h, es[..|es| - 1], k)
  }

  ghost predicate Repeats(h: Hash, a: Entry, b: Entry) {
    GroupOf(a) == GroupOf(b) && EntryKey(h, a) == EntryKey(h, b)
  }

  /** `i` is the first entry for its operation and key. */
  ghost predicate IsFirst(h: Hash, es: seq<Entry>, i: int)
    requires 0 <= i < |es|
  {
    forall m :: 0 <= m < i ==> !Repeats(h, es[m], es[i])
  }

  /** The entry the trie ends up with for a key has the value of the entry the tables keep. */
  ghost predicate DuplicatesAgree(h: Hash, es: seq<Entry>) {
    forall i, j :: 0 <= i <= j < |es| && Repeats(h, es[i], es[j]) && IsFirst(h, es, i)
                   && LastIndex(h, es, EntryKey(h, es[j])) == j
                   ==> EntryValue(h, es[i]) == EntryValue(h, es[j])
  }

  /** Each operation and key occurs once: what the consumer of a published file always produces. */
  ghost predicate NoRepeats(h: Hash, es: seq<Entry>) {
    forall i, j :: 0 <= i < j < |es| ==> !Repeats(h, es[i], es[j])
  }

  lemma NoRepeatsAgree(h: Hash, es: seq<Entry>)
    requires NoRepeats(h, es)
    ensures DuplicatesAgree(h, es)
  {
  }

  lemma TrieStepLookup(h: Hash, run: TrieRun, e: Entry, k: Digest)
    requires !TrieStep(h, run, e).failed
    ensures !run.failed && (e.opType != Delete ==> EntryValue(h, e).Some?)
    ensures Lookup(TrieStep(h, run, e).trie, k)
            == if EntryKey(h, e) == k then EntryValue(h, e) else Lookup(run.trie, k)
  {
  }

  lemma {:induction false} TrieFoldLookup(h: Hash, m: map<Digest, Digest>, es: seq<Entry>, k: Digest)
    requires !TrieFold(h, m, es).failed
    ensures var i := LastIndex(h, es, k);
            Lookup(TrieFold(h, m, es).trie, k) == if i < 0 then Lookup(m, k) else EntryValue(h, es[i])
  {
    if es != [] {
      var front, e := es[..|es| - 1], es[|es| - 1];
      TrieStepLookup(h, TrieFold(h, m, front), e, k);
      TrieFoldLookup(h, m, front, k);
    }
  }

  lemma {:induction false} CommittedIsHashable(h: Hash, m: map<Digest, Digest>, es: seq<Entry>)
    requires !TrieFold(h, m, es).failed
    ensures Hashable(h, es)
  {
    if es != [] {
      var front, e := es[..|es| - 1], es[|es| - 1];
      TrieStepLookup(h, TrieFold(h, m, front), e, EntryKey(h, e));
      CommittedIsHashable(h, m, front);
      assert es == front + [e];
    }
  }

  lemma GroupsSqueezed(a: Group, b: Group)
    requires !GroupLess(a, b) && !GroupLess(b, a)
    ensures a == b
  {
    assert Rank(a.opType) == Rank(b.opType);
  }

  /** The last row of a key comes from the first entry that names the key's last operation. */
  lemma {:induction false} LastRowIsFirstOfGroup(
      h: Hash, trieId: int, slot: int, ids: map<Group, int>, es: seq<Entry>, k: Digest) returns (i: int)
    requires forall e :: e in es ==> GroupOf(e) in ids
    requires Sorted(es)
    ensures var j := LastIndex(h, es, k);
            var last := Last(BatchRows(h, trieId, slot, ids, es), k);
            if j < 0 then last == None && i == -1
            else && 0 <= i <= j && Repeats(h, es[i], es[j]) && IsFirst(h, es, i)
                 && GroupOf(es[i]) in ids && last == Some(RowOf(h, trieId, slot, ids, es[i]))
  {
    i := -1;
    if es != [] {
      var n := |es| - 1;
      var front, e := es[..n], es[n];
      SortedPrefix(es, n);
      i := LastRowIsFirstOfGroup(h, trieId, slot, ids, front, k);
      if (GroupOf(e), EntryKey(h, e)) in EmittedBy(h, front) {
        if EntryKey(h, e) == k {
          RepeatedEntry(h, es, k);
        }
        PrefixFirst(h, es, n, i);
      } else {
        AppendedRow(BatchRows(h, trieId, slot, ids, front), RowOf(h, trieId, slot, ids, e), k);
        if EntryKey(h, e) == k {
          i := n;
          NewEntryIsFirst(h, es);
        } else {
          PrefixFirst(h, es, n, i);
        }
      }
    }
  }

  lemma AppendedRow(rows: seq<LogRow>, row: LogRow, k: Digest)
    ensures Last(rows + [row], k) == if row.keyHash == k then Some(row) else Last(rows, k)
  {
    assert (rows + [row])[..|rows|] == rows;
  }

  /** Being first only looks at what comes before. */
  lemma PrefixFirst(h: Hash, es: seq<Entry>, n: int, i: int)
    requires 0 <= n <= |es| && -1 <= i < n
    ensures i >= 0 && IsFirst(h, es[..n], i) ==> IsFirst(h, es, i)
  {
    if i >= 0 && IsFirst(h, es[..n], i) {
      forall m | 0 <= m < i ensures !Repeats(h, es[m], es[i]) {
        assert es[..n][m] == es[m] && es[..n][i] == es[i];
      }
    }
  }

  lemma NewEntryIsFirst(h: Hash, es: seq<Entry>)
    requires es != []
    requires (GroupOf(es[|es| - 1]), EntryKey(h, es[|es| - 1])) !in EmittedBy(h, es[..|es| - 1])
    ensures IsFirst(h, es, |es| - 1)
  {
    var n := |es| - 1;
    forall m | 0 <= m < n ensures !Repeats(h, es[m], es[n]) {
      assert es[..n][m] == es[m];
      assert (GroupOf(es[..n][m]), EntryKey(h, es[..n][m])) in EmittedBy(h, es[..n]);
    }
  }

  /** In a sorted batch, when the last entry repeats an earlier one, the last earlier entry for its
      key belongs to the same operation. */
  lemma RepeatedEntry(h: Hash, es: seq<Entry>, k: Digest)
    requires es != [] && Sorted(es) && EntryKey(h, es[|es| - 1]) == k
    requires (GroupOf(es[|es| - 1]), k) in EmittedBy(h, es[..|es| - 1])
    ensures var j := LastIndex(h, es[..|es| - 1], k);
            j >= 0 && Repeats(h, es[j], es[|es| - 1])
  {
    var n := |es| - 1;
    var front := es[..n];
    var d :| 0 <= d < n && GroupOf(front[d]) == GroupOf(es[n]) && EntryKey(h, front[d]) == k;
    var j := LastIndex(h, front, k);
    assert d <= j;
    assert es[d] == front[d] && es[j] == front[j];
    assert !GroupLess(GroupOf(es[n]), GroupOf(es[j]));
    assert d < j ==> !GroupLess(GroupOf(es[j]), GroupOf(es[d]));
    GroupsSqueezed(GroupOf(es[j]), GroupOf(es[n]));
  }

  /** The trie and the log agree after a committed batch exactly when repeated entries do. */
  lemma TrieTracksLog(h: Hash, trieId: int, slot: int, ids: map<Group, int>, m: map<Digest, Digest>, es: seq<Entry>)
    requires forall e :: e in es ==> GroupOf(e) in ids
    requires Sorted(es) && !TrieFold(h, m, es).failed
    ensures TrieFold(h, m, es).trie == Replay(m, BatchRows(h, trieId, slot, ids, es)) <==> DuplicatesAgree(h, es)
  {
    var trie, rows := TrieFold(h, m, es).trie, BatchRows(h, trieId, slot, ids, es);
    if DuplicatesAgree(h, es) {
      forall k ensures Lookup(trie, k) == Lookup(Replay(m, rows), k) {
        TrieFoldLookup(h, m, es, k);
        ReplayLookup(m, rows, k);
        var i := LastRowIsFirstOfGroup(h, trieId, slot, ids, es, k);
      }
      EqualLookups(trie, Replay(m, rows));
    }
    if trie == Replay(m, rows) {
      forall i, j | 0 <= i <= j < |es| && Repeats(h, es[i], es[j]) && IsFirst(h, es, i)
                    && LastIndex(h, es, EntryKey(h, es[j])) == j
        ensures EntryValue(h, es[i]) == EntryValue(h, es[j])
      {
        var k := EntryKey(h, es[j]);
        TrieFoldLookup(h, m, es, k);
        ReplayLookup(m, rows, k);
        var f := LastRowIsFirstOfGroup(h, trieId, slot, ids, es, k);
        FirstIsUnique(h, es, i, f);
      }
    }
  }

  lemma FirstIsUnique(h: Hash, es: seq<Entry>, i: int, f: int)
    requires 0 <= i < |es| && 0 <= f < |es| && IsFirst(h, es, i) && IsFirst(h, es, f)
    requires Repeats(h, es[i], es[f])
    ensures i == f
  {
    assert Repeats(h, es[f], es[i]);
  }

  /** Disagreement happens: two inserts of one key under one sequence number, with two values. */
  lemma RepeatedInsertDisagrees(h: Hash, es: seq<Entry>)
    requires h("true") != h("false")
    requires es == [Entry("o", "k", "true", Insert, 0), Entry("o", "k", "false", Insert, 0)]
    ensures !DuplicatesAgree(h, es)
  {
    LiteralsAreCanonical(h);
    assert EntryValue(h, es[0]) != EntryValue(h, es[1]);
    FirstOfTwo(h, es);
  }

  lemma LiteralsAreCanonical(h: Hash)
    ensures RawValueHash(h, "true") == Some(h("true"))
    ensures RawValueHash(h, "false") == Some(h("false"))
  {
  }

  lemma FirstOfTwo(h: Hash, es: seq<Entry>)
    requires |es| == 2 && Repeats(h, es[0], es[1])
    ensures IsFirst(h, es, 0) && LastIndex(h, es, EntryKey(h, es[1])) == 1
  {
  }
}
