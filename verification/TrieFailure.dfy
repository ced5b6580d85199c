/** When the trie loop of a batch fails, and what a failed batch leaves in the trie. */
module TrieFailure {
  import opened Common
  import opened OperationLog
  import opened BatchOrder
  import opened VersionedStore
  import opened BatchWrites
  import opened TrieAgreement

  /** The key of entry `i` is live when the loop reaches it: the last earlier entry for it is not a
      delete, or there is none and the trie held it from the start. */
  ghost predicate LiveBefore(h: Hash, m: map<Digest, Digest>, es: seq<Entry>, i: int)
    requires 0 <= i < |es|
  {
    var k := EntryKey(h, es[i]);
    var j := LastIndex(h, es[..i], k);
    if j < 0 then k in m else es[j].opType != Delete
  }

  /** Every value can be hashed, and every delete finds its key. */
  ghost predicate Executable(h: Hash, m: map<Digest, Digest>, es: seq<Entry>) {
    && Hashable(h, es)
    && forall i :: 0 <= i < |es| && es[i].opType == Delete ==> LiveBefore(h, m, es, i)
  }

  lemma LiveBeforeSnoc(h: Hash, m: map<Digest, Digest>, front: seq<Entry>, e: Entry, i: int)
    requires 0 <= i < |front|
    ensures LiveBefore(h, m, front + [e], i) == LiveBefore(h, m, front, i)
  {
    assert (front + [e])[..i] == front[..i];
  }

  lemma HashableSnoc(h: Hash, front: seq<Entry>, e: Entry)
    ensures Hashable(h, front + [e]) <==> Hashable(h, front) && (e.opType != Delete ==> EntryValue(h, e).Some?)
  {
    assert forall x :: x in front + [e] <==> x in front || x == e;
  }

  lemma ExecutableSnoc(h: Hash, m: map<Digest, Digest>, front: seq<Entry>, e: Entry)
    ensures Executable(h, m, front + [e]) <==>
            && Executable(h, m, front)
            && (if e.opType == Delete then LiveBefore(h, m, front + [e], |front|) else EntryValue(h, e).Some?)
  {
    var es := front + [e];
    HashableSnoc(h, front, e);
    forall i | 0 <= i < |front|
      ensures es[i] == front[i] && LiveBefore(h, m, es, i) == LiveBefore(h, m, front, i)
    {
      LiveBeforeSnoc(h, m, front, e, i);
    }
  }

  /** After entries that execute, a key is in the trie exactly when it is live before the next one. */
  lemma ReachedLive(h: Hash, m: map<Digest, Digest>, front: seq<Entry>, e: Entry)
    requires !TrieFold(h, m, front).failed
    ensures EntryKey(h, e) in TrieFold(h, m, front).trie <==> LiveBefore(h, m, front + [e], |front|)
  {
    var k := EntryKey(h, e);
    assert (front + [e])[..|front|] == front;
    TrieFoldLookup(h, m, front, k);
    CommittedIsHashable(h, m, front);
    var j := LastIndex(h, front, k);
    assert j >= 0 ==> front[j] in front;
  }

  /** The trie loop gets through exactly the batches whose values hash and whose deletes find their key. */
  lemma {:induction false} FailsExactlyWhen(h: Hash, m: map<Digest, Digest>, es: seq<Entry>)
    ensures !TrieFold(h, m, es).failed <==> Executable(h, m, es)
  {
    if es != [] {
      var front, e := es[..|es| - 1], es[|es| - 1];
      assert es == front + [e];
      FailsExactlyWhen(h, m, front);
      ExecutableSnoc(h, m, front, e);
      if !TrieFold(h, m, front).failed {
        ReachedLive(h, m, front, e);
      }
    }
  }

  lemma {:induction false} FailureIsFinal(h: Hash, trie: map<Digest, Digest>, es: seq<Entry>, n: nat)
    requires n <= |es| && TrieFold(h, trie, es[..n]).failed
    ensures TrieFold(h, trie, es) == TrieFold(h, trie, es[..n])
  {
    if n == |es| {
      assert es[..n] == es;
    } else {
      var last := |es| - 1;
      assert es[..last][..n] == es[..n];
      FailureIsFinal(h, trie, es[..last], n);
    }
  }

  /** How many entries the loop gets through. */
  ghost function Reached(h: Hash, m: map<Digest, Digest>, es: seq<Entry>): (n: nat)
    ensures n <= |es|
  {
    if es == [] then 0
    else
      var n := Reached(h, m, es[..|es| - 1]);
      if n == |es| - 1 && Executable(h, m, es) then |es| else n
  }

  lemma ExecutablePrefix(h: Hash, m: map<Digest, Digest>, es: seq<Entry>)
    requires es != [] && Executable(h, m, es)
    ensures Executable(h, m, es[..|es| - 1])
  {
    assert es == es[..|es| - 1] + [es[|es| - 1]];
    ExecutableSnoc(h, m, es[..|es| - 1], es[|es| - 1]);
  }

  lemma {:induction false} ReachedAll(h: Hash, m: map<Digest, Digest>, es: seq<Entry>)
    ensures Reached(h, m, es) == |es| <==> Executable(h, m, es)
  {
    if es != [] && Executable(h, m, es) {
      ExecutablePrefix(h, m, es);
      ReachedAll(h, m, es[..|es| - 1]);
    }
  }

  lemma {:induction false} ReachedExecutes(h: Hash, m: map<Digest, Digest>, es: seq<Entry>)
    ensures Executable(h, m, es[..Reached(h, m, es)])
  {
    var n := Reached(h, m, es);
    if n == |es| {
      ReachedAll(h, m, es);
      assert es[..n] == es;
    } else {
      ReachedExecutes(h, m, es[..|es| - 1]);
      assert es[..|es| - 1][..n] == es[..n];
    }
  }

  /** No longer prefix is executable. */
  lemma {:induction false} ReachedIsLongest(h: Hash, m: map<Digest, Digest>, es: seq<Entry>, k: nat)
    requires Reached(h, m, es) < k <= |es|
    ensures !Executable(h, m, es[..k])
  {
    if k == |es| {
      ReachedAll(h, m, es);
      assert es[..k] == es;
    } else {
      ReachedIsLongest(h, m, es[..|es| - 1], k);
      assert es[..|es| - 1][..k] == es[..k];
    }
  }

  /** The last of these entries for each key puts back what the trie held. */
  ghost predicate PutsBack(h: Hash, m: map<Digest, Digest>, es: seq<Entry>) {
    forall i :: 0 <= i < |es| && LastIndex(h, es, EntryKey(h, es[i])) == i
                ==> EntryValue(h, es[i]) == Lookup(m, EntryKey(h, es[i]))
  }

  /** Entries that execute leave the trie as it was exactly when they put everything back. */
  lemma UnchangedExactlyWhen(h: Hash, m: map<Digest, Digest>, es: seq<Entry>)
    requires !TrieFold(h, m, es).failed
    ensures TrieFold(h, m, es).trie == m <==> PutsBack(h, m, es)
  {
    var trie := TrieFold(h, m, es).trie;
    if PutsBack(h, m, es) {
      forall k
        ensures Lookup(trie, k) == Lookup(m, k)
      {
        TrieFoldLookup(h, m, es, k);
      }
      EqualLookups(trie, m);
    }
    if trie == m {
      forall i | 0 <= i < |es| && LastIndex(h, es, EntryKey(h, es[i])) == i
        ensures EntryValue(h, es[i]) == Lookup(m, EntryKey(h, es[i]))
      {
        TrieFoldLookup(h, m, es, EntryKey(h, es[i]));
      }
    }
  }

  /** A failed batch leaves in the trie what the entries before the first failing one did, and so
      leaves it alone exactly when those put everything back. */
  lemma FailedBatchLeaves(h: Hash, m: map<Digest, Digest>, es: seq<Entry>)
    requires !Executable(h, m, es)
    ensures var n := Reached(h, m, es);
            && n < |es|
            && TrieFold(h, m, es) == TrieRun(TrieFold(h, m, es[..n]).trie, true)
            && (TrieFold(h, m, es).trie == m <==> PutsBack(h, m, es[..n]))
  {
    var n := Reached(h, m, es);
    ReachedAll(h, m, es);
    ReachedExecutes(h, m, es);
    ReachedIsLongest(h, m, es, n + 1);
    FailsExactlyWhen(h, m, es[..n]);
    FailsExactlyWhen(h, m, es[..n + 1]);
    assert es[..n + 1][..n] == es[..n];
    FailureIsFinal(h, m, es, n + 1);
    UnchangedExactlyWhen(h, m, es[..n]);
  }
}
