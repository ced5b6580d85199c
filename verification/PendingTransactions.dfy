/** The table of submitted but unconfirmed transactions. */
module PendingTransactions {
  import opened Common

  datatype InputKey = InputKey(txId: string, index: nat)

  datatype PendingTxInfo = PendingTxInfo(inputs: set<InputKey>, height: nat)

  type Table = map<string, PendingTxInfo>

  /** How a submission ends.  Expired is the one error that leads to a rebuilt transaction. */
  datatype Answer = Accepted(txHash: string) | Expired | Refused

  /** A built transaction, the node's answer, and the second try if the first one expired. */
  datatype Attempt = Attempt(
    inputs: seq<InputKey>,
    first: Answer,
    rebuilt: Option<seq<InputKey>>,
    second: Answer,
    height: nat)

  datatype Op = Submit(attempt: Attempt) | Confirm(txHash: string) | Expire(height: nat, maxBlocks: nat)

  function InputSet(inputs: seq<InputKey>): set<InputKey> {
    set x | x in inputs
  }

  predicate Conflicts(t: Table, inputs: seq<InputKey>) {
    exists h :: h in t && InputSet(inputs) * t[h].inputs != {}
  }

  function Try(t: Table, inputs: seq<InputKey>, answer: Answer, height: nat): Table {
    if !Conflicts(t, inputs) && answer.Accepted? then t[answer.txHash := PendingTxInfo(InputSet(inputs), height)] else t
  }

  function Submitted(t: Table, a: Attempt): Table {
    if Conflicts(t, a.inputs) then t
    else if a.first.Expired? then
      if a.rebuilt.Some? then Try(t, a.rebuilt.value, a.second, a.height) else t
    else Try(t, a.inputs, a.first, a.height)
  }

  /** More than the allowed number of blocks ago; a height from the future, left by a rollback, is not. */
  predicate TooOld(info: PendingTxInfo, height: nat, maxBlocks: nat) {
    info.height + maxBlocks < height
  }

  function Expired(t: Table, height: nat, maxBlocks: nat): Table {
    map h | h in t && !TooOld(t[h], height, maxBlocks) :: t[h]
  }

  function Apply(t: Table, op: Op): Table {
    match op
    case Submit(a) => Submitted(t, a)
    case Confirm(h) => t - {h}
    case Expire(height, maxBlocks) => Expired(t, height, maxBlocks)
  }

  function Run(ops: seq<Op>): Table {
    if ops == [] then map[] else Apply(Run(ops[..|ops| - 1]), ops[|ops| - 1])
  }

  ghost predicate Disjoint(t: Table) {
    forall g, h :: g in t && h in t && g != h ==> t[g].inputs * t[h].inputs == {}
  }

  lemma TryKeepsDisjoint(t: Table, inputs: seq<InputKey>, answer: Answer, height: nat)
    requires Disjoint(t)
    ensures Disjoint(Try(t, inputs, answer, height))
  {
    var u := Try(t, inputs, answer, height);
    forall g, h | g in u && h in u && g != h
      ensures u[g].inputs * u[h].inputs == {}
    {
      if u != t {
        assert g in t ==> InputSet(inputs) * t[g].inputs == {};
        assert h in t ==> InputSet(inputs) * t[h].inputs == {};
      }
    }
  }

  /** In every reachable table, distinct pending transactions spend distinct inputs. */
  lemma {:induction false} PendingNeverShareInputs(ops: seq<Op>)
    ensures Disjoint(Run(ops))
  {
    if ops != [] {
      var t, last := Run(ops[..|ops| - 1]), ops[|ops| - 1];
      PendingNeverShareInputs(ops[..|ops| - 1]);
      if last.Submit? {
        var a := last.attempt;
        TryKeepsDisjoint(t, a.inputs, a.first, a.height);
        if a.rebuilt.Some? {
          TryKeepsDisjoint(t, a.rebuilt.value, a.second, a.height);
        }
      }
    }
  }

  /** Recording without the check keeps the inputs apart exactly when no other transaction holds one. */
  lemma CheckIsNeeded(t: Table, txHash: string, inputs: set<InputKey>, height: nat)
    requires Disjoint(t)
    ensures Disjoint(t[txHash := PendingTxInfo(inputs, height)])
            <==> forall h :: h in t && h != txHash ==> inputs * t[h].inputs == {}
  {
    var u := t[txHash := PendingTxInfo(inputs, height)];
    if Disjoint(u) {
      forall h | h in t && h != txHash
        ensures inputs * t[h].inputs == {}
      {
        assert u[txHash].inputs * u[h].inputs == {};
      }
    } else {
      var g, h :| g in u && h in u && g != h && u[g].inputs * u[h].inputs != {};
      if g == txHash {
        assert inputs * t[h].inputs != {};
      } else if h == txHash {
        assert inputs * t[g].inputs == t[g].inputs * inputs;
      }
    }
  }

  /** A cleanup that ends a run leaves exactly the entries submitted at most `maxBlocks` earlier, and a
      second cleanup at the same or a lower height finds nothing. */
  lemma CleanupIsExact(ops: seq<Op>, height: nat, maxBlocks: nat, lower: nat)
    requires lower <= height
    ensures var t, u := Run(ops), Run(ops + [Expire(height, maxBlocks)]);
            && (forall h :: h in u <==> h in t && t[h].height + maxBlocks >= height)
            && (forall h :: h in u ==> u[h] == t[h])
            && Run(ops + [Expire(height, maxBlocks)] + [Expire(lower, maxBlocks)]) == u
  {
    var once := ops + [Expire(height, maxBlocks)];
    assert once[..|ops|] == ops;
    assert (once + [Expire(lower, maxBlocks)])[..|once|] == once;
    assert Expired(Run(once), lower, maxBlocks) == Run(once);
  }

  // ---- What is recorded, and how long it stays ----

  /** The inputs that go to the node last: those of the rebuilt transaction if the first try expired. */
  function FinalInputs(a: Attempt): seq<InputKey> {
    if a.first.Expired? && a.rebuilt.Some? then a.rebuilt.value else a.inputs
  }

  /** No input is held by a pending transaction. */
  ghost predicate Free(t: Table, inputs: seq<InputKey>) {
    forall i, h :: 0 <= i < |inputs| && h in t ==> inputs[i] !in t[h].inputs
  }

  /** The node accepts the transaction in the end, and every check before that finds its inputs free. */
  ghost predicate Succeeds(t: Table, a: Attempt) {
    && Free(t, a.inputs)
    && (if a.first.Expired? then a.rebuilt.Some? && Free(t, a.rebuilt.value) && a.second.Accepted?
        else a.first.Accepted?)
  }

  function AcceptedHash(a: Attempt): string
    requires if a.first.Expired? then a.second.Accepted? else a.first.Accepted?
  {
    if a.first.Expired? then a.second.txHash else a.first.txHash
  }

  lemma FreeMeansNoConflict(t: Table, inputs: seq<InputKey>)
    ensures Conflicts(t, inputs) <==> !Free(t, inputs)
  {
    if Conflicts(t, inputs) {
      var h :| h in t && InputSet(inputs) * t[h].inputs != {};
      var x :| x in InputSet(inputs) * t[h].inputs;
      var i :| 0 <= i < |inputs| && inputs[i] == x;
    }
    if !Free(t, inputs) {
      var i, h :| 0 <= i < |inputs| && h in t && inputs[i] in t[h].inputs;
      assert inputs[i] in InputSet(inputs) * t[h].inputs;
    }
  }

  /** An attempt adds the accepted transaction, with the inputs sent last and the height, exactly when it
      succeeds; otherwise the table stays as it is. */
  lemma AttemptRecords(t: Table, a: Attempt)
    ensures Succeeds(t, a) ==>
              Apply(t, Submit(a)) == t[AcceptedHash(a) := PendingTxInfo((set x | x in FinalInputs(a)), a.height)]
    ensures !Succeeds(t, a) ==> Apply(t, Submit(a)) == t
  {
    FreeMeansNoConflict(t, a.inputs);
    if a.rebuilt.Some? {
      FreeMeansNoConflict(t, a.rebuilt.value);
    }
  }

  /** Confirmation takes out the transaction and no other. */
  lemma ConfirmRemoves(t: Table, txHash: string, h: string)
    ensures Lookup(Apply(t, Confirm(txHash)), h) == if h == txHash then None else Lookup(t, h)
  {
  }

  /** The operation does not end or replace the entry: it is no confirmation of the transaction, no
      expiry that finds it too old, and no accepted submission under the same hash. */
  ghost predicate Leaves(op: Op, txHash: string, height: nat) {
    match op
    case Confirm(h) => h != txHash
    case Expire(now, maxBlocks) => height + maxBlocks >= now
    case Submit(a) =>
      (if a.first.Expired? then a.second.Accepted? else a.first.Accepted?) ==> AcceptedHash(a) != txHash
  }

  lemma {:induction false} RunConcat(ops: seq<Op>, more: seq<Op>, op: Op)
    ensures Run(ops + more + [op]) == Apply(Run(ops + more), op)
  {
    assert (ops + more + [op])[..|ops + more|] == ops + more;
  }

  /** After any run, a transaction that was accepted and has neither been confirmed nor expired nor
      replaced since is in the table with its inputs, and an attempt that would spend one of them again
      changes nothing. */
  lemma {:induction false} AcceptedStays(ops: seq<Op>, a: Attempt, more: seq<Op>)
    requires Succeeds(Run(ops), a)
    requires forall i :: 0 <= i < |more| ==> Leaves(more[i], AcceptedHash(a), a.height)
    ensures Lookup(Run(ops + [Submit(a)] + more), AcceptedHash(a))
            == Some(PendingTxInfo((set x | x in FinalInputs(a)), a.height))
    ensures forall b: Attempt :: (exists x :: x in b.inputs && x in FinalInputs(a)) ==>
              Apply(Run(ops + [Submit(a)] + more), Submit(b)) == Run(ops + [Submit(a)] + more)
  {
    var before := ops + [Submit(a)];
    if more == [] {
      assert before + [] == before && before[..|ops|] == ops;
      AttemptRecords(Run(ops), a);
    } else {
      var n := |more| - 1;
      AcceptedStays(ops, a, more[..n]);
      assert before + more == before + more[..n] + [more[n]];
      RunConcat(before, more[..n], more[n]);
      var info := PendingTxInfo((set x | x in FinalInputs(a)), a.height);
      EntryStays(Run(before + more[..n]), more[n], AcceptedHash(a), info);
    }
    forall b: Attempt | exists x :: x in b.inputs && x in FinalInputs(a)
      ensures Apply(Run(before + more), Submit(b)) == Run(before + more)
    {
      var x :| x in b.inputs && x in FinalInputs(a);
      HeldInputRefuses(Run(before + more), b, AcceptedHash(a), x);
    }
  }

  lemma EntryStays(t: Table, op: Op, txHash: string, info: PendingTxInfo)
    requires Lookup(t, txHash) == Some(info) && Leaves(op, txHash, info.height)
    ensures Lookup(Apply(t, op), txHash) == Some(info)
  {
    if op.Submit? {
      AttemptRecords(t, op.attempt);
    }
  }

  lemma HeldInputRefuses(t: Table, b: Attempt, txHash: string, x: InputKey)
    requires x in b.inputs && txHash in t && x in t[txHash].inputs
    ensures Apply(t, Submit(b)) == t
  {
    var i :| 0 <= i < |b.inputs| && b.inputs[i] == x;
    assert !Free(t, b.inputs);
    AttemptRecords(t, b);
  }

  class PendingTransactionTable {
    var pendingTxInputs: Table

    constructor ()
      ensures pendingTxInputs == map[]
    {
      pendingTxInputs := map[];
    }

    /** For each input, every pending transaction in the map's own order until one holds it. */
    method CheckInputConflicts(inputs: seq<InputKey>) returns (conflict: bool, txHash: string)
      ensures conflict <==> Conflicts(pendingTxInputs, inputs)
      ensures conflict ==> txHash in pendingTxInputs && InputSet(inputs) * pendingTxInputs[txHash].inputs != {}
    {
      var i := 0;
      while i < |inputs|
        invariant 0 <= i <= |inputs|
        invariant forall j, h :: 0 <= j < i && h in pendingTxInputs ==> inputs[j] !in pendingTxInputs[h].inputs
      {
        var todo := pendingTxInputs.Keys;
        while todo != {}
          invariant todo <= pendingTxInputs.Keys
          invariant forall h :: h in pendingTxInputs && h !in todo ==> inputs[i] !in pendingTxInputs[h].inputs
          decreases todo
        {
          var h :| h in todo;
          if inputs[i] in pendingTxInputs[h].inputs {
            assert inputs[i] in InputSet(inputs) * pendingTxInputs[h].inputs;
            return true, h;
          }
          todo := todo - {h};
        }
        i := i + 1;
      }
      return false, "";
    }

    method AddPendingTransaction(txHash: string, inputs: set<InputKey>, blockHeight: nat)
      modifies this
      ensures pendingTxInputs == old(pendingTxInputs)[txHash := PendingTxInfo(inputs, blockHeight)]
    {
      pendingTxInputs := pendingTxInputs[txHash := PendingTxInfo(inputs, blockHeight)];
    }

    method RemovePendingTransaction(txHash: string)
      modifies this
      ensures pendingTxInputs == Apply(old(pendingTxInputs), Confirm(txHash))
      ensures txHash !in pendingTxInputs
      ensures forall h :: h != txHash ==> Lookup(pendingTxInputs, h) == Lookup(old(pendingTxInputs), h)
    {
      pendingTxInputs := pendingTxInputs - {txHash};
    }

    /** Deletes while ranging over the map, and returns what it deleted. */
    method CleanupOldPendingTransactions(currentBlockHeight: nat, maxBlocks: nat) returns (removed: seq<string>)
      modifies this
      ensures pendingTxInputs == Apply(old(pendingTxInputs), Expire(currentBlockHeight, maxBlocks))
      ensures forall h :: h in removed <==> h in old(pendingTxInputs) && h !in pendingTxInputs
    {
      removed := [];
      var todo := pendingTxInputs.Keys;
      while todo != {}
        invariant todo <= pendingTxInputs.Keys <= old(pendingTxInputs).Keys
        invariant forall h :: h in pendingTxInputs ==> pendingTxInputs[h] == old(pendingTxInputs)[h]
        invariant forall h :: h in old(pendingTxInputs) ==>
                    (h in pendingTxInputs
                     <==> h in todo || !TooOld(old(pendingTxInputs)[h], currentBlockHeight, maxBlocks))
        invariant forall h :: h in removed <==> h in old(pendingTxInputs) && h !in pendingTxInputs
        decreases todo
      {
        var h :| h in todo;
        todo := todo - {h};
        var submitted := pendingTxInputs[h].height;
        if currentBlockHeight > submitted && currentBlockHeight - submitted > maxBlocks {
          pendingTxInputs := pendingTxInputs - {h};
          removed := removed + [h];
        }
      }
    }

    /** The end of processBlockTipReached: check, submit, rebuild and check again if the first try
        expired, and record what the node accepted. */
    method SubmitAndRecord(a: Attempt)
      modifies this
      ensures pendingTxInputs == Apply(old(pendingTxInputs), Submit(a))
      ensures pendingTxInputs ==
              if Succeeds(old(pendingTxInputs), a)
              then old(pendingTxInputs)[AcceptedHash(a) := PendingTxInfo((set x | x in FinalInputs(a)), a.height)]
              else old(pendingTxInputs)
    {
      AttemptRecords(pendingTxInputs, a);
      var inputs, answer := a.inputs, a.first;
      var conflict, other := CheckInputConflicts(inputs);
      if conflict {
        return;
      }
      if answer.Expired? {
        if a.rebuilt.None? {
          return;
        }
        inputs := a.rebuilt.value;
        conflict, other := CheckInputConflicts(inputs);
        if conflict {
          return;
        }
        answer := a.second;
      }
      if answer.Accepted? {
        AddPendingTransaction(answer.txHash, InputSet(inputs), a.height);
      }
    }
  }
}
