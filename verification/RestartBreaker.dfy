/** The restart circuit breaker of the strategy manager: a sliding window of recent requests against a
    record of all of them. */
module RestartBreaker {
  import opened CursorTable
  import opened BlockAccounting

  /** Clock readings, in nanoseconds. */
  type Time = int

  datatype RestartRecord = RestartRecord(timestamp: Time, reason: string, slot: uint64, hash: BlockHash)

  /** The restart settings: threshold, window length and the configured intercept point. */
  datatype Config = Config(threshold: int, window: Time, intercept: Position)

  /** A request, with the two clock readings its handling takes, and whether an indexer is there. */
  datatype Request = Request(reason: string, target: Position, recordedAt: Time, checkedAt: Time, indexer: bool)

  datatype Decision = Ignored | Partial(position: Position) | FullReset(position: Position)

  function RecordOf(r: Request): RestartRecord {
    RestartRecord(r.recordedAt, r.reason, r.target.slot, r.target.hash)
  }

  /** The records strictly after the cutoff. */
  function After(records: seq<RestartRecord>, cutoff: Time): seq<RestartRecord> {
    if records == [] then []
    else
      var last := records[|records| - 1];
      After(records[..|records| - 1], cutoff) + if last.timestamp > cutoff then [last] else []
  }

  // ---------------------------------------------------------------------------------------------
  // The breaker without forgetting: every accepted request since the last full reset.
  // ---------------------------------------------------------------------------------------------

  /** The accepted requests since the last full reset, none of them dropped. */
  ghost function SinceReset(c: Config, rs: seq<Request>): seq<Request>
    decreases |rs|, 0
  {
    if rs == [] then []
    else
      var front, r := rs[..|rs| - 1], rs[|rs| - 1];
      if !r.indexer then SinceReset(c, front)
      else if Trips(c, front, r) then []
      else SinceReset(c, front) + [r]
  }

  /** The requests of a list that were recorded strictly after the cutoff, by their position. */
  ghost function Recent(all: seq<Request>, cutoff: Time): set<int> {
    set i | 0 <= i < |all| && all[i].recordedAt > cutoff
  }

  /** Whether the accepted requests inside the window, this one among them, reach the threshold. */
  ghost predicate Trips(c: Config, front: seq<Request>, r: Request)
    decreases |front|, 1
  {
    |Recent(SinceReset(c, front) + [r], r.checkedAt - c.window)| >= c.threshold
  }

  // ---------------------------------------------------------------------------------------------
  // The breaker as coded: records outside the window are dropped whenever one is added.
  // ---------------------------------------------------------------------------------------------

  class StrategyManager {
    const config: Config
    var indexerPresent: bool
    var restartHistory: seq<RestartRecord>

    constructor (config: Config)
      ensures this.config == config && restartHistory == [] && !indexerPresent
    {
      this.config := config;
      indexerPresent := false;
      restartHistory := [];
    }

    method CleanupOldRestartRecords(now: Time)
      modifies this`restartHistory
      ensures restartHistory == After(old(restartHistory), now - config.window)
    {
      var cutoff := now - config.window;
      var validRecords: seq<RestartRecord> := [];
      var i := 0;
      while i < |restartHistory|
        invariant 0 <= i <= |restartHistory|
        invariant restartHistory == old(restartHistory)
        invariant validRecords == After(restartHistory[..i], cutoff)
      {
        assert restartHistory[..i + 1][..i] == restartHistory[..i];
        if restartHistory[i].timestamp > cutoff {
          validRecords := validRecords + [restartHistory[i]];
        }
        i := i + 1;
      }
      assert restartHistory[..i] == restartHistory;
      restartHistory := validRecords;
    }

    method AddRestartRecord(record: RestartRecord, checkedAt: Time)
      modifies this`restartHistory
      ensures restartHistory == After(old(restartHistory) + [record], checkedAt - config.window)
    {
      restartHistory := restartHistory + [record];
      CleanupOldRestartRecords(checkedAt);
    }

    method ShouldDoFullReset() returns (full: bool)
      ensures full <==> |restartHistory| >= config.threshold
    {
      full := |restartHistory| >= config.threshold;
    }

    /** The decision part of handleIndexerRestartRequest. */
    method HandleIndexerRestartRequest(r: Request) returns (d: Decision)
      requires r.indexer == indexerPresent
      modifies this`restartHistory
      ensures (restartHistory, d) == Handle(config, old(restartHistory), r)
    {
      if !indexerPresent {
        return Ignored;
      }
      AddRestartRecord(RestartRecord(r.recordedAt, r.reason, r.target.slot, r.target.hash), r.checkedAt);
      var full := ShouldDoFullReset();
      if full {
        d := FullReset(config.intercept);
        restartHistory := [];
      } else {
        d := Partial(r.target);
      }
    }
  }

  function Handle(c: Config, history: seq<RestartRecord>, r: Request): (seq<RestartRecord>, Decision) {
    if !r.indexer then (history, Ignored)
    else
      var recent := After(history + [RecordOf(r)], r.checkedAt - c.window);
      if |recent| >= c.threshold then ([], FullReset(c.intercept)) else (recent, Partial(r.target))
  }

  function History(c: Config, rs: seq<Request>): seq<RestartRecord> {
    if rs == [] then [] else Handle(c, History(c, rs[..|rs| - 1]), rs[|rs| - 1]).0
  }

  // ---------------------------------------------------------------------------------------------
  // The two agree.
  // ---------------------------------------------------------------------------------------------

  /** The clock never goes back, within one request or from one to the next. */
  ghost predicate ClockAdvances(rs: seq<Request>) {
    && (forall i :: 0 <= i < |rs| ==> rs[i].recordedAt <= rs[i].checkedAt)
    && (forall i, j :: 0 <= i < j < |rs| ==> rs[i].checkedAt <= rs[j].recordedAt)
  }

  function RecordsOf(rs: seq<Request>): seq<RestartRecord> {
    seq(|rs|, i requires 0 <= i < |rs| => RecordOf(rs[i]))
  }

  lemma RecentSnoc(all: seq<Request>, r: Request, cutoff: Time)
    ensures |Recent(all + [r], cutoff)| == |Recent(all, cutoff)| + if r.recordedAt > cutoff then 1 else 0
  {
    var more := all + [r];
    assert Recent(more, cutoff) == Recent(all, cutoff) + if r.recordedAt > cutoff then {|all|} else {};
  }

  /** The records kept are as many as the requests recorded after the cutoff. */
  lemma {:induction false} RecentAreKept(all: seq<Request>, cutoff: Time)
    ensures |After(RecordsOf(all), cutoff)| == |Recent(all, cutoff)|
  {
    if all == [] {
      assert Recent(all, cutoff) == {};
    } else {
      var front, r := all[..|all| - 1], all[|all| - 1];
      RecentAreKept(front, cutoff);
      assert all == front + [r] && RecordsOf(all) == RecordsOf(front) + [RecordOf(r)];
      RecentSnoc(front, r, cutoff);
      AfterSnoc(RecordsOf(front), RecordOf(r), cutoff);
    }
  }

  lemma AfterSnoc(records: seq<RestartRecord>, r: RestartRecord, cutoff: Time)
    ensures After(records + [r], cutoff) == After(records, cutoff) + if r.timestamp > cutoff then [r] else []
  {
    assert (records + [r])[..|records|] == records;
  }

  /** Dropping at an earlier cutoff first changes nothing. */
  lemma {:induction false} AfterAfter(records: seq<RestartRecord>, early: Time, late: Time)
    requires early <= late
    ensures After(After(records, early), late) == After(records, late)
  {
    if records != [] {
      var front, last := records[..|records| - 1], records[|records| - 1];
      AfterAfter(front, early, late);
      if last.timestamp > early {
        AfterSnoc(After(front, early), last, late);
      } else {
        assert After(records, early) == After(front, early);
        assert After(records, late) == After(front, late);
      }
    }
  }

  /** The retained history is what lies inside the window as of the last check. */
  ghost predicate InWindow(c: Config, rs: seq<Request>, cutoff: Time) {
    History(c, rs) == After(RecordsOf(SinceReset(c, rs)), cutoff)
  }

  lemma {:induction false} NothingDropped(records: seq<RestartRecord>, cutoff: Time)
    requires forall r :: r in records ==> r.timestamp > cutoff
    ensures After(records, cutoff) == records
  {
    if records != [] {
      assert records[|records| - 1] in records;
      NothingDropped(records[..|records| - 1], cutoff);
    }
  }

  /** Some cutoff no later than the last check describes the retained history. */
  lemma {:induction false} HistoryIsWindow(c: Config, rs: seq<Request>) returns (cutoff: Time)
    requires ClockAdvances(rs)
    ensures InWindow(c, rs, cutoff)
    ensures rs != [] ==> cutoff <= rs[|rs| - 1].checkedAt - c.window
  {
    if rs == [] {
      cutoff := 0;
    } else {
      var front, r := rs[..|rs| - 1], rs[|rs| - 1];
      var earlier := HistoryIsWindow(c, front);
      var now := r.checkedAt - c.window;
      if front == [] && !r.indexer {
        cutoff := now;
      } else if !r.indexer {
        cutoff := earlier;
      } else {
        SameWindow(c, front, r, if front == [] then now else earlier);
        cutoff := now;
      }
    }
  }

  /** What the two breakers see inside the window at a check is the same. */
  lemma SameWindow(c: Config, front: seq<Request>, r: Request, earlier: Time)
    requires InWindow(c, front, earlier) && earlier <= r.checkedAt - c.window
    ensures var now, all := r.checkedAt - c.window, SinceReset(c, front) + [r];
            && After(History(c, front) + [RecordOf(r)], now) == After(RecordsOf(all), now)
            && |After(History(c, front) + [RecordOf(r)], now)| == |Recent(all, now)|
  {
    var now, before := r.checkedAt - c.window, RecordsOf(SinceReset(c, front));
    AfterAfter(before, earlier, now);
    AfterSnoc(History(c, front), RecordOf(r), now);
    AfterSnoc(before, RecordOf(r), now);
    assert RecordsOf(SinceReset(c, front) + [r]) == before + [RecordOf(r)];
    RecentAreKept(SinceReset(c, front) + [r], now);
  }

  /** The breaker refines the unbounded one: over every run with a clock that never goes back, a request
      leads to a full reset exactly when the accepted requests since the last full reset that are still
      inside the window, this one included, number at least the threshold. */
  lemma BreakerRefinesUnboundedHistory(c: Config, rs: seq<Request>, r: Request)
    requires ClockAdvances(rs + [r])
    ensures Handle(c, History(c, rs), r).1 ==
            if !r.indexer then Ignored
            else if Trips(c, rs, r) then FullReset(c.intercept) else Partial(r.target)
  {
    ClockBefore(rs, r);
    var cutoff := HistoryIsWindow(c, rs);
    SameWindow(c, rs, r, if rs == [] then r.checkedAt - c.window else cutoff);
  }

  lemma ClockBefore(rs: seq<Request>, r: Request)
    requires ClockAdvances(rs + [r])
    ensures ClockAdvances(rs)
    ensures rs != [] ==> rs[|rs| - 1].checkedAt <= r.checkedAt
  {
    var all := rs + [r];
    assert all[|rs|] == r && forall i :: 0 <= i < |rs| ==> all[i] == rs[i];
    assert r.recordedAt <= r.checkedAt;
    assert rs != [] ==> all[|rs| - 1].checkedAt <= all[|rs|].recordedAt;
  }

  /** After a handled request fewer records than the threshold remain, unless the threshold is below
      one, when every request is a full reset. */
  lemma HistoryStaysBelowThreshold(c: Config, history: seq<RestartRecord>, r: Request)
    requires r.indexer
    ensures |Handle(c, history, r).0| < c.threshold <==> c.threshold >= 1
    ensures c.threshold < 1 ==> Handle(c, history, r) == ([], FullReset(c.intercept))
  {
  }

  ghost predicate Ordered(all: seq<Request>) {
    forall i, j :: 0 <= i < j < |all| ==> all[i].recordedAt <= all[j].recordedAt
  }

  ghost predicate NoneAfter(all: seq<Request>, now: Time) {
    forall i :: 0 <= i < |all| ==> all[i].recordedAt <= now
  }

  lemma {:induction false} SinceResetIsOrdered(c: Config, rs: seq<Request>)
    requires ClockAdvances(rs)
    ensures Ordered(SinceReset(c, rs))
    ensures if rs == [] then SinceReset(c, rs) == [] else NoneAfter(SinceReset(c, rs), rs[|rs| - 1].checkedAt)
  {
    if rs != [] {
      var front, r := rs[..|rs| - 1], rs[|rs| - 1];
      assert r.recordedAt <= r.checkedAt;
      assert forall i :: 0 <= i < |front| ==> front[i] == rs[i] && front[i].checkedAt <= r.recordedAt;
      SinceResetIsOrdered(c, front);
      assert NoneAfter(SinceReset(c, front), r.recordedAt);
    }
  }

  lemma {:induction false} TailIsCounted(all: seq<Request>, cutoff: Time, i: nat)
    requires i < |all| && all[i].recordedAt > cutoff && Ordered(all)
    ensures |Recent(all, cutoff)| >= |all| - i
  {
    var front, r := all[..|all| - 1], all[|all| - 1];
    assert all == front + [r];
    RecentSnoc(front, r, cutoff);
    if i < |front| {
      TailIsCounted(front, cutoff, i);
    }
  }

  /** Partial restarts are rate-limited: of the requests accepted since the last full reset, any
      `threshold` in a row ending with the latest one span more than the window. */
  lemma PartialRestartsAreRare(c: Config, rs: seq<Request>)
    requires ClockAdvances(rs) && rs != [] && rs[|rs| - 1].indexer && c.threshold >= 1
    requires |SinceReset(c, rs)| >= c.threshold
    ensures SinceReset(c, rs)[|SinceReset(c, rs)| - c.threshold].recordedAt <= rs[|rs| - 1].checkedAt - c.window
  {
    var all, cutoff := SinceReset(c, rs), rs[|rs| - 1].checkedAt - c.window;
    SinceResetIsOrdered(c, rs);
    if all[|all| - c.threshold].recordedAt > cutoff {
      TailIsCounted(all, cutoff, |all| - c.threshold);
    }
  }
}
