/** The change poller (`delta_thread`): each iteration obtains a cursor if
    it has none, asks for the changes after it, and on success hands the
    batch to every registered watch. Its two loop variables, the cursor and
    the pending-reset flag, form a small state machine. */
module Poller {
  import opened Types
  import opened Handles
  import opened Routing

  /** The loop variables `cursor` and `needs_reset`. */
  datatype PollerState = PollerState(cursor: Option<Cursor>, needsReset: bool)

  /** The thread starts with no cursor and a reset pending. */
  const Initial: PollerState := PollerState(None, true)

  /** A successful answer of the continue call: changed entries (tombstones
      included), the cursor after them, and whether more are waiting. */
  datatype Batch = Batch(entries: seq<Metadata>, cursor: Cursor, hasMore: bool)

  /** The continue call's answer: a batch, the error saying the cursor is no
      longer valid, or any other failure. */
  datatype Fetch = Fetched(batch: Batch) | InvalidCursor | OtherError

  /** Everything one iteration consumes: the latest-cursor call's answer
      (`None` when it fails; only asked when there is no cursor), the
      continue call's answer, and the registry snapshot taken after it. */
  datatype Round = Round(latest: Option<Cursor>, fetch: Fetch, watches: seq<Watch>)

  /** The cursor the iteration continues from, if it gets one. */
  function ContinueFrom(s: PollerState, latest: Option<Cursor>): Option<Cursor>
  {
    if s.cursor.Some? then s.cursor else latest
  }

  /** The iteration reaches the delivery loop. */
  predicate Delivers(s: PollerState, r: Round)
  {
    ContinueFrom(s, r.latest).Some? && r.fetch.Fetched?
  }

  /** The loop variables after one iteration. A failed latest-cursor call
      changes nothing; a batch leaves its cursor and clears the pending
      reset; an invalid cursor is dropped and a reset becomes pending; any
      other failure keeps whichever cursor the iteration had obtained. */
  function Step(s: PollerState, r: Round): (next: PollerState)
    ensures Inv(s) ==> Inv(next)
    ensures s.needsReset && !next.needsReset ==> Delivers(s, r)
  {
    match ContinueFrom(s, r.latest)
    case None => s
    case Some(c) =>
      match r.fetch
      case Fetched(b) => PollerState(Some(b.cursor), false)
      case InvalidCursor => PollerState(None, true)
      case OtherError => PollerState(Some(c), s.needsReset)
  }

  /** The callback calls one iteration makes. */
  function Delivered(s: PollerState, r: Round): seq<Event>
  {
    if Delivers(s, r) then CycleLog(r.watches, r.fetch.batch.entries, s.needsReset) else []
  }

  /** The loop variables after a run of iterations. */
  function Final(s: PollerState, rounds: seq<Round>): PollerState
    decreases |rounds|
  {
    if rounds == [] then s else Final(Step(s, rounds[0]), rounds[1..])
  }

  /** Every callback call of a run of iterations, in order. */
  function RunLog(s: PollerState, rounds: seq<Round>): (log: seq<Event>)
    ensures (forall i :: 0 <= i < |rounds| ==> !rounds[i].fetch.Fetched?) ==> log == []
    decreases |rounds|
  {
    if rounds == [] then []
    else
      assert forall i :: 0 <= i < |rounds| - 1 ==> rounds[1..][i] == rounds[i + 1];
      Delivered(s, rounds[0]) + RunLog(Step(s, rounds[0]), rounds[1..])
  }

  /** The poller's safety invariant: without a cursor, a reset is pending. */
  predicate Inv(s: PollerState)
  {
    s.cursor.None? ==> s.needsReset
  }

  // ---------------------------------------------------------------------
  // One iteration

  /** A batch clears the pending reset and moves to its cursor; an invalid
      cursor is dropped and a reset becomes pending; any other failure keeps
      the pending flag and a cursor the thread already had (a cursor it has
      just obtained is kept too); only a delivering iteration calls back. */
  lemma StepOutcomes(s: PollerState, r: Round)
    ensures Delivers(s, r) ==> Step(s, r) == PollerState(Some(r.fetch.batch.cursor), false)
    ensures ContinueFrom(s, r.latest).Some? && r.fetch.InvalidCursor? ==> Step(s, r) == PollerState(None, true)
    ensures r.fetch.OtherError? ==>
              Step(s, r).needsReset == s.needsReset && Step(s, r).cursor == ContinueFrom(s, r.latest)
    ensures s.cursor.Some? && r.fetch.OtherError? ==> Step(s, r) == s
    ensures ContinueFrom(s, r.latest).None? ==> Step(s, r) == s
    ensures !Delivers(s, r) ==> Delivered(s, r) == []
  {
  }

  /** When a reset is pending, the iteration that delivers announces it to
      every watch of its snapshot, once each. */
  lemma PendingResetAnnounced(s: PollerState, r: Round)
    requires s.needsReset && Delivers(s, r)
    ensures Resets(Delivered(s, r)) == |r.watches|
    ensures forall i :: 0 <= i < |r.watches| ==> ResetSignal(r.watches[i].cb) in Delivered(s, r)
  {
    CycleLogResets(r.watches, r.fetch.batch.entries, s.needsReset);
    forall i | 0 <= i < |r.watches|
      ensures ResetSignal(r.watches[i].cb) in Delivered(s, r)
    {
      var batch := r.fetch.batch.entries;
      CycleLogSplit(r.watches, i, batch, true);
      assert WatchEvents(r.watches[i], batch, true)[0] == ResetSignal(r.watches[i].cb);
    }
  }

  // ---------------------------------------------------------------------
  // Runs of iterations

  lemma {:induction false} RunAppend(s: PollerState, a: seq<Round>, b: seq<Round>)
    ensures Final(s, a + b) == Final(Final(s, a), b)
    ensures RunLog(s, a + b) == RunLog(s, a) + RunLog(Final(s, a), b)
    decreases |a|
  {
    if a == [] {
      assert a + b == b;
    } else {
      assert (a + b)[0] == a[0];
      assert (a + b)[1..] == a[1..] + b;
      RunAppend(Step(s, a[0]), a[1..], b);
    }
  }

  /** The invariant holds after any run that starts where it holds. */
  lemma {:induction false} RunKeepsInv(s: PollerState, rounds: seq<Round>)
    requires Inv(s)
    ensures Inv(Final(s, rounds))
    decreases |rounds|
  {
    if rounds != [] {
      RunKeepsInv(Step(s, rounds[0]), rounds[1..]);
    }
  }

  /** Failures keep a pending reset pending and call no callback. */
  lemma {:induction false} FailuresKeepResetPending(s: PollerState, rounds: seq<Round>)
    requires s.needsReset
    requires forall i :: 0 <= i < |rounds| ==> !rounds[i].fetch.Fetched?
    ensures Final(s, rounds).needsReset && RunLog(s, rounds) == []
    decreases |rounds|
  {
    if rounds != [] {
      assert !rounds[0].fetch.Fetched?;
      FailuresKeepResetPending(Step(s, rounds[0]), rounds[1..]);
    }
  }

  /** Once the reset is announced, no further reset is announced until the
      cursor is reported invalid again. */
  lemma {:induction false} NoResetWithoutInvalidation(s: PollerState, rounds: seq<Round>)
    requires !s.needsReset
    requires forall i :: 0 <= i < |rounds| ==> !rounds[i].fetch.InvalidCursor?
    ensures !Final(s, rounds).needsReset && Resets(RunLog(s, rounds)) == 0
    decreases |rounds|
  {
    if rounds != [] {
      var r := rounds[0];
      assert !r.fetch.InvalidCursor?;
      NoResetWithoutInvalidation(Step(s, r), rounds[1..]);
      if Delivers(s, r) {
        CycleLogResets(r.watches, r.fetch.batch.entries, false);
      }
      ResetsAppend(Delivered(s, r), RunLog(Step(s, r), rounds[1..]));
    }
  }

  /** After an invalid cursor and any number of failures, the next delivering
      iteration announces the reset to every watch of its snapshot. */
  lemma RecoversWithReset(s: PollerState, bad: Round, failures: seq<Round>, good: Round)
    requires ContinueFrom(s, bad.latest).Some? && bad.fetch.InvalidCursor?
    requires forall i :: 0 <= i < |failures| ==> !failures[i].fetch.Fetched?
    requires Delivers(Final(s, [bad] + failures), good)
    ensures RunLog(s, [bad] + failures + [good]) == CycleLog(good.watches, good.fetch.batch.entries, true)
    ensures Resets(RunLog(s, [bad] + failures + [good])) == |good.watches|
  {
    var s1 := Step(s, bad);
    assert s1 == PollerState(None, true);
    assert Final(s, [bad]) == s1 && RunLog(s, [bad]) == [] by {
      assert [bad][1..] == [];
    }
    RunAppend(s, [bad], failures);
    FailuresKeepResetPending(s1, failures);
    var s2 := Final(s, [bad] + failures);
    assert Final(s, [bad]) == s1;
    RunAppend(s, [bad] + failures, [good]);
    assert RunLog(s2, [good]) == Delivered(s2, good) by {
      assert [good][1..] == [];
      assert Delivered(s2, good) + [] == Delivered(s2, good);
    }
    assert RunLog(s, [bad] + failures) == [];
    assert s2.needsReset;
    CycleLogResets(good.watches, good.fetch.batch.entries, true);
  }

  // ---------------------------------------------------------------------
  // The loop as written, which stops at its first sleep

  /** The iteration ends in `time.sleep`: after any failure, or after a
      batch with nothing more waiting. */
  predicate Sleeps(s: PollerState, r: Round)
  {
    !Delivers(s, r) || !r.fetch.batch.hasMore
  }

  /** The callback calls of the loop as written: `time` is not imported, so
      the first sleep raises and ends the thread. */
  function RunLogAsWritten(s: PollerState, rounds: seq<Round>): (log: seq<Event>)
    ensures log <= RunLog(s, rounds)
    decreases |rounds|
  {
    if rounds == [] then []
    else if Sleeps(s, rounds[0]) then Delivered(s, rounds[0])
    else Delivered(s, rounds[0]) + RunLogAsWritten(Step(s, rounds[0]), rounds[1..])
  }

  /** As written, the thread delivers what the intended loop delivers up to
      and including its first sleeping iteration, and nothing after it. */
  lemma {:induction false} AsWrittenStopsAtFirstSleep(s: PollerState, rounds: seq<Round>, k: nat)
    requires k < |rounds| && Sleeps(Final(s, rounds[..k]), rounds[k])
    requires forall i :: 0 <= i < k ==> !Sleeps(Final(s, rounds[..i]), rounds[i])
    ensures RunLogAsWritten(s, rounds) == RunLog(s, rounds[..k + 1])
    decreases k
  {
    assert rounds[..k + 1][0] == rounds[0];
    if k == 0 {
      assert rounds[..0] == [];
      assert rounds[..1][1..] == [];
      assert Delivered(s, rounds[0]) + [] == Delivered(s, rounds[0]);
    } else {
      assert rounds[..1] == [rounds[0]] && [rounds[0]][1..] == [];
      assert !Sleeps(s, rounds[0]) by {
        assert rounds[..0] == [];
      }
      var s1 := Step(s, rounds[0]);
      var rest := rounds[1..];
      forall i | 0 <= i <= k - 1
        ensures Final(s1, rest[..i]) == Final(s, rounds[..i + 1])
      {
        assert rounds[..i + 1] == [rounds[0]] + rest[..i];
        RunAppend(s, [rounds[0]], rest[..i]);
      }
      assert rest[k - 1] == rounds[k];
      forall i | 0 <= i < k - 1
        ensures !Sleeps(Final(s1, rest[..i]), rest[i])
      {
        assert rest[i] == rounds[i + 1];
      }
      AsWrittenStopsAtFirstSleep(s1, rest, k - 1);
      assert rounds[..k + 1][1..] == rest[..k];
    }
  }

  /** A counterexample: one failed continue call silences the thread, so a
      change that the next iteration would have delivered never arrives. */
  lemma FindingErrorEndsThread(f: FileObject)
    ensures var w := Watch(0, f, 0, true);
            var e := File("x", ScopePrefix(f.pathLower) + "x", "id:x", 1, 0, 0);
            var rounds := [Round(Some("c0"), OtherError, [w]),
                           Round(None, Fetched(Batch([e], "c1", true)), [w])];
            && RunLogAsWritten(Initial, rounds) == []
            && RunLog(Initial, rounds) == [ResetSignal(0), Changes(0, [Change(Modified, "x")])]
  {
    var w := Watch(0, f, 0, true);
    var e := File("x", ScopePrefix(f.pathLower) + "x", "id:x", 1, 0, 0);
    var good := Round(None, Fetched(Batch([e], "c1", true)), [w]);
    var rounds := [Round(Some("c0"), OtherError, [w]), good];
    assert Reaches(f.pathLower, true, e.pathLower);
    assert [e][..0] == [];
    assert ChangesFor(f.pathLower, true, [e]) == [Change(Modified, "x")];
    assert [w][..0] == [];
    assert WatchEvents(w, [e], true) == [ResetSignal(0), Changes(0, [Change(Modified, "x")])];
    assert CycleLog([w], [e], true) == WatchEvents(w, [e], true);
    var s1 := PollerState(Some("c0"), true);
    assert Step(Initial, rounds[0]) == s1;
    assert rounds[1..] == [good] && [good][1..] == [];
    assert Delivered(s1, good) == [ResetSignal(0), Changes(0, [Change(Modified, "x")])];
    assert RunLog(s1, [good]) == Delivered(s1, good) + RunLog(Step(s1, good), []);
    assert RunLog(Initial, rounds) == Delivered(Initial, rounds[0]) + RunLog(s1, [good]);
  }

  /** A counterexample: a batch with nothing more waiting also ends the
      thread, so later changes are never delivered. */
  lemma FindingCaughtUpEndsThread(f: FileObject)
    ensures var w := Watch(0, f, 0, true);
            var e := File("x", ScopePrefix(f.pathLower) + "x", "id:x", 1, 0, 0);
            var rounds := [Round(Some("c0"), Fetched(Batch([], "c1", false)), [w]),
                           Round(None, Fetched(Batch([e], "c2", false)), [w])];
            && RunLogAsWritten(Initial, rounds) == [ResetSignal(0)]
            && RunLog(Initial, rounds) == [ResetSignal(0), Changes(0, [Change(Modified, "x")])]
  {
    var w := Watch(0, f, 0, true);
    var e := File("x", ScopePrefix(f.pathLower) + "x", "id:x", 1, 0, 0);
    var first := Round(Some("c0"), Fetched(Batch([], "c1", false)), [w]);
    var good := Round(None, Fetched(Batch([e], "c2", false)), [w]);
    var rounds := [first, good];
    assert Reaches(f.pathLower, true, e.pathLower);
    assert [e][..0] == [];
    assert ChangesFor(f.pathLower, true, [e]) == [Change(Modified, "x")];
    assert ChangesFor(f.pathLower, true, []) == [];
    assert [w][..0] == [];
    assert WatchEvents(w, [], true) == [ResetSignal(0)];
    assert CycleLog([w], [], true) == WatchEvents(w, [], true);
    assert Delivered(Initial, first) == [ResetSignal(0)];
    assert WatchEvents(w, [e], false) == [Changes(0, [Change(Modified, "x")])];
    assert CycleLog([w], [e], false) == WatchEvents(w, [e], false);
    var s1 := PollerState(Some("c1"), false);
    assert Step(Initial, first) == s1;
    assert rounds[1..] == [good] && [good][1..] == [];
    assert Delivered(s1, good) == [Changes(0, [Change(Modified, "x")])];
    assert RunLog(s1, [good]) == Delivered(s1, good) + RunLog(Step(s1, good), []);
    assert RunLog(Initial, rounds) == Delivered(Initial, first) + RunLog(s1, [good]);
  }

  // ---------------------------------------------------------------------
  // The loop

  /** One iteration of the loop body: obtain a cursor if there is none, ask
      for the changes after it, and deliver them. */
  method Iteration(s: PollerState, r: Round) returns (next: PollerState, log: seq<Event>)
    ensures next == Step(s, r) && log == Delivered(s, r)
  {
    var cursor := s.cursor;
    var needsReset := s.needsReset;
    log := [];
    if cursor.None? {
      if r.latest.None? {
        return s, log;
      }
      cursor := r.latest;
    }
    match r.fetch {
      case InvalidCursor =>
        cursor := None;
        needsReset := true;
      case OtherError =>
      case Fetched(batch) =>
        log := Deliver(r.watches, batch.entries, needsReset);
        needsReset := false;
        cursor := Some(batch.cursor);
    }
    next := PollerState(cursor, needsReset);
  }

  /** The thread's loop over the iterations it gets to run, with the sleeps
      taken as pauses. */
  method Poll(rounds: seq<Round>) returns (s: PollerState, log: seq<Event>)
    ensures s == Final(Initial, rounds) && log == RunLog(Initial, rounds)
    ensures Inv(s)
  {
    s := Initial;
    log := [];
    for i := 0 to |rounds|
      invariant s == Final(Initial, rounds[..i]) && log == RunLog(Initial, rounds[..i])
    {
      var next, delivered := Iteration(s, rounds[i]);
      RunAppend(Initial, rounds[..i], [rounds[i]]);
      assert rounds[..i] + [rounds[i]] == rounds[..i + 1];
      assert [rounds[i]][1..] == [];
      assert delivered + [] == delivered;
      s, log := next, log + delivered;
    }
    assert rounds[..|rounds|] == rounds;
    RunKeepsInv(Initial, rounds);
  }

  /** The thread's loop as written: the first iteration that sleeps raises
      and ends the thread. */
  method PollAsWritten(rounds: seq<Round>) returns (log: seq<Event>)
    ensures log == RunLogAsWritten(Initial, rounds)
  {
    var s := Initial;
    log := [];
    var i := 0;
    while i < |rounds|
      invariant 0 <= i <= |rounds|
      invariant log + RunLogAsWritten(s, rounds[i..]) == RunLogAsWritten(Initial, rounds)
    {
      var next, delivered := Iteration(s, rounds[i]);
      assert rounds[i..][0] == rounds[i] && rounds[i..][1..] == rounds[i + 1..];
      if Sleeps(s, rounds[i]) {
        assert log + delivered == RunLogAsWritten(Initial, rounds);
        return log + delivered;
      }
      log := log + delivered;
      s := next;
      i := i + 1;
    }
    assert rounds[i..] == [];
    assert log + [] == log;
  }
}
