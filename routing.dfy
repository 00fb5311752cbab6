/** One delivery cycle of the change poller (`delta_thread`): which entries
    of a change batch reach which watch, how each entry is reported, and
    what every callback is called with, in order. */
module Routing {
  import opened Types
  import opened Handles

  datatype Action = Removed | Modified

  /** The `Change(action, filename)` named tuple. */
  datatype Change = Change(action: Action, filename: string)

  /** One callback call: with `'reset'`, or with a list of changes. */
  datatype Event = ResetSignal(cb: CallbackId) | Changes(cb: CallbackId, changes: seq<Change>)

  /** Python's `str.find` for a single character: the index of the first
      occurrence of `c` in `s`, or -1 when there is none. */
  function Find(s: string, c: char): (r: int)
    ensures -1 <= r < |s|
    ensures r == -1 <==> c !in s
    ensures 0 <= r ==> s[r] == c && c !in s[..r]
  {
    if s == [] then -1
    else if s[0] == c then 0
    else
      var t := Find(s[1..], c);
      if t == -1 then -1
      else
        assert s[..t + 1] == [s[0]] + s[1..][..t];
        t + 1
  }

  /** What an entry's lower-cased path must start with to lie inside the
      watched directory: the directory's path and a slash, or just the slash
      for the root. */
  function ScopePrefix(scope: string): string
  {
    scope + (if scope == "/" then "" else "/")
  }

  /** An entry at `path` reaches a watch on `scope`: it lies below the
      directory, and for a non-recursive watch directly inside it. */
  predicate Reaches(scope: string, recursive: bool, path: string): (r: bool)
    ensures r ==> ScopePrefix(scope) <= path
    ensures r && !recursive ==> '/' !in path[|ScopePrefix(scope)|..]
    ensures ScopePrefix(scope) <= path && recursive ==> r
  {
    var prefix := ScopePrefix(scope);
    prefix <= path && (recursive || Find(path[|prefix|..], '/') == -1)
  }

  /** How one kept entry is reported: a tombstone as removed, anything else
      as modified, under the entry's own name. */
  function Classify(e: Metadata): (r: Change)
    ensures r.filename == e.name
    ensures r.action == Removed <==> e.Deleted?
  {
    Change(if e.Deleted? then Removed else Modified, e.name)
  }

  /** The list `to_sub` a watch on `scope` collects from `batch`. */
  function ChangesFor(scope: string, recursive: bool, batch: seq<Metadata>): (r: seq<Change>)
    ensures |r| <= |batch|
    decreases |batch|
  {
    if batch == [] then []
    else
      var e := batch[|batch| - 1];
      ChangesFor(scope, recursive, batch[..|batch| - 1])
        + (if Reaches(scope, recursive, e.pathLower) then [Classify(e)] else [])
  }

  /** What one watch receives in a cycle: `'reset'` first when a reset is
      pending, then its change list if that list is non-empty. */
  function WatchEvents(w: Watch, batch: seq<Metadata>, needsReset: bool): seq<Event>
  {
    var changes := ChangesFor(w.Scope(), w.recursive, batch);
    (if needsReset then [ResetSignal(w.cb)] else [])
      + (if changes == [] then [] else [Changes(w.cb, changes)])
  }

  /** Every callback call of one cycle, watch after watch in snapshot order. */
  function CycleLog(watches: seq<Watch>, batch: seq<Metadata>, needsReset: bool): (r: seq<Event>)
    ensures |r| <= 2 * |watches|
    ensures needsReset ==> |r| >= |watches|
    decreases |watches|
  {
    if watches == [] then []
    else
      CycleLog(watches[..|watches| - 1], batch, needsReset)
        + WatchEvents(watches[|watches| - 1], batch, needsReset)
  }

  /** The number of `'reset'` calls in a log. */
  function Resets(log: seq<Event>): nat
    decreases |log|
  {
    if log == [] then 0
    else Resets(log[..|log| - 1]) + (if log[|log| - 1].ResetSignal? then 1 else 0)
  }

  // ---------------------------------------------------------------------
  // Which entries reach which watch

  /** An entry reaches a watch exactly when its path is the scope prefix
      followed by some remainder, and for a non-recursive watch that
      remainder holds no further slash. */
  lemma ReachesIff(scope: string, recursive: bool, path: string)
    ensures Reaches(scope, recursive, path)
        <==> exists rest :: path == ScopePrefix(scope) + rest && (recursive || '/' !in rest)
  {
    var prefix := ScopePrefix(scope);
    if Reaches(scope, recursive, path) {
      var rest := path[|prefix|..];
      assert path == prefix + rest;
    }
    if exists rest :: path == prefix + rest && (recursive || '/' !in rest) {
      var rest :| path == prefix + rest && (recursive || '/' !in rest);
      assert path[|prefix|..] == rest;
    }
  }

  /** The watched directory itself never reaches its own watch: its path is
      shorter than the prefix. Only the root's path, "/", equals its prefix. */
  lemma ScopeNeverReachesItself(scope: string, recursive: bool)
    requires scope != "/"
    ensures !Reaches(scope, recursive, scope)
  {
  }

  /** A recursive watch sees everything the non-recursive watch on the same
      directory sees. */
  lemma RecursiveSeesMore(scope: string, path: string)
    ensures Reaches(scope, false, path) ==> Reaches(scope, true, path)
  {
  }

  /** Worked cases: a child of `/a/b` reaches the non-recursive watch, a
      grandchild only the recursive one, and the root watch sees top-level
      entries. */
  lemma ReachesExamples()
    ensures Reaches("/a/b", false, "/a/b/c")
    ensures !Reaches("/a/b", false, "/a/b/c/d")
    ensures Reaches("/a/b", true, "/a/b/c/d")
    ensures !Reaches("/a/b", true, "/a/bc")
    ensures Reaches("/", false, "/x") && !Reaches("/", false, "/x/y")
  {
    assert "/a/b/c"[5..] == "c";
    assert "/a/b/c/d"[5..] == "c/d";
    assert "/a/b/c/d"[5..][1] == '/';
    assert "/x"[1..] == "x";
    assert "/x/y"[1..] == "x/y";
    assert "/x/y"[1..][1] == '/';
    assert "/a/b/" <= "/a/b/c";
    assert "/a/b/" <= "/a/b/c/d";
    assert "/a/bc"[4] == 'c';
  }

  /** A non-recursive watch on `scope` (say `/docs`) is told of the removal
      of a direct child (`/docs/a.txt`) but not of a change one level deeper
      (`/docs/sub/c.txt`). */
  lemma ChangesForExample(scope: string, name: string, sub: string, gone: Metadata, nested: Metadata)
    requires scope != "/" && '/' !in name
    requires gone == Deleted(name, scope + "/" + name)
    requires nested.pathLower == scope + "/" + sub + "/" + nested.name
    ensures ChangesFor(scope, false, [gone, nested]) == [Change(Removed, name)]
  {
    var prefix := ScopePrefix(scope);
    assert Reaches(scope, false, gone.pathLower) by {
      assert gone.pathLower[|prefix|..] == name;
    }
    assert !Reaches(scope, false, nested.pathLower) by {
      var rest := nested.pathLower[|prefix|..];
      assert rest == sub + "/" + nested.name;
      assert rest[|sub|] == '/';
    }
    assert ChangesFor(scope, false, [gone]) == [Change(Removed, name)] by {
      assert [gone][..0] == [];
    }
    assert [gone, nested][..1] == [gone];
  }

  // ---------------------------------------------------------------------
  // The change list of one watch

  /** Changes keep feed order: those of an earlier part of the batch come
      before those of a later part. */
  lemma {:induction false} ChangesForAppend(scope: string, recursive: bool, a: seq<Metadata>, b: seq<Metadata>)
    ensures ChangesFor(scope, recursive, a + b) == ChangesFor(scope, recursive, a) + ChangesFor(scope, recursive, b)
    decreases |b|
  {
    if b == [] {
      assert a + b == a;
    } else {
      var b' := b[..|b| - 1];
      assert (a + b)[..|a + b| - 1] == a + b';
      assert (a + b)[|a + b| - 1] == b[|b| - 1];
      ChangesForAppend(scope, recursive, a, b');
    }
  }

  /** A change is in a watch's list exactly when some entry of the batch
      reaches the watch and is reported as that change. */
  lemma {:induction false} ChangesForMembers(scope: string, recursive: bool, batch: seq<Metadata>, c: Change)
    ensures c in ChangesFor(scope, recursive, batch)
        <==> exists i :: 0 <= i < |batch| && Reaches(scope, recursive, batch[i].pathLower)
                         && c == Classify(batch[i])
    decreases |batch|
  {
    if batch != [] {
      var n := |batch| - 1;
      var init := batch[..n];
      var last := batch[n];
      ChangesForMembers(scope, recursive, init, c);
      var tail := if Reaches(scope, recursive, last.pathLower) then [Classify(last)] else [];
      assert ChangesFor(scope, recursive, batch) == ChangesFor(scope, recursive, init) + tail;
      if c in ChangesFor(scope, recursive, batch) {
        if c in ChangesFor(scope, recursive, init) {
          var i :| 0 <= i < |init| && Reaches(scope, recursive, init[i].pathLower) && c == Classify(init[i]);
          assert init[i] == batch[i];
        } else {
          assert c in tail;
          assert Reaches(scope, recursive, batch[n].pathLower) && c == Classify(batch[n]);
        }
      }
      if exists i :: 0 <= i < |batch| && Reaches(scope, recursive, batch[i].pathLower) && c == Classify(batch[i]) {
        var i :| 0 <= i < |batch| && Reaches(scope, recursive, batch[i].pathLower) && c == Classify(batch[i]);
        if i < n {
          assert init[i] == batch[i];
        }
      }
    }
  }

  /** A watch's list is empty exactly when no entry of the batch reaches it. */
  lemma {:induction false} ChangesForEmpty(scope: string, recursive: bool, batch: seq<Metadata>)
    ensures ChangesFor(scope, recursive, batch) == []
        <==> forall i :: 0 <= i < |batch| ==> !Reaches(scope, recursive, batch[i].pathLower)
    decreases |batch|
  {
    if batch != [] {
      var init := batch[..|batch| - 1];
      ChangesForEmpty(scope, recursive, init);
      forall i | 0 <= i < |init|
        ensures init[i] == batch[i]
      {
      }
    }
  }

  // ---------------------------------------------------------------------
  // The whole cycle

  /** The cycle's calls are grouped by watch, in snapshot order. */
  lemma {:induction false} CycleLogAppend(a: seq<Watch>, b: seq<Watch>, batch: seq<Metadata>, needsReset: bool)
    ensures CycleLog(a + b, batch, needsReset) == CycleLog(a, batch, needsReset) + CycleLog(b, batch, needsReset)
    decreases |b|
  {
    if b == [] {
      assert a + b == a;
    } else {
      var b' := b[..|b| - 1];
      assert (a + b)[..|a + b| - 1] == a + b';
      assert (a + b)[|a + b| - 1] == b[|b| - 1];
      CycleLogAppend(a, b', batch, needsReset);
    }
  }

  /** The calls made for watch `i` sit between those for the watches before
      it and those for the watches after it. */
  lemma CycleLogSplit(watches: seq<Watch>, i: nat, batch: seq<Metadata>, needsReset: bool)
    requires i < |watches|
    ensures CycleLog(watches, batch, needsReset)
         == CycleLog(watches[..i], batch, needsReset)
            + WatchEvents(watches[i], batch, needsReset)
            + CycleLog(watches[i + 1..], batch, needsReset)
  {
    assert watches == watches[..i] + [watches[i]] + watches[i + 1..];
    CycleLogAppend(watches[..i] + [watches[i]], watches[i + 1..], batch, needsReset);
    assert CycleLog([watches[i]], batch, needsReset) == WatchEvents(watches[i], batch, needsReset) by {
      assert [watches[i]][..0] == [];
    }
    CycleLogAppend(watches[..i], [watches[i]], batch, needsReset);
  }

  lemma {:induction false} ResetsAppend(a: seq<Event>, b: seq<Event>)
    ensures Resets(a + b) == Resets(a) + Resets(b)
    decreases |b|
  {
    if b == [] {
      assert a + b == a;
    } else {
      var b' := b[..|b| - 1];
      assert (a + b)[..|a + b| - 1] == a + b';
      assert (a + b)[|a + b| - 1] == b[|b| - 1];
      ResetsAppend(a, b');
    }
  }

  /** A pending reset is announced exactly once to every watch of the
      snapshot, and never when no reset is pending. */
  lemma {:induction false} CycleLogResets(watches: seq<Watch>, batch: seq<Metadata>, needsReset: bool)
    ensures Resets(CycleLog(watches, batch, needsReset)) == if needsReset then |watches| else 0
    decreases |watches|
  {
    if watches != [] {
      var w := watches[|watches| - 1];
      CycleLogResets(watches[..|watches| - 1], batch, needsReset);
      var changes := ChangesFor(w.Scope(), w.recursive, batch);
      var head: seq<Event> := if needsReset then [ResetSignal(w.cb)] else [];
      var tail: seq<Event> := if changes == [] then [] else [Changes(w.cb, changes)];
      ResetsAppend(head, tail);
      assert Resets(head) == if needsReset then 1 else 0 by {
        if needsReset { assert head[..0] == []; }
      }
      assert Resets(tail) == 0 by {
        if changes != [] { assert tail[..0] == []; }
      }
      ResetsAppend(CycleLog(watches[..|watches| - 1], batch, needsReset), WatchEvents(w, batch, needsReset));
    }
  }

  /** Every change-list call of a cycle goes to a watch of the snapshot with
      that watch's own, non-empty list; and every watch whose list is
      non-empty gets it. */
  lemma {:induction false} CycleLogChanges(watches: seq<Watch>, batch: seq<Metadata>, needsReset: bool,
                                           cb: CallbackId, changes: seq<Change>)
    ensures Changes(cb, changes) in CycleLog(watches, batch, needsReset)
        <==> exists i :: 0 <= i < |watches| && watches[i].cb == cb && changes != []
                         && changes == ChangesFor(watches[i].Scope(), watches[i].recursive, batch)
    decreases |watches|
  {
    if watches != [] {
      var init := watches[..|watches| - 1];
      CycleLogChanges(init, batch, needsReset, cb, changes);
      forall i | 0 <= i < |init|
        ensures init[i] == watches[i]
      {
      }
    }
  }

  /** With a reset pending, each watch's `'reset'` comes right before its
      change list, at the place where the calls for the watches before it end;
      a watch with an empty list gets the reset alone. */
  lemma ResetPrecedesChanges(watches: seq<Watch>, i: nat, batch: seq<Metadata>)
    requires i < |watches|
    ensures var log := CycleLog(watches, batch, true);
            var at := |CycleLog(watches[..i], batch, true)|;
            var changes := ChangesFor(watches[i].Scope(), watches[i].recursive, batch);
            && at < |log| && log[at] == ResetSignal(watches[i].cb)
            && (changes != [] ==> at + 1 < |log| && log[at + 1] == Changes(watches[i].cb, changes))
            && (changes == [] ==> log == CycleLog(watches[..i], batch, true) + [ResetSignal(watches[i].cb)]
                                       + CycleLog(watches[i + 1..], batch, true))
  {
    CycleLogSplit(watches, i, batch, true);
  }

  /** No callback is ever handed an empty change list. */
  lemma {:induction false} CycleLogNoEmptyLists(watches: seq<Watch>, batch: seq<Metadata>, needsReset: bool)
    ensures forall ev :: ev in CycleLog(watches, batch, needsReset) && ev.Changes? ==> ev.changes != []
    decreases |watches|
  {
    if watches != [] {
      CycleLogNoEmptyLists(watches[..|watches| - 1], batch, needsReset);
    }
  }

  // ---------------------------------------------------------------------
  // The delivery loop

  /** The inner loop of one watch's delivery: collect `to_sub`, the changes
      of the batch that reach a watch on `scope`, in feed order. */
  method CollectChanges(scope: string, recursive: bool, batch: seq<Metadata>) returns (toSub: seq<Change>)
    ensures toSub == ChangesFor(scope, recursive, batch)
  {
    var prefix := ScopePrefix(scope);
    toSub := [];
    for j := 0 to |batch|
      invariant toSub == ChangesFor(scope, recursive, batch[..j])
    {
      var entry := batch[j];
      assert batch[..j + 1][..j] == batch[..j];
      if !(prefix <= entry.pathLower) {
        continue;
      }
      if !recursive && Find(entry.pathLower[|prefix|..], '/') != -1 {
        continue;
      }
      toSub := toSub + [Classify(entry)];
    }
    assert batch[..|batch|] == batch;
  }

  /** The body of one poller iteration after a successful fetch: for each
      watch of the snapshot, announce a pending reset, collect the changes
      that reach it, and call it with them if there are any. */
  method Deliver(watches: seq<Watch>, batch: seq<Metadata>, needsReset: bool) returns (log: seq<Event>)
    ensures log == CycleLog(watches, batch, needsReset)
  {
    log := [];
    for i := 0 to |watches|
      invariant log == CycleLog(watches[..i], batch, needsReset)
    {
      var w := watches[i];
      ghost var before := log;
      if needsReset {
        log := log + [ResetSignal(w.cb)];
      }
      var toSub := CollectChanges(w.Scope(), w.recursive, batch);
      if toSub != [] {
        log := log + [Changes(w.cb, toSub)];
      }
      assert log == before + WatchEvents(w, batch, needsReset);
      assert watches[..i + 1][..i] == watches[..i] && watches[..i + 1][i] == w;
      assert CycleLog(watches[..i + 1], batch, needsReset) == before + WatchEvents(w, batch, needsReset);
    }
    assert watches[..|watches|] == watches;
  }
}
