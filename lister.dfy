/** The snapshot directory lister (dropboxfs/dbfs.py, class `_Directory`).

    A listing is a lazily paginated walk: the first call lists the directory
    by path, each later call continues from the cursor of the page before it,
    and the walk ends after a page that has no more, after the first file
    modified on the server later than the moment the walk began, or when a
    remote call fails. Tombstones are skipped. The remote store is the
    abstract input `feed`: the responses it gives to a handle's listing calls,
    in the order the calls are made. */
module Lister {
  import opened Types
  import opened StatTranslation

  /** One listing call's outcome: a page of entries with the cursor that
      continues after it and whether more pages follow, or a raised error. */
  datatype Response = Page(entries: seq<Metadata>, cursor: Cursor, hasMore: bool) | Failure

  /** The two calls the lister makes: `files_list_folder(path)` and
      `files_list_folder_continue(cursor)`. */
  datatype Request = ListFolder(path: string) | ListFolderContinue(cursor: Cursor)

  /** The two clock readings a step may use: `utcnow()` fixes the snapshot
      boundary, `now()` becomes the mtime of folders. */
  datatype Clock = Clock(utc: Timestamp, local: Timestamp)

  /** What one `next()` does: yield a record, raise StopIteration, or let a
      remote error escape. */
  datatype NextResult = Item(stat: Stat) | StopIteration | Raised

  /** Everything one enumeration yields, and whether it ended by a remote error. */
  datatype Listing = Listing(entries: seq<Metadata>, failed: bool)

  /** The response to the k-th listing call; calls beyond the feed fail. */
  function FeedAt(feed: seq<Response>, k: nat): Response
  {
    if k < |feed| then feed[k] else Failure
  }

  /** The root is listed through the empty path. */
  function RequestPath(path: string): (r: string)
    ensures path == "/" ==> r == ""
    ensures path != "/" ==> r == path
  {
    if path == "/" then "" else path
  }

  /** A file changed on the server after the enumeration began marks the
      snapshot boundary; folders carry no reliable time and never do. */
  predicate TooNew(e: Metadata, start: Timestamp): (r: bool)
    ensures !e.File? ==> !r
    ensures e.File? ==> (r <==> e.serverModified > start)
  {
    e.File? && e.serverModified > start
  }

  /** `s` holds a boundary entry. */
  predicate HasBoundary(s: seq<Metadata>, start: Timestamp)
  {
    s != [] && (TooNew(s[0], start) || HasBoundary(s[1..], start))
  }

  /** The prefix of `s` up to, not including, its first boundary entry. */
  function BeforeBoundary(s: seq<Metadata>, start: Timestamp): seq<Metadata>
  {
    if s == [] then []
    else if TooNew(s[0], start) then []
    else [s[0]] + BeforeBoundary(s[1..], start)
  }

  /** The entries of `s` that are not tombstones, in order. */
  function Live(s: seq<Metadata>): seq<Metadata>
  {
    if s == [] then []
    else (if s[0].Deleted? then [] else [s[0]]) + Live(s[1..])
  }

  /** What the enumeration still yields once the rest of the current page is
      `tail`, the page said `hasMore`, and the next call is call number `next`. */
  function Resume(feed: seq<Response>, tail: seq<Metadata>, hasMore: bool, next: nat,
                  start: Timestamp): Listing
  {
    var shown := Live(BeforeBoundary(tail, start));
    if HasBoundary(tail, start) || !hasMore then Listing(shown, false)
    else
      var rest := ListingFrom(feed, next, start);
      Listing(shown + rest.entries, rest.failed)
  }

  /** What an enumeration whose first call is call number `k` yields. */
  function ListingFrom(feed: seq<Response>, k: nat, start: Timestamp): (r: Listing)
    ensures forall e :: e in r.entries ==> !e.Deleted? && !TooNew(e, start)
    decreases |feed| - k
  {
    if k >= |feed| || feed[k].Failure? then Listing([], true)
    else
      var p := feed[k];
      BeforeBoundaryIsLongestSafePrefix(p.entries, start);
      LiveKeepsLiveEntries(BeforeBoundary(p.entries, start));
      var shown := Live(BeforeBoundary(p.entries, start));
      if HasBoundary(p.entries, start) || !p.hasMore then Listing(shown, false)
      else
        var rest := ListingFrom(feed, k + 1, start);
        Listing(shown + rest.entries, rest.failed)
  }

  /** All entries of every page the walk from call `k` would fetch if it never
      stopped at a boundary: pages are followed while they say `hasMore`. */
  function PagesEntries(feed: seq<Response>, k: nat): seq<Metadata>
    decreases |feed| - k
  {
    if k >= |feed| || feed[k].Failure? then []
    else feed[k].entries + (if feed[k].hasMore then PagesEntries(feed, k + 1) else [])
  }

  /** `a` occurs in `b` in order, possibly with gaps. */
  predicate IsSubsequence<T(==)>(a: seq<T>, b: seq<T>)
    decreases |b|
  {
    if a == [] then true
    else if b == [] then false
    else (a[0] == b[0] && IsSubsequence(a[1..], b[1..])) || IsSubsequence(a, b[1..])
  }

  // ---------------------------------------------------------------------
  // Lemmas about the listing

  /** BeforeBoundary gives the longest prefix free of boundary entries: it
      is shorter than `s` exactly when `s` holds a boundary, and then the
      entry right after it is the first boundary entry. */
  lemma {:induction false} BeforeBoundaryIsLongestSafePrefix(s: seq<Metadata>, start: Timestamp)
    ensures BeforeBoundary(s, start) <= s
    ensures forall j :: 0 <= j < |BeforeBoundary(s, start)| ==> !TooNew(s[j], start)
    ensures forall e :: e in BeforeBoundary(s, start) ==> !TooNew(e, start)
    ensures |BeforeBoundary(s, start)| < |s| <==> HasBoundary(s, start)
    ensures |BeforeBoundary(s, start)| < |s| ==> TooNew(s[|BeforeBoundary(s, start)|], start)
  {
    if s != [] && !TooNew(s[0], start) {
      BeforeBoundaryIsLongestSafePrefix(s[1..], start);
      var r := BeforeBoundary(s[1..], start);
      assert BeforeBoundary(s, start) == [s[0]] + r;
      forall j | 0 <= j < |BeforeBoundary(s, start)|
        ensures !TooNew(s[j], start)
      {
        if j > 0 {
          assert s[j] == s[1..][j - 1];
        }
      }
    }
  }

  /** Live keeps exactly the entries that are not tombstones. */
  lemma {:induction false} LiveKeepsLiveEntries(s: seq<Metadata>)
    ensures forall e :: e in Live(s) <==> e in s && !e.Deleted?
  {
    if s != [] {
      LiveKeepsLiveEntries(s[1..]);
      assert s == [s[0]] + s[1..];
    }
  }

  lemma {:induction false} HasBoundaryAppend(a: seq<Metadata>, b: seq<Metadata>, start: Timestamp)
    ensures HasBoundary(a + b, start) == (HasBoundary(a, start) || HasBoundary(b, start))
  {
    if a == [] {
      assert a + b == b;
    } else {
      assert (a + b)[0] == a[0];
      assert (a + b)[1..] == a[1..] + b;
      HasBoundaryAppend(a[1..], b, start);
    }
  }

  lemma {:induction false} BeforeBoundaryAppend(a: seq<Metadata>, b: seq<Metadata>, start: Timestamp)
    ensures BeforeBoundary(a + b, start)
         == if HasBoundary(a, start) then BeforeBoundary(a, start) else a + BeforeBoundary(b, start)
  {
    if a == [] {
      assert a + b == b;
    } else {
      assert (a + b)[0] == a[0];
      assert (a + b)[1..] == a[1..] + b;
      if !TooNew(a[0], start) {
        BeforeBoundaryAppend(a[1..], b, start);
        if !HasBoundary(a, start) {
          assert a == [a[0]] + a[1..];
        }
      }
    }
  }

  lemma {:induction false} LiveAppend(a: seq<Metadata>, b: seq<Metadata>)
    ensures Live(a + b) == Live(a) + Live(b)
  {
    if a == [] {
      assert a + b == b;
    } else {
      assert (a + b)[0] == a[0];
      assert (a + b)[1..] == a[1..] + b;
      LiveAppend(a[1..], b);
    }
  }

  lemma NoBoundaryMeansWhole(s: seq<Metadata>, start: Timestamp)
    requires !HasBoundary(s, start)
    ensures BeforeBoundary(s, start) == s
  {
    BeforeBoundaryIsLongestSafePrefix(s, start);
  }

  /** The enumeration yields exactly the live entries that precede the first
      boundary entry in the concatenation of all pages: once a boundary file
      is seen, nothing after it, on that page or on any later one, is yielded. */
  lemma {:induction false} ListingIsLivePrefixOfPages(feed: seq<Response>, k: nat, start: Timestamp)
    ensures ListingFrom(feed, k, start).entries
         == Live(BeforeBoundary(PagesEntries(feed, k), start))
    decreases |feed| - k
  {
    if k >= |feed| || feed[k].Failure? {
    } else {
      var p := feed[k];
      if !p.hasMore {
        assert PagesEntries(feed, k) == p.entries + [];
        assert p.entries + [] == p.entries;
      } else {
        var rest := PagesEntries(feed, k + 1);
        assert PagesEntries(feed, k) == p.entries + rest;
        BeforeBoundaryAppend(p.entries, rest, start);
        if !HasBoundary(p.entries, start) {
          ListingIsLivePrefixOfPages(feed, k + 1, start);
          NoBoundaryMeansWhole(p.entries, start);
          LiveAppend(p.entries, BeforeBoundary(rest, start));
        }
      }
    }
  }

  lemma {:induction false} LiveIsSubsequence(s: seq<Metadata>)
    ensures IsSubsequence(Live(s), s)
  {
    if s != [] {
      LiveIsSubsequence(s[1..]);
      if s[0].Deleted? {
        assert Live(s) == Live(s[1..]);
        if Live(s) != [] {
          assert IsSubsequence(Live(s), s[1..]);
        }
      } else {
        assert Live(s) == [s[0]] + Live(s[1..]);
        assert Live(s)[1..] == Live(s[1..]);
      }
    }
  }

  lemma {:induction false} SubsequenceOfPrefix<T>(a: seq<T>, b: seq<T>, c: seq<T>)
    requires IsSubsequence(a, b) && b <= c
    ensures IsSubsequence(a, c)
    decreases |b|
  {
    if a != [] {
      assert c[0] == b[0];
      assert b[1..] <= c[1..];
      if a[0] == b[0] && IsSubsequence(a[1..], b[1..]) {
        SubsequenceOfPrefix(a[1..], b[1..], c[1..]);
      } else {
        SubsequenceOfPrefix(a, b[1..], c[1..]);
      }
    }
  }

  /** The yielded entries occur in the fetched pages, in their original order. */
  lemma ListingIsSubsequenceOfPages(feed: seq<Response>, k: nat, start: Timestamp)
    ensures IsSubsequence(ListingFrom(feed, k, start).entries, PagesEntries(feed, k))
  {
    var all := PagesEntries(feed, k);
    ListingIsLivePrefixOfPages(feed, k, start);
    BeforeBoundaryIsLongestSafePrefix(all, start);
    LiveIsSubsequence(BeforeBoundary(all, start));
    SubsequenceOfPrefix(Live(BeforeBoundary(all, start)), BeforeBoundary(all, start), all);
  }

  /** If entry `i` of the pages is a boundary file, every yielded entry
      comes from before position `i`. */
  lemma ListingStopsAtBoundary(feed: seq<Response>, k: nat, start: Timestamp, i: nat)
    requires i < |PagesEntries(feed, k)| && TooNew(PagesEntries(feed, k)[i], start)
    ensures IsSubsequence(ListingFrom(feed, k, start).entries, PagesEntries(feed, k)[..i])
  {
    var all := PagesEntries(feed, k);
    var bb := BeforeBoundary(all, start);
    ListingIsLivePrefixOfPages(feed, k, start);
    BeforeBoundaryIsLongestSafePrefix(all, start);
    assert bb <= all[..i];
    LiveIsSubsequence(bb);
    SubsequenceOfPrefix(Live(bb), bb, all[..i]);
  }

  /** Worked case: `/docs` holds `a.txt`, modified at `t0`, and `b.txt`,
      modified ten seconds later; an enumeration begun at `t0 + 5` yields
      `a.txt` only, and ends without error. */
  lemma ListingExample(t0: Timestamp)
    ensures var a := File("a.txt", "/docs/a.txt", "id:a", 1, t0, t0);
            var b := File("b.txt", "/docs/b.txt", "id:b", 1, t0 + 10, t0 + 10);
            ListingFrom([Page([a, b], "c1", false)], 0, t0 + 5) == Listing([a], false)
  {
    var a := File("a.txt", "/docs/a.txt", "id:a", 1, t0, t0);
    var b := File("b.txt", "/docs/b.txt", "id:b", 1, t0 + 10, t0 + 10);
    assert [a, b][1..] == [b] && [b][1..] == [];
    assert BeforeBoundary([a, b], t0 + 5) == [a];
    assert Live([a]) == [a] by {
      assert [a][1..] == [];
    }
  }

  // ---------------------------------------------------------------------
  // Steps of the walk, as used by DirectoryLister.Next

  lemma ResumeAdvance(feed: seq<Response>, tail: seq<Metadata>, hasMore: bool, next: nat,
                      start: Timestamp)
    requires |tail| > 0 && !TooNew(tail[0], start)
    ensures Resume(feed, tail, hasMore, next, start).failed
         == Resume(feed, tail[1..], hasMore, next, start).failed
    ensures Resume(feed, tail, hasMore, next, start).entries
         == (if tail[0].Deleted? then [] else [tail[0]])
            + Resume(feed, tail[1..], hasMore, next, start).entries
  {
    var bb := BeforeBoundary(tail, start);
    var bb' := BeforeBoundary(tail[1..], start);
    assert bb == [tail[0]] + bb';
    assert bb[0] == tail[0] && bb[1..] == bb';
    assert Live(bb) == (if tail[0].Deleted? then [] else [tail[0]]) + Live(bb');
    assert HasBoundary(tail, start) == HasBoundary(tail[1..], start);
  }

  lemma ResumeAtBoundary(feed: seq<Response>, tail: seq<Metadata>, hasMore: bool, next: nat,
                         start: Timestamp)
    requires |tail| > 0 && TooNew(tail[0], start)
    ensures Resume(feed, tail, hasMore, next, start) == Listing([], false)
  {
  }

  lemma ResumeAtEnd(feed: seq<Response>, hasMore: bool, next: nat, start: Timestamp)
    ensures Resume(feed, [], hasMore, next, start)
         == if hasMore then ListingFrom(feed, next, start) else Listing([], false)
  {
    assert !HasBoundary([], start);
    if hasMore {
      assert [] + ListingFrom(feed, next, start).entries == ListingFrom(feed, next, start).entries;
    }
  }

  lemma BoundaryFreeExtends(s: seq<Metadata>, pos: nat, start: Timestamp)
    requires pos < |s| && !HasBoundary(s[..pos], start) && !TooNew(s[pos], start)
    ensures !HasBoundary(s[..pos + 1], start)
  {
    assert s[..pos + 1] == s[..pos] + [s[pos]];
    HasBoundaryAppend(s[..pos], [s[pos]], start);
  }

  // ---------------------------------------------------------------------
  // The state of one enumeration and the invariants its walk keeps

  /** The fields of a lister that make up its current enumeration: calls
      made so far, `self._cursor`, the boundary, the page being walked and
      the position in it; and, for the proof, the call number of the
      enumeration's first call, what it yielded and which calls it made. */
  datatype Walk = Walk(fetched: nat, cursor: Option<Cursor>, start: Timestamp,
                       page: Response, pos: nat,
                       first: nat, yielded: seq<Metadata>, requests: seq<Request>)

  /** The call the walk makes next: by path while it holds no cursor. */
  function NextRequest(path: string, cursor: Option<Cursor>): Request
  {
    if cursor.None? then ListFolder(RequestPath(path)) else ListFolderContinue(cursor.value)
  }

  ghost function WalkSnapshot(feed: seq<Response>, w: Walk): Listing
  {
    ListingFrom(feed, w.first, w.start)
  }

  /** Call number `k` returned a page after which the walk went on. */
  ghost predicate Continued(feed: seq<Response>, start: Timestamp, k: nat)
  {
    var p := FeedAt(feed, k);
    p.Page? && p.hasMore && !HasBoundary(p.entries, start)
  }

  /** The `n` calls an enumeration whose first call is number `first`
      makes: the first lists the directory by path, each later one
      continues from the cursor of the page before it. */
  ghost function CallLog(feed: seq<Response>, path: string, start: Timestamp, first: nat, n: nat): seq<Request>
    requires n > 0 ==> AllContinued(feed, start, first, n - 1)
    decreases n
  {
    if n == 0 then []
    else if n == 1 then [ListFolder(RequestPath(path))]
    else CallLog(feed, path, start, first, n - 1) + [ListFolderContinue(FeedAt(feed, first + n - 2).cursor)]
  }

  /** Calls `first` to `first + n - 1` each returned a page after which the
      walk went on. */
  ghost predicate AllContinued(feed: seq<Response>, start: Timestamp, first: nat, n: nat)
    decreases n
  {
    n == 0 || (AllContinued(feed, start, first, n - 1) && Continued(feed, start, first + n - 1))
  }

  /** The calls an enumeration made so far are its call log, and each but the
      latest returned a page that let the walk go on. */
  ghost predicate WalkRequestsMade(feed: seq<Response>, path: string, w: Walk)
  {
    && w.first <= w.fetched
    && AllContinued(feed, w.start, w.first, if w.fetched == w.first then 0 else w.fetched - w.first - 1)
    && w.requests == CallLog(feed, path, w.start, w.first, w.fetched - w.first)
  }

  /** The call log, entry by entry. */
  lemma {:induction false} CallLogEntries(feed: seq<Response>, path: string, start: Timestamp, first: nat, n: nat)
    requires n > 0 ==> AllContinued(feed, start, first, n - 1)
    ensures |CallLog(feed, path, start, first, n)| == n
    ensures n > 0 ==> CallLog(feed, path, start, first, n)[0] == ListFolder(RequestPath(path))
    ensures forall k: nat :: first <= k < first + n - 1 ==>
              && Continued(feed, start, k)
              && CallLog(feed, path, start, first, n)[k - first + 1] == ListFolderContinue(FeedAt(feed, k).cursor)
    decreases n
  {
    if n > 1 {
      CallLogEntries(feed, path, start, first, n - 1);
      var prev := CallLog(feed, path, start, first, n - 1);
      var log := CallLog(feed, path, start, first, n);
      assert log == prev + [ListFolderContinue(FeedAt(feed, first + n - 2).cursor)];
      forall k: nat | first <= k < first + n - 1
        ensures Continued(feed, start, k)
        ensures log[k - first + 1] == ListFolderContinue(FeedAt(feed, k).cursor)
      {
        if k < first + n - 2 {
          assert log[k - first + 1] == prev[k - first + 1];
        }
      }
    }
  }

  /** The walk is between pages and is about to make its next call. */
  ghost predicate WalkAwaiting(feed: seq<Response>, path: string, w: Walk)
  {
    && WalkRequestsMade(feed, path, w)
    && (w.fetched > w.first ==> Continued(feed, w.start, w.fetched - 1))
    && w.cursor == (if w.fetched == w.first then None else Some(FeedAt(feed, w.fetched - 1).cursor))
    && WalkSnapshot(feed, w).entries == w.yielded + ListingFrom(feed, w.fetched, w.start).entries
    && WalkSnapshot(feed, w).failed == ListingFrom(feed, w.fetched, w.start).failed
  }

  /** The walk is inside the page of the latest call, at position `pos`. */
  ghost predicate WalkInPage(feed: seq<Response>, path: string, w: Walk)
  {
    && WalkRequestsMade(feed, path, w)
    && w.fetched > w.first && w.page == FeedAt(feed, w.fetched - 1) && w.page.Page?
    && w.pos <= |w.page.entries| && !HasBoundary(w.page.entries[..w.pos], w.start)
    && (w.fetched - 1 > w.first ==> Continued(feed, w.start, w.fetched - 2))
    && w.cursor == (if w.fetched - 1 == w.first then None else Some(FeedAt(feed, w.fetched - 2).cursor))
    && WalkSnapshot(feed, w).entries
       == w.yielded + Resume(feed, w.page.entries[w.pos..], w.page.hasMore, w.fetched, w.start).entries
    && WalkSnapshot(feed, w).failed
       == Resume(feed, w.page.entries[w.pos..], w.page.hasMore, w.fetched, w.start).failed
  }

  /** The walk has ended: everything the enumeration yields has been yielded. */
  ghost predicate WalkDone(feed: seq<Response>, path: string, w: Walk)
  {
    WalkRequestsMade(feed, path, w) && w.yielded == WalkSnapshot(feed, w).entries
  }

  /** A fresh enumeration starts awaiting its first call, without a cursor. */
  lemma StartAwaits(feed: seq<Response>, path: string, w: Walk)
    requires w.fetched == w.first && w.cursor == None && w.yielded == [] && w.requests == []
    ensures WalkAwaiting(feed, path, w)
  {
    assert [] + ListingFrom(feed, w.fetched, w.start).entries == ListingFrom(feed, w.fetched, w.start).entries;
  }

  /** Making the next call: a failure ends the walk, a page is entered at its start. */
  lemma FetchStep(feed: seq<Response>, path: string, w: Walk)
    requires WalkAwaiting(feed, path, w)
    ensures var w' := w.(fetched := w.fetched + 1, page := FeedAt(feed, w.fetched), pos := 0,
                         requests := w.requests + [NextRequest(path, w.cursor)]);
            && (w'.page.Page? ==> w.fetched < |feed| && WalkInPage(feed, path, w'))
            && (w'.page.Failure? ==> WalkDone(feed, path, w') && WalkSnapshot(feed, w').failed)
  {
    var w' := w.(fetched := w.fetched + 1, page := FeedAt(feed, w.fetched), pos := 0,
                 requests := w.requests + [NextRequest(path, w.cursor)]);
    var n := |w.requests|;
    RequestsExtend(feed, path, w, w');
    var rest := ListingFrom(feed, w.fetched, w.start);
    assert WalkSnapshot(feed, w') == WalkSnapshot(feed, w);
    if w'.page.Page? {
      assert w.fetched < |feed| && feed[w.fetched] == w'.page;
      assert w'.page.entries[0..] == w'.page.entries;
      assert !HasBoundary(w'.page.entries[..0], w.start);
      assert rest == Resume(feed, w'.page.entries, w'.page.hasMore, w'.fetched, w.start);
    } else {
      assert rest == Listing([], true);
      assert w.yielded + [] == w.yielded;
    }
  }

  /** Appending the call the walk makes next keeps the record of calls. */
  lemma RequestsExtend(feed: seq<Response>, path: string, w: Walk, w': Walk)
    requires WalkAwaiting(feed, path, w)
    requires w'.first == w.first && w'.start == w.start && w'.fetched == w.fetched + 1
    requires w'.requests == w.requests + [NextRequest(path, w.cursor)]
    ensures WalkRequestsMade(feed, path, w')
  {
  }

  /** The record of calls does not depend on the cursor, page, position or yield. */
  lemma RequestsMadeFrame(feed: seq<Response>, path: string, w: Walk, w': Walk)
    requires WalkRequestsMade(feed, path, w)
    requires w'.first == w.first && w'.fetched == w.fetched && w'.start == w.start
    requires w'.requests == w.requests
    ensures WalkRequestsMade(feed, path, w')
  {
  }

  /** A tombstone is skipped. */
  lemma SkipStep(feed: seq<Response>, path: string, w: Walk)
    requires WalkInPage(feed, path, w) && w.pos < |w.page.entries| && w.page.entries[w.pos].Deleted?
    ensures WalkInPage(feed, path, w.(pos := w.pos + 1))
  {
    var tail := w.page.entries[w.pos..];
    assert tail[0] == w.page.entries[w.pos] && tail[1..] == w.page.entries[w.pos + 1..];
    RequestsMadeFrame(feed, path, w, w.(pos := w.pos + 1));
    ResumeAdvance(feed, tail, w.page.hasMore, w.fetched, w.start);
    BoundaryFreeExtends(w.page.entries, w.pos, w.start);
    assert [] + Resume(feed, tail[1..], w.page.hasMore, w.fetched, w.start).entries
        == Resume(feed, tail[1..], w.page.hasMore, w.fetched, w.start).entries;
  }

  /** A boundary file ends the walk, after the page's cursor is kept. */
  lemma BoundaryStep(feed: seq<Response>, path: string, w: Walk)
    requires WalkInPage(feed, path, w) && w.pos < |w.page.entries|
    requires TooNew(w.page.entries[w.pos], w.start)
    ensures WalkDone(feed, path, w.(pos := w.pos + 1, cursor := Some(w.page.cursor)))
    ensures !WalkSnapshot(feed, w).failed
  {
    var tail := w.page.entries[w.pos..];
    assert tail[0] == w.page.entries[w.pos];
    RequestsMadeFrame(feed, path, w, w.(pos := w.pos + 1, cursor := Some(w.page.cursor)));
    ResumeAtBoundary(feed, tail, w.page.hasMore, w.fetched, w.start);
    assert w.yielded + [] == w.yielded;
  }

  /** Any other entry is yielded. */
  lemma YieldStep(feed: seq<Response>, path: string, w: Walk)
    requires WalkInPage(feed, path, w) && w.pos < |w.page.entries|
    requires !w.page.entries[w.pos].Deleted? && !TooNew(w.page.entries[w.pos], w.start)
    ensures WalkInPage(feed, path, w.(pos := w.pos + 1, yielded := w.yielded + [w.page.entries[w.pos]]))
  {
    var f := w.page.entries[w.pos];
    var tail := w.page.entries[w.pos..];
    assert tail[0] == f && tail[1..] == w.page.entries[w.pos + 1..];
    RequestsMadeFrame(feed, path, w, w.(pos := w.pos + 1, yielded := w.yielded + [f]));
    ResumeAdvance(feed, tail, w.page.hasMore, w.fetched, w.start);
    BoundaryFreeExtends(w.page.entries, w.pos, w.start);
    var rest := Resume(feed, tail[1..], w.page.hasMore, w.fetched, w.start).entries;
    assert w.yielded + ([f] + rest) == (w.yielded + [f]) + rest;
  }

  /** The end of a page: its cursor is kept; the walk goes on only if the page has more. */
  lemma PageEndStep(feed: seq<Response>, path: string, w: Walk)
    requires WalkInPage(feed, path, w) && w.pos == |w.page.entries|
    ensures var w' := w.(cursor := Some(w.page.cursor));
            && (w.page.hasMore ==> WalkAwaiting(feed, path, w'))
            && (!w.page.hasMore ==> WalkDone(feed, path, w') && !WalkSnapshot(feed, w').failed)
  {
    RequestsMadeFrame(feed, path, w, w.(cursor := Some(w.page.cursor)));
    assert w.page.entries[w.pos..] == [];
    assert w.page.entries[..w.pos] == w.page.entries;
    ResumeAtEnd(feed, w.page.hasMore, w.fetched, w.start);
    if !w.page.hasMore {
      assert w.yielded + [] == w.yielded;
    }
  }

  /** The lister's invariant: a fresh enumeration has done nothing, a running
      one is inside a page, a finished one has yielded its whole snapshot. */
  ghost predicate WalkValid(feed: seq<Response>, path: string, started: bool, stopped: bool, w: Walk)
  {
    match started
    case false => w.first <= w.fetched && !stopped && w.yielded == [] && w.requests == []
    case true => if stopped then WalkDone(feed, path, w) else WalkInPage(feed, path, w)
  }

  /** What a valid walk has yielded is a prefix of its snapshot, holding no
      tombstone and no file newer than the boundary. */
  lemma ValidWalkYieldsPrefix(feed: seq<Response>, path: string, started: bool, stopped: bool, w: Walk)
    requires WalkValid(feed, path, started, stopped, w)
    ensures w.yielded <= WalkSnapshot(feed, w).entries
    ensures forall e :: e in w.yielded ==> !e.Deleted? && !TooNew(e, w.start)
  {
  }

  /** The calls a started enumeration has made: one per call number since its
      first, the first by path (the empty path at the root), and each later
      one a continuation from the cursor of the page before it, which said
      it had more and held no boundary file. */
  lemma ValidWalkRequests(feed: seq<Response>, path: string, stopped: bool, w: Walk)
    requires WalkValid(feed, path, true, stopped, w)
    ensures |w.requests| == w.fetched - w.first
    ensures |w.requests| > 0 ==> w.requests[0] == ListFolder(RequestPath(path))
    ensures forall k: nat :: w.first <= k < w.fetched - 1 ==>
              && FeedAt(feed, k).Page? && FeedAt(feed, k).hasMore
              && !HasBoundary(FeedAt(feed, k).entries, w.start)
              && w.requests[k - w.first + 1] == ListFolderContinue(FeedAt(feed, k).cursor)
  {
    CallLogEntries(feed, path, w.start, w.first, w.fetched - w.first);
  }
}
