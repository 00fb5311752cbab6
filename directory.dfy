/** The directory handle an `opendir` returns: one enumeration at a time
    over the listing calls, walked as the source's generator walks it. */
module Directory {
  import opened Types
  import opened StatTranslation
  import opened Lister

  /** An open directory handle; each `_Directory` owns one enumeration (a
      generator) at a time, and `reset` replaces it by a fresh one. */
  class DirectoryLister {
    const path: string
    const id: string
    /** The remote store's responses to this handle's listing calls, in call order. */
    const feed: seq<Response>

    /** How many listing calls this handle has made; the next one gets `FeedAt(feed, fetched)`. */
    var fetched: nat
    /** `self._cursor`. */
    var cursor: Option<Cursor>
    /** The current enumeration has begun (its first `next()` has run). */
    var started: bool
    /** The current enumeration is exhausted; every further `next()` raises StopIteration. */
    var stopped: bool
    /** The snapshot boundary of the current enumeration. */
    var start: Timestamp
    /** The page being walked (`res`) and the walk's position in it. */
    var page: Response
    var pos: nat

    /** The call number of the current enumeration's first call. */
    ghost var first: nat
    /** The entries the current enumeration has yielded so far. */
    ghost var yielded: seq<Metadata>
    /** The listing calls the current enumeration has made, in order. */
    ghost var requests: seq<Request>

    ghost function State(): Walk
      reads this
    {
      Walk(fetched, cursor, start, page, pos, first, yielded, requests)
    }

    /** Everything the current enumeration yields if it is read to the end. */
    ghost function Snapshot(): Listing
      reads this
    {
      ListingFrom(feed, first, start)
    }

    ghost predicate Valid()
      reads this
    {
      WalkValid(feed, path, started, stopped, State())
    }

    /** `_Directory(fs, path, id_)`, which begins with `reset()`. */
    constructor (path: string, id: string, feed: seq<Response>)
      ensures Valid() && !started
      ensures this.path == path && this.id == id && this.feed == feed
      ensures fetched == 0 && yielded == [] && requests == []
    {
      this.path := path;
      this.id := id;
      this.feed := feed;
      fetched := 0;
      cursor := None;
      started := false;
      stopped := false;
      start := 0;
      page := Failure;
      pos := 0;
      first := 0;
      yielded := [];
      requests := [];
    }

    /** `reset`: a fresh enumeration replaces the current one. Nothing runs
        until the next `next()`, so the boundary and the cursor are only
        renewed then. */
    method Reset()
      requires Valid()
      modifies this
      ensures Valid() && !started && !stopped
      ensures fetched == old(fetched) && cursor == old(cursor)
      ensures yielded == [] && requests == []
    {
      started := false;
      stopped := false;
      first := fetched;
      yielded := [];
      requests := [];
    }

    /** The loop's call: `files_list_folder` without a cursor, else
        `files_list_folder_continue`. A remote error ends the enumeration. */
    method FetchPage() returns (ok: bool)
      requires started && !stopped && WalkAwaiting(feed, path, State())
      modifies this`requests, this`page, this`fetched, this`pos, this`stopped
      ensures fetched == old(fetched) + 1 && started
      ensures ok ==> old(fetched) < |feed| && !stopped && WalkInPage(feed, path, State())
      ensures !ok ==> stopped && WalkDone(feed, path, State()) && Snapshot().failed
    {
      FetchStep(feed, path, State());
      requests := requests + [NextRequest(path, cursor)];
      page := FeedAt(feed, fetched);
      fetched := fetched + 1;
      pos := 0;
      if page.Failure? {
        stopped := true;
        return false;
      }
      return true;
    }

    /** One turn of the loop over a page's entries: skip a tombstone, stop at
        a boundary file, or take the entry for yielding. */
    method WalkEntry() returns (f: Metadata)
      requires started && !stopped && WalkInPage(feed, path, State()) && pos < |page.entries|
      modifies this`pos, this`cursor, this`stopped, this`yielded
      ensures f == old(page.entries[pos]) && pos == old(pos) + 1 && started
      ensures f.Deleted? ==> !stopped && yielded == old(yielded) && WalkInPage(feed, path, State())
      ensures TooNew(f, start) ==>
                stopped && yielded == old(yielded) && WalkDone(feed, path, State()) && !Snapshot().failed
      ensures TooNew(f, start) ==> cursor == Some(page.cursor)
      ensures !TooNew(f, start) ==> cursor == old(cursor)
      ensures !f.Deleted? && !TooNew(f, start) ==>
                !stopped && yielded == old(yielded) + [f] && WalkInPage(feed, path, State())
    {
      f := page.entries[pos];
      if f.Deleted? {
        SkipStep(feed, path, State());
        pos := pos + 1;
      } else if f.File? && f.serverModified > start {
        BoundaryStep(feed, path, State());
        pos := pos + 1;
        cursor := Some(page.cursor);
        stopped := true;
      } else {
        YieldStep(feed, path, State());
        pos := pos + 1;
        yielded := yielded + [f];
      }
    }

    /** The end of a page: keep its cursor, and stop unless it has more. */
    method EndPage()
      requires started && !stopped && WalkInPage(feed, path, State()) && pos == |page.entries|
      modifies this`cursor, this`stopped
      ensures cursor == Some(page.cursor) && started
      ensures !page.hasMore ==> stopped && WalkDone(feed, path, State()) && !Snapshot().failed
      ensures page.hasMore ==> !stopped && WalkAwaiting(feed, path, State())
    {
      PageEndStep(feed, path, State());
      cursor := Some(page.cursor);
      if !page.hasMore {
        stopped := true;
      }
    }

    /** `__next__`: run the enumeration up to its next yield. Its first step
        takes the boundary from `clock.utc` and clears the cursor. A remote
        error escapes and ends the enumeration for good. */
    method Next(clock: Clock) returns (r: NextResult)
      requires Valid()
      modifies this
      ensures Valid() && started
      ensures old(started) ==> start == old(start) && first == old(first)
      ensures !old(started) ==> start == clock.utc && first == old(fetched)
      ensures fetched >= old(fetched)
      ensures yielded <= Snapshot().entries
      ensures forall e :: e in yielded ==> !e.Deleted? && !TooNew(e, start)
      ensures old(stopped) ==> r == StopIteration && yielded == old(yielded) && fetched == old(fetched)
      ensures r.Item? ==>
                && |yielded| == |old(yielded)| + 1
                && yielded[..|old(yielded)|] == old(yielded)
                && r.stat == MdToStat(yielded[|old(yielded)|], clock.local)
      ensures !r.Item? ==> stopped && yielded == old(yielded) && yielded == Snapshot().entries
      ensures !old(stopped) && !r.Item? ==> (r.Raised? <==> Snapshot().failed)
    {
      if stopped {
        ValidWalkYieldsPrefix(feed, path, started, stopped, State());
        return StopIteration;
      }
      if !started {
        Begin(clock);
        var ok := FetchPage();
        if !ok {
          ValidWalkYieldsPrefix(feed, path, started, stopped, State());
          return Raised;
        }
      }
      r := Advance(clock);
      ValidWalkYieldsPrefix(feed, path, started, stopped, State());
    }

    /** The first step of an enumeration: the boundary is the UTC time now
        and there is no cursor yet. */
    method Begin(clock: Clock)
      requires !started && !stopped && first <= fetched
      modifies this`started, this`start, this`cursor, this`first, this`yielded, this`requests
      ensures started && !stopped && start == clock.utc && first == fetched
      ensures yielded == [] && WalkAwaiting(feed, path, State())
    {
      started := true;
      start := clock.utc;
      cursor := None;
      first := fetched;
      yielded := [];
      requests := [];
      StartAwaits(feed, path, State());
    }

    /** The loop of `__next__`, from the current position in the current
        page up to the next yield. */
    method Advance(clock: Clock) returns (r: NextResult)
      requires started && !stopped && WalkInPage(feed, path, State())
      modifies this`requests, this`page, this`fetched, this`pos, this`stopped, this`cursor, this`yielded
      ensures started && fetched >= old(fetched)
      ensures r.Item? ==>
                && !stopped && WalkInPage(feed, path, State())
                && |yielded| == |old(yielded)| + 1
                && yielded[..|old(yielded)|] == old(yielded)
                && !yielded[|old(yielded)|].Deleted?
                && r.stat == MdToStat(yielded[|old(yielded)|], clock.local)
      ensures !r.Item? ==> stopped && yielded == old(yielded) && WalkDone(feed, path, State())
      ensures !r.Item? ==> (r.Raised? <==> Snapshot().failed)
    {
      while true
        invariant started && !stopped && fetched <= |feed|
        invariant fetched >= old(fetched) && yielded == old(yielded)
        invariant WalkInPage(feed, path, State())
        decreases |feed| - fetched, |page.entries| - pos
      {
        if pos < |page.entries| {
          var f := WalkEntry();
          if TooNew(f, start) {
            r := StopIteration;
            break;
          } else if !f.Deleted? {
            r := Item(MdToStat(f, clock.local));
            break;
          }
        } else {
          EndPage();
          if !page.hasMore {
            r := StopIteration;
            break;
          }
          var ok := FetchPage();
          if !ok {
            r := Raised;
            break;
          }
        }
      }
    }

    /** `read`: the next stat record, `None` once the enumeration is
        exhausted, or the remote error. */
    method Read(clock: Clock) returns (r: Result<Option<Stat>>)
      requires Valid()
      modifies this
      ensures Valid() && started
      ensures old(started) ==> start == old(start) && first == old(first)
      ensures !old(started) ==> start == clock.utc && first == old(fetched)
      ensures forall e :: e in yielded ==> !e.Deleted? && !TooNew(e, start)
      ensures old(stopped) ==> r == Ok(None)
      ensures r.Ok? && r.value.Some? ==>
                && |yielded| == |old(yielded)| + 1
                && yielded[..|old(yielded)|] == old(yielded)
                && r.value.value == MdToStat(yielded[|old(yielded)|], clock.local)
      ensures !(r.Ok? && r.value.Some?) ==> stopped && yielded == old(yielded) && yielded == Snapshot().entries
      ensures r.Err? ==> r.error == RemoteFailure && Snapshot().failed
      ensures !old(stopped) && !(r.Ok? && r.value.Some?) ==> (r.Err? <==> Snapshot().failed)
    {
      var n := Next(clock);
      match n
      case Item(s) => r := Ok(Some(s));
      case StopIteration => r := Ok(None);
      case Raised => r := Err(RemoteFailure);
    }
  }
}
