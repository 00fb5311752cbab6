/** The file system object: metadata lookup with its root special case,
    `stat`/`fstat`, opening files and directories, and the registry of
    change watches. */
module Dbfs {
  import opened Types
  import opened StatTranslation
  import opened Lister
  import opened Directory
  import opened Handles

  // ---------------------------------------------------------------------
  // Metadata lookup

  /** What the remote metadata call answers for a path: a descriptor, an
      API error about the path, or any other API error. */
  datatype Lookup = Found(md: Descriptor) | PathError | OtherApiError

  /** The descriptor `_get_md_inner` makes up for the root, which the remote
      store cannot describe; it carries no id. */
  const RootFolder: Descriptor := Folder("/", "/", "")

  /** `_get_md_inner`: the root is answered locally, without a remote call;
      any other path is looked up, a path error becomes ENOENT and any other
      API error is passed on. */
  function GetMdInner(path: string, remote: Lookup): (r: Result<Descriptor>)
    ensures path == "/" ==> r == Ok(RootFolder)
    ensures path != "/" && remote.Found? ==> r == Ok(remote.md)
    ensures path != "/" && remote.PathError? ==> r == Err(NotFound)
    ensures path != "/" && remote.OtherApiError? ==> r == Err(RemoteFailure)
  {
    if path == "/" then Ok(RootFolder)
    else
      match remote
      case Found(md) => Ok(md)
      case PathError => Err(NotFound)
      case OtherApiError => Err(RemoteFailure)
  }

  /** `stat` (through `_get_md`): the looked-up descriptor as a stat record. */
  function StatOf(path: string, now: Timestamp, remote: Lookup): (r: Result<Stat>)
    ensures r.Ok? <==> GetMdInner(path, remote).Ok?
    ensures r.Ok? ==> r.value == MdToStat(GetMdInner(path, remote).value, now)
    ensures r.Err? ==> r.error == GetMdInner(path, remote).error
  {
    match GetMdInner(path, remote)
    case Ok(md) => Ok(MdToStat(md, now))
    case Err(e) => Err(e)
  }

  /** The root stats as a directory of size 0 named "/", dated `now`,
      whatever the remote store would have said. */
  lemma StatOfRoot(now: Timestamp, remote: Lookup)
    ensures StatOf("/", now, remote) == Ok(Stat("/", DirectoryKind, 0, now))
  {
  }

  /** `fstat`: the stat of whatever the handle's id names; the id of a
      handle opened at the root is "/", which is answered locally. */
  function Fstat(file: FileObject, now: Timestamp, remote: Lookup): (r: Result<Stat>)
    ensures file.id == "/" ==> r == Ok(Stat("/", DirectoryKind, 0, now))
    ensures file.id != "/" && remote.Found? ==> r == Ok(MdToStat(remote.md, now))
    ensures file.id != "/" && remote.PathError? ==> r == Err(NotFound)
    ensures file.id != "/" && remote.OtherApiError? ==> r == Err(RemoteFailure)
  {
    StatOf(file.id, now, remote)
  }

  /** The id an opened handle keeps: "/" at the root, the remote id elsewhere. */
  function HandleId(md: Descriptor): (r: string)
    ensures md.pathLower == "/" ==> r == "/"
    ensures md.pathLower != "/" ==> r == md.id
  {
    if md.pathLower == "/" then "/" else md.id
  }

  /** A remove that takes out the first element equal to `x`, as
      `list.remove` does; the caller checks that there is one. */
  function RemoveFirst<T(==)>(s: seq<T>, x: T): (r: seq<T>)
    ensures x !in s ==> r == s
    ensures x in s ==> |r| == |s| - 1
    ensures forall y :: y in r ==> y in s
    decreases |s|
  {
    if s == [] then []
    else if s[0] == x then s[1..]
    else [s[0]] + RemoveFirst(s[1..], x)
  }

  /** Removing the first occurrence takes exactly one copy away. */
  lemma {:induction false} RemoveFirstMultiset<T>(s: seq<T>, x: T)
    requires x in s
    ensures multiset(RemoveFirst(s, x)) == multiset(s) - multiset{x}
    ensures |RemoveFirst(s, x)| == |s| - 1
    decreases |s|
  {
    if s[0] == x {
      assert s == [s[0]] + s[1..];
    } else {
      RemoveFirstMultiset(s[1..], x);
      assert s == [s[0]] + s[1..];
    }
  }

  /** Elements before the first occurrence keep their places; the rest
      move up by one. */
  lemma {:induction false} RemoveFirstShape<T>(s: seq<T>, x: T, k: nat)
    requires k < |s| && s[k] == x && x !in s[..k]
    ensures RemoveFirst(s, x) == s[..k] + s[k + 1..]
    decreases k
  {
    if k > 0 {
      assert s[1..][..k - 1] == s[1..k];
      assert s[1..][k - 1] == x;
      assert s[..k] == [s[0]] + s[1..][..k - 1];
      RemoveFirstShape(s[1..], x, k - 1);
      assert s[1..][k..] == s[k + 1..];
    }
  }

  /** Stopping a watch right after registering it gives the registry back
      unchanged when that tuple was not registered before. */
  lemma RegisterThenStop<T>(ws: seq<T>, t: T)
    requires t !in ws
    ensures RemoveFirst(ws + [t], t) == ws
  {
    var s := ws + [t];
    assert s[|ws|] == t;
    assert s[..|ws|] == ws;
    RemoveFirstShape(s, t, |ws|);
    assert s[|ws| + 1..] == [];
    assert ws + [] == ws;
  }

  /** With an equal tuple registered before (its first copy at `k`), stopping
      the new registration removes that earlier copy instead, and the new one
      stays at the end. The registry comes back in its old order exactly when
      every tuple from `k` on equals the one registered. */
  lemma RegisterThenStopRemovesEarlierCopy<T>(ws: seq<T>, t: T, k: nat)
    requires k < |ws| && ws[k] == t && t !in ws[..k]
    ensures RemoveFirst(ws + [t], t) == ws[..k] + ws[k + 1..] + [t]
    ensures RemoveFirst(ws + [t], t) == ws <==> forall j :: k <= j < |ws| ==> ws[j] == t
  {
    var s := ws + [t];
    assert s[..k] == ws[..k];
    assert s[k + 1..] == ws[k + 1..] + [t];
    RemoveFirstShape(s, t, k);
    var r := ws[..k] + ws[k + 1..] + [t];
    assert |r| == |ws|;
    if forall j :: k <= j < |ws| ==> ws[j] == t {
      forall j | 0 <= j < |ws|
        ensures r[j] == ws[j]
      {
        if j >= k && j < |ws| - 1 {
          assert r[j] == ws[j + 1];
        }
      }
    }
    if r == ws {
      forall j | k <= j < |ws|
        ensures ws[j] == t
      {
        ShiftedTail(ws, t, k, j);
      }
    }
  }

  /** If dropping `ws[k]` and appending `t` gives `ws` back, every entry from
      `k` on is `t`. */
  lemma {:induction false} ShiftedTail<T>(ws: seq<T>, t: T, k: nat, j: nat)
    requires k <= j < |ws| && ws[..k] + ws[k + 1..] + [t] == ws
    ensures ws[j] == t
    decreases |ws| - j
  {
    var r := ws[..k] + ws[k + 1..] + [t];
    if j == |ws| - 1 {
      assert r[j] == t;
    } else {
      assert r[j] == ws[j + 1];
      ShiftedTail(ws, t, k, j + 1);
    }
  }

  // ---------------------------------------------------------------------
  // The file system object

  class FileSystem {
    /** `self._watches`: the registered watch tuples, in registration order. */
    var watches: seq<Watch>

    /** A new file system has no watches. Starting the poller thread and the
        per-thread clients are not part of this model. */
    constructor ()
      ensures watches == []
    {
      watches := [];
    }

    /** `open`: a handle on the path's lower-cased form, with id "/" at the
        root and the remote id elsewhere. The descriptor's kind is not
        checked, so a folder opens as a file too. */
    method Open(path: string, remote: Lookup) returns (r: Result<FileObject>)
      ensures GetMdInner(path, remote).Err? ==> r == Err(GetMdInner(path, remote).error)
      ensures GetMdInner(path, remote).Ok? ==>
                && r.Ok? && fresh(r.value)
                && r.value.pathLower == GetMdInner(path, remote).value.pathLower
                && r.value.id == HandleId(GetMdInner(path, remote).value)
                && r.value.offset == 0
    {
      var md := GetMdInner(path, remote);
      if md.Err? {
        return Err(md.error);
      }
      var f := new FileObject(md.value.pathLower, HandleId(md.value));
      return Ok(f);
    }

    /** `open_directory`: a directory handle on the path's lower-cased form
        whose listing calls are answered by `feed`; nothing is listed until
        it is first read. */
    method OpenDirectory(path: string, remote: Lookup, feed: seq<Response>) returns (r: Result<DirectoryLister>)
      ensures GetMdInner(path, remote).Err? ==> r == Err(GetMdInner(path, remote).error)
      ensures GetMdInner(path, remote).Ok? ==>
                && r.Ok? && fresh(r.value) && r.value.Valid() && !r.value.started
                && r.value.path == GetMdInner(path, remote).value.pathLower
                && r.value.id == HandleId(GetMdInner(path, remote).value)
                && r.value.feed == feed && r.value.fetched == 0
    {
      var md := GetMdInner(path, remote);
      if md.Err? {
        return Err(md.error);
      }
      var d := new DirectoryLister(md.value.pathLower, HandleId(md.value), feed);
      return Ok(d);
    }

    /** `create_watch`: only an open file handle can be watched (anything
        else is EINVAL and registers nothing); the tuple is appended and
        returned, standing for its `stop` closure. */
    method CreateWatch(cb: CallbackId, handle: Handle, completionFilter: int, recursive: bool)
      returns (r: Result<Watch>)
      modifies this
      ensures !handle.FileHandle? ==> r == Err(InvalidArgument) && watches == old(watches)
      ensures handle.FileHandle? ==>
                && r == Ok(Watch(cb, handle.file, completionFilter, recursive))
                && watches == old(watches) + [r.value]
    {
      if !handle.FileHandle? {
        return Err(InvalidArgument);
      }
      var tag := Watch(cb, handle.file, completionFilter, recursive);
      watches := watches + [tag];
      return Ok(tag);
    }

    /** The `stop` closure: remove the first registered tuple equal to the
        tag, or fail as `list.remove` does when there is none. */
    method Stop(tag: Watch) returns (r: Result<()>)
      modifies this
      ensures tag !in old(watches) ==> r == Err(NotRegistered) && watches == old(watches)
      ensures tag in old(watches) ==> r == Ok(()) && watches == RemoveFirst(old(watches), tag)
    {
      if tag !in watches {
        return Err(NotRegistered);
      }
      watches := RemoveFirst(watches, tag);
      return Ok(());
    }
  }

  /** Registering a watch and then stopping it leaves the registry with the
      contents it had before: the same multiset of tuples, and the very same
      list when no equal tuple was registered before. */
  method RegisterAndStop(fs: FileSystem, cb: CallbackId, file: FileObject, completionFilter: int, recursive: bool)
    returns (stopped: Result<()>)
    modifies fs
    ensures stopped == Ok(())
    ensures multiset(fs.watches) == multiset(old(fs.watches))
    ensures Watch(cb, file, completionFilter, recursive) !in old(fs.watches) ==> fs.watches == old(fs.watches)
  {
    var r := fs.CreateWatch(cb, FileHandle(file), completionFilter, recursive);
    var tag := r.value;
    assert tag in fs.watches by {
      assert fs.watches[|fs.watches| - 1] == tag;
    }
    stopped := fs.Stop(tag);
    RemoveFirstMultiset(old(fs.watches) + [tag], tag);
    assert multiset(old(fs.watches) + [tag]) == multiset(old(fs.watches)) + multiset{tag};
    if tag !in old(fs.watches) {
      RegisterThenStop(old(fs.watches), tag);
    }
  }
}
