/** The translation of a remote descriptor into a stat record
    (dropboxfs/dbfs.py, `_md_to_stat` and `stat_has_attr`). */
module StatTranslation {
  import opened Types

  datatype Kind = FileKind | DirectoryKind

  /** The `Stat` named tuple: name, type, size and mtime. */
  datatype Stat = Stat(name: string, kind: Kind, size: nat, mtime: Timestamp)

  /** Folders carry no size or modification time remotely, so they report
      size 0 and the local clock reading `now`; files report their size and
      client-side modification time. */
  function MdToStat(md: Descriptor, now: Timestamp): (r: Stat)
    ensures r.name == md.name
    ensures r.kind == DirectoryKind <==> md.Folder?
    ensures md.Folder? ==> r.size == 0 && r.mtime == now
    ensures md.File? ==> r.size == md.size && r.mtime == md.clientModified
  {
    if md.Folder? then Stat(md.name, DirectoryKind, 0, now)
    else Stat(md.name, FileKind, md.size, md.clientModified)
  }

  /** A stat record's name is always present; the other three fields are the
      optional attributes this file system reports. */
  function StatHasAttr(attr: string): (r: bool)
    ensures r ==> attr != "name"
    ensures r <==> attr == "type" || attr == "size" || attr == "mtime"
  {
    attr in ["type", "size", "mtime"]
  }
}
