/** The objects the file system hands out: open files, open directories,
    and the registration tuple of a change watch. */
module Handles {
  import opened Types
  import opened Directory

  /** An open file (`_File`): the lower-cased path it was opened at and the
      remote id, or "/" for the root. Reading is not part of this model. */
  class FileObject {
    const pathLower: string
    const id: string
    var offset: nat

    constructor (pathLower: string, id: string)
      ensures this.pathLower == pathLower && this.id == id && offset == 0
    {
      this.pathLower := pathLower;
      this.id := id;
      offset := 0;
    }
  }

  /** Whatever a caller passes as a handle: one of ours, or anything else. */
  datatype Handle = FileHandle(file: FileObject) | DirectoryHandle(dir: DirectoryLister) | OtherObject

  /** Callbacks are compared by identity; a number stands for one. */
  type CallbackId = nat

  /** The tuple `(cb, dir_handle, completion_filter, watch_tree)` a watch
      registers: the scope is the handle's lower-cased path. The completion
      filter is a mask of `FILE_NOTIFY_CHANGE_*` flags (bit `x` for the
      `x`-th of the twelve names); it is carried but never consulted. */
  datatype Watch = Watch(cb: CallbackId, handle: FileObject, completionFilter: int, recursive: bool)
  {
    function Scope(): string
    {
      handle.pathLower
    }
  }
}
