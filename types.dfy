/** Values shared by every part of the model: the remote store's entry
    descriptors, timestamps, cursors and the errors the file system raises. */
module Types {

  datatype Option<+T> = None | Some(value: T)

  /** The errors the file system surfaces: ENOENT, EINVAL, a remote API error
      that is re-raised unchanged, and the ValueError of `list.remove`. */
  datatype Error = NotFound | InvalidArgument | RemoteFailure | NotRegistered

  datatype Result<+T> = Ok(value: T) | Err(error: Error)

  /** Timestamps are whole numbers (seconds); the clocks are inputs. */
  type Timestamp = int

  /** An opaque resumable position in a listing or in the change feed. */
  type Cursor = string

  /** A remote entry as the store describes it: a file, a folder, or the
      tombstone of a deleted entry. */
  datatype Metadata =
    | File(name: string, pathLower: string, id: string, size: nat,
           clientModified: Timestamp, serverModified: Timestamp)
    | Folder(name: string, pathLower: string, id: string)
    | Deleted(name: string, pathLower: string)

  /** A descriptor of a live entry; tombstones are never translated to stat records. */
  type Descriptor = md: Metadata | !md.Deleted? witness Folder("", "", "")
}
