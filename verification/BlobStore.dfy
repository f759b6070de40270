/** What is asked of the object store about a file: its size, its content, and what a large-file pointer expands to. */
module BlobStore {
  import opened Wrappers
  import opened Bytes
  import opened GitTypes
  import opened TreeWalk

  const MAX_POINTER_SIZE: nat := 1024

  /** The object a pointer names. */
  datatype Pointer = Pointer(key: ObjectId, size: nat)

  /**
   * A blob's size and content, none if the blob is missing; and, if large files are expanded, the object a file's pointer
   * names, none unless the file's attributes and content make it a pointer to an object at hand.
   */
  datatype Store = Store(
    sizeOf: ObjectId -> Option<nat>, content: ObjectId -> Option<ByteString>, pointerOf: Option<File -> Result<Option<Pointer>>>)

  predicate HasContent(f: File) {
    f.mode == MODE_REGULAR || f.mode == MODE_EXECUTABLE
  }

  /** Key and size of a file's content: its own, unless it is small and regular and expands. */
  function Expanded(store: Store, f: File, size: nat): Result<Pointer> {
    if store.pointerOf.None? || !HasContent(f) || size == 0 || size > MAX_POINTER_SIZE then Ok(Pointer(f.oid, size))
    else
      match store.pointerOf.value(f)
      case Err(e) => Err(e)
      case Ok(None) => Ok(Pointer(f.oid, size))
      case Ok(Some(pointer)) => Ok(pointer)
  }
}
