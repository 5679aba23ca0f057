/** Types shared by the components. */
module Common {
  datatype Option<+T> = None | Some(value: T)

  /** Result codes of the log and of the checkpoint.  `OutOfBounds` is not one of
      the program's: it stands for the runs on which a loader computes an address
      outside its buffer. */
  datatype Code =
    | OK
    | Uninited
    | Unloaded
    | Locking
    | FileCorrupt
    | FileSystemError
    | EncodeEntryError
    | DecodeEntryError
    | EntryBytesSizeOverflow
    | InvalidEntryId
    | MissingFile
    | UnknownChildProcessError
    | OutOfBounds
}
