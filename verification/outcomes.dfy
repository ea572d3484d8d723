/** Values standing for what the scripts' side-effecting calls hand back:
    an optional value, a Python call that either returns or raises, and one
    entry of a directory listing together with the outcome of reading it. */
module Outcomes {

  /** Python's `Optional[T]`: `None` or a value. */
  datatype Option<+T> = None | Some(value: T)

  /** A Python call that either returns a value or raises an exception
      whose `str(e)` is `message`. */
  datatype Attempt<+T> = Returned(value: T) | Raised(message: string)

  /** Reading a file as UTF-8 text: its contents, or the reason it failed
      (missing, a directory, undecodable bytes, ...). */
  datatype ReadResult = Text(text: string) | Unreadable(reason: string)

  /** One name of a directory listing and what reading it would give. */
  datatype DirEntry = DirEntry(name: string, contents: ReadResult)
}
