/** The error type of the library (`src/bagit/error.rs`) and its `Result` alias. */
module Errors {
  import opened Common

  /** The `std::io::ErrorKind`s that the library distinguishes; every other kind is `OtherKind`. */
  datatype IoErrorKind = NotFound | PermissionDenied | OtherKind

  /**
   * One constructor per variant of `Error`. An I/O source is reduced to its
   * kind; the `walkdir` and UTF-8 sources carry no information the model uses.
   */
  datatype Error =
    | IoGeneral(kind: IoErrorKind)
    | IoCreate(kind: IoErrorKind, path: Path)
    | IoWrite(kind: IoErrorKind, path: Path)
    | IoRead(kind: IoErrorKind, path: Path)
    | IoReadDir(kind: IoErrorKind, path: Path)
    | IoMove(kind: IoErrorKind, origin: Path, destination: Path)
    | IoCopy(kind: IoErrorKind, origin: Path, destination: Path)
    | IoDelete(kind: IoErrorKind, path: Path)
    | IoStat(kind: IoErrorKind, path: Path)
    | WalkFile
    | UnsupportedFile(path: Path)
    | InvalidTagLine(details: string)
    | InvalidTagLineWithRef(path: Path, num: nat, details: string)
    | InvalidTag(tagLabel: string, details: string)
    | InvalidBagItVersion(value: string)
    | MissingTag(tag: string)
    | UnsupportedVersion(major: byte, minor: byte)
    | UnsupportedEncoding(encoding: string)
    | InvalidString
    | InvalidUtf8Path(path: Path)

  datatype Result<T> = Ok(value: T) | Err(error: Error)
}
