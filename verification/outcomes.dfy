/** Failure-carrying values shared by every part of the store manager. */
module Outcomes {

  datatype Option<+T> = None | Some(value: T)

  /** The error numbers that the file system calls used by the store can raise. */
  datatype Errno = EEXIST | ENOENT | ENOTDIR | EBUSY | EINVAL | ENOTEMPTY

  /** Every way a command can stop with an exception (`raise`, `expect` or an `Errno` from FileUtils). */
  datatype Error =
    | ArchiveNotFound          // the archive path does not exist
    | NotAnArchive             // the file-type probe does not report an RPM
    | UnrecognizedPackageKind  // neither `.src.rpm` nor `-debuginfo-...rpm`
    | ToolMissing              // rpm2cpio or cpio is not on the PATH
    | ExtractionFailed         // the rpm2cpio | cpio pipe exited unsuccessfully
    | NotADirectory            // a path that must be a directory is something else
    | SystemCallFailed(errno: Errno)
    | Usage                    // wrong number of command arguments

  datatype Result<+T> = Ok(value: T) | Err(error: Error)

  /** The result of a step that either completes or raises. */
  datatype Outcome = Pass | Fail(error: Error)
}
