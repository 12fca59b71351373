/** Option and Result wrappers, and the ways a read of the control data can end. */
module Outcomes {

  datatype Option<+T> = None | Some(value: T)

  datatype Result<+T, +E> = Success(value: T) | Failure(error: E)

  /** Which exit the reader took. Every exit except `Processed` logs a warning and
      hands back the default record; the kind is kept apart only for the log. */
  datatype Status =
    | Processed              // the control file was read in full and decoded
    | MarkerUnreadable       // PG_VERSION could not be opened
    | VersionUnparseable     // PG_VERSION holds no token at all
    | VersionUnsupported     // the version number is below the oldest known layout
    | ControlFileUnreadable  // global/pg_control could not be opened
    | ControlFileTruncated   // the read returned fewer bytes than the layout's size
}
