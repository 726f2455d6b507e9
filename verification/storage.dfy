/** Shared vocabulary: optional values and the state of a JSON-backed file.

    Every manager of the system keeps its table in one JSON file that it
    re-reads on each call. The model does not represent JSON text; a file is
    either missing, present but not decodable, or present with a decoded value.
 */
module Storage {

  datatype Option<+T> = None | Some(value: T) {
    function GetOr(default: T): T {
      match this
      case Some(v) => v
      case None => default
    }
  }

  /** The state of one JSON file on disk. */
  datatype FileState<+T> = Absent | Corrupt | Ok(data: T)
}
