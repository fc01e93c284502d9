/** Values shared by every part of the model: optional values, results that carry the
    Python exception a call would raise, bytes and the metadata a stat returns. */
module Base {

  /** An octet of an object payload. */
  type byte = b: int | 0 <= b < 256

  datatype Option<+T> = None | Some(value: T)

  /** A Python exception, by class. A call that raises one is modelled as `Err`. */
  datatype Error =
    | TypeError        // wrong operand type, e.g. str.startswith(None) or indexing a number
    | KeyError         // a dict lookup of a missing key
    | ValueError       // a failed unpacking, a bad int() argument, strftime before 1900
    | NameError        // an unbound global name
    | AttributeError   // a method the object does not have
    | AssertionError   // a failed `assert`
    | IOError          // open() of a missing file or of a directory
    | OSError          // os.stat / os.rmdir failures
    | UnknownValueType // the renderer's own "Unknown S3 value type" exception
    | BlobMissing      // the blob service has nothing at the requested location

  datatype Result<+T> = Ok(value: T) | Err(error: Error)

  /** Python truthiness of an optional string: None and "" are false. */
  predicate Truthy(s: Option<string>) {
    s.Some? && s.value != ""
  }

  /** What `stat_object` reports about one object (timestamps are opaque seconds). */
  datatype Stat = Stat(modified: int, created: int, size: int)
}
