/** Shared value types of the engine: bytes, vectors, optional values and the
    error outcomes that the PHP code raises as exceptions. */
module Types {

  /** One byte of a PHP string. */
  newtype Byte = x: int | 0 <= x < 0x100

  /** A PHP (binary) string. */
  type Bytes = seq<Byte>

  /** One vector element as `pack('f')` stores it: the four bytes of a
      single-precision float in the host's byte order. The model never
      interprets them as a number. */
  type Float32 = b: Bytes | |b| == 4 witness [0, 0, 0, 0]

  type Vector = seq<Float32>

  datatype Option<+T> = None | Some(value: T)

  /** The exceptions the storage and service classes throw. */
  datatype Error =
    | IdTooLong                 // VectorFile::append, external id over 36 bytes
    | DimensionMismatch         // VectorFile::append, vector length differs from DIMENSION
    | Corrupted                 // VectorFile::append, file size not a multiple of the row size
    | NodeNotFound(node: int)   // GraphFile::readNode past the end of the file
    | MissingVector(row: int)   // readVectorOnly gave null, so the similarity call fails
    | EncodeFailed              // PayloadFile::append, json_encode failed
    | DecodeFailed              // PayloadFile::read, json_decode failed
    | Duplicate                 // Indexer::insert of a live external id
  {
    /** A read of a graph node or a vector row that is not there. */
    predicate Lookup() {
      NodeNotFound? || MissingVector?
    }
  }

  datatype Result<+T> = Ok(value: T) | Err(error: Error) {
    predicate IsFailure() {
      Err?
    }

    function PropagateFailure<U>(): Result<U>
      requires Err?
    {
      Err(error)
    }

    function Extract(): T
      requires Ok?
    {
      value
    }
  }

  function Min(a: int, b: int): int {
    if a < b then a else b
  }

  function Max(a: int, b: int): int {
    if a < b then b else a
  }
}
