/**
  What travels between sender and receiver: one request per chunk, made of the
  form fields and the chunk's bytes, and one response per request.
 */
module Protocol {
  import opened Streams

  datatype Option<T> = None | Some(value: T)

  /** The form fields of one chunk upload. */
  datatype ChunkForm = ChunkForm(
    fileName: string,
    chunkIndex: int,
    chunkByteOffset: int,
    totalChunks: int,
    fileSize: int)

  datatype ChunkRequest = ChunkRequest(form: ChunkForm, payload: seq<byte>)

  /** The receiver's error outcomes, each reported with status 500. */
  datatype ErrorKind =
    | AlreadyExists   // first chunk of a name whose file is already stored
    | WriteFailure    // the store raised an OS error while opening, seeking or writing
    | SizeMismatch    // the completion check found the wrong file size
    | InternalError   // an exception the handler does not catch (a NUL in the name, an offset beyond 64 bits)

  datatype Response =
    | Accepted(chunkIndex: int, fileName: string)
    | Rejected(kind: ErrorKind)

  function StatusCode(r: Response): int
  {
    match r
    case Accepted(_, _) => 200
    case Rejected(_) => 500
  }
}
