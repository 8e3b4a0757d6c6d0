# Chunked file upload: a Dafny model

This project models a chunked file upload in Dafny. A sender (`client.py`) cuts a file into chunks of 8 MiB. It posts one request per chunk, either serially or through a window of two requests in flight. A receiver (`main.py`) keeps a process-wide map from file name to a request counter (`SESSION`), writes each chunk into a file store, and decides when an upload is complete.

The model follows the code as written, including its quirks:
- the receiver counts requests, not chunk indices;
- every chunk write opens the file in a truncating mode, so the stored file keeps only zeros up to the last chunk's offset, followed by the last chunk;
- the size check at completion still passes.

Modules:

- `Streams`: bytes, and the rules for a write at a position, `truncate` and `read` on a stream. The sender's in-memory buffer and the receiver's files share these rules.
- `ChunkPlan`: the chunk arithmetic, which covers the number of chunks, each chunk's offset and packet size, contiguity, partition, sums, and reassembly.
- `Protocol`: the form fields of a chunk request and the receiver's responses.
- `Sender`: the name sent for a path, the planned request sequence, the buffer refill, the serial loop with its early exit, and the windowed loop with its snapshots.
- `Receiver`: the upload handler as a transition on `(session, store)`, the purge endpoint, and requests served one after the other.
- `Scenarios`: whole uploads as the receiver sees them:
  - in-order completion;
  - counting regardless of index;
  - duplicates that trigger the size check too early;
  - sessions that can never end;
  - behaviour around purge;
  - independence of different files.

The network is a parameter `post: ChunkRequest -> Response`. An OS error in the store is a parameter `WriteFault` of each delivery. The chunk size is a parameter `chunkSize > 0`; the program's constant of 8 MiB is `ChunkPlan.ChunkSize`.

Two behaviours of the code shape the model:
- Purge only deletes the files its `*` pattern lists in the data directory: a name reaching a dot-file, a subdirectory or a place outside the directory keeps its file. The session map survives it.
- The receiver updates the counter before the "already exists" check, so a refused first request still opens a session.

## Model

| member | source | states |
|---|---|---|
| `ChunkPlan.TotalChunks` | client.py:94-99 | At least one chunk; exactly one when the file fits in one chunk (the empty file included); otherwise the least count whose chunks cover the file (`Offset(n-1) < fileSize <= Offset(n)`), which is the ceiling of the quotient |
| `ChunkPlan.Divisible` | client.py:94-99 | When the chunk size divides a non-empty file, the count is the exact quotient and the chunks end exactly at the file's end |
| `ChunkPlan.EightMiBChunks` | client.py:9 | With the program's 8 MiB chunks, a file is one chunk exactly when it is at most 8 MiB, and 20 MiB go as three chunks, the last of 4 MiB |
| `ChunkPlan.OffsetIsProduct` | client.py:127 | Where chunk `i` starts, `i` whole chunks into the file, is the offset the program sends, `chunk_index * chunk_size` |
| `ChunkPlan.PacketSizeBounds` | client.py:112-115 | Every planned packet size lies in `[0, chunkSize]`, is positive when the file is non-empty, and is a full chunk when the chunk size divides the file |
| `ChunkPlan.ChunkEnds` | client.py:112-118 | Chunk `i` starts within the file and ends where chunk `i+1` starts, cut at the file's end |
| `ChunkPlan.Contiguous` | client.py:112-127 | Each chunk ends where the next begins, and the last one ends at the file size |
| `ChunkPlan.Partition` | client.py:111-118 | Every byte position of the file lies in exactly one planned chunk, the one numbered `p / chunkSize` |
| `ChunkPlan.SumPacketsPrefix` | client.py:111-118 | The first `k` packet sizes add up to where chunk `k` starts, cut at the file size |
| `ChunkPlan.SumPacketsIsFileSize` | client.py:111-118 | All packet sizes together add up to the file size |
| `ChunkPlan.ReassemblePrefix` | client.py:111-121 | Concatenating the first `k` chunks gives the source up to where chunk `k` starts |
| `ChunkPlan.ReassembleAll` | client.py:111-121 | Concatenating all chunks in index order gives back the source exactly (round trip) |
| `Streams.WriteAt` | main.py:61-62 | A seek and write keeps the bytes before the position (a gap reads as zeros), puts the data at the position, keeps the bytes after it, and changes nothing when the data is empty |
| `Streams.Truncate` | client.py:116 | Truncation keeps a prefix of length `min(n, size)` and never extends |
| `Streams.Read` | client.py:118 | A read returns the next `min(n, remaining)` bytes from the position, or nothing at the end |
| `Streams.TruncatingWrite` | main.py:58-62 | A write into a freshly truncated file leaves `offset` zeros followed by the payload, or an empty file when the payload is empty |
| `Streams.RefillReads` | client.py:116-119 | Truncate, rewind, and write the bytes read: the buffer then holds exactly the bytes read, whatever it held before |
| `Sender.BaseName` | client.py:102 | The name sent is the last `/`-separated component of the path: a suffix of the path with no `/`, preceded by a `/` when shorter than the path |
| `Sender.PlanAt` | client.py:101-127 | Request `i` of the plan carries the file name, index `i`, offset `i * chunkSize`, the chunk count and the file size, and its payload is exactly `source[i*chunkSize .. i*chunkSize + packetSize(i)]` |
| `Sender.AdvanceForm` | client.py:126-127 | The update after a chunk (index plus one, offset recomputed as index times chunk size) turns the form for chunk `i` into the planned form for chunk `i+1` |
| `Sender.RequestsPrefix` | client.py:111-127 | The requests sent so far are a prefix of the full plan |
| `Sender.RefillBuffer` | client.py:112-119 | Whatever the reused buffer held, after the refill it holds exactly chunk `i` of the source, and the file cursor moves to where chunk `i+1` starts |
| `Sender.NextRequest` | client.py:112-121 | The request built in iteration `i` is exactly the planned request `i` |
| `Sender.SendChunks` | client.py:101-128 | The serial loop starts from the form for chunk 0 and advances it only after a 200. It sends a non-empty prefix of the plan in order. Every response but the last is 200. It stops early only after a non-200 response, and it returns the last response |
| `Sender.UploadFile` | client.py:88-128 | The serial upload of a path sends a prefix of the plan for the path's last component, with the same early-exit and return guarantees |
| `Sender.TakeCompleted` | client.py:166-170 | Waiting for a completion removes exactly one in-flight request, chosen nondeterministically, and keeps all the others |
| `Sender.Submit` | client.py:166-178 | With fewer than two requests in flight, the snapshot just joins the window. Otherwise one in-flight request completes and is appended to the completions, its response becomes the observed one, and the window stays at two. The snapshot is always the newest request in the window, and no request is lost or duplicated |
| `Sender.SubmitNext` | client.py:166-178 | Each submission keeps the window discipline: at most two in flight, the newest among them, every completion one of the requests already submitted |
| `Sender.SubmitChunks` | client.py:145-182 | The windowed loop starts from the form for chunk 0, advances it after every submission, and submits every planned request in order, whatever the responses. Two requests, or fewer, are left in flight, the last submitted among them. Completed plus in-flight is exactly the submitted requests. The `k`-th completion is one of the first `k+2` requests. The result is the last response observed, none when nothing completed |
| `Sender.UploadAsyncFile` | client.py:131-182 | The windowed upload of a path submits the whole plan for the path's last component. At most two requests are left in flight, the last submitted among them. Completed plus in-flight is exactly the plan. The `k`-th completion is one of the first `k+2` requests. The response is the last one observed, none when nothing completed |
| `Receiver.Register` | main.py:45-48 | An unseen name's counter starts at 0, a seen one goes up by one, and no other counter changes |
| `Receiver.WriteChunk` | main.py:57-65 | A write succeeds exactly when the name has no NUL character, there is no OS error and the offset is a valid file position, leaving zeros up to the offset followed by the payload. A name with a NUL cannot be opened: an uncaught error, store untouched. An open error leaves the store alone. A negative offset fails the seek like any OS error ("Could not write to file"). The uncaught errors are exactly a NUL in the name and an offset beyond the 64-bit range. Every failure after the open leaves the file empty, and other files are untouched |
| `Receiver.Upload` | main.py:35-87 | The upload handler rejects "already exists" exactly when the file is stored under a name without NUL (the existence test answers false otherwise) and the updated counter is 0, keeping the new counter. It writes exactly when past that check with an openable name, no fault and a valid offset, leaving zeros then the payload. It ends the session exactly when the request completes the count with the right size, reports a size mismatch exactly when the size is wrong, and touches no other name |
| `Receiver.UploadFailure` | main.py:53-65 | A request past the existence check whose write does not happen is answered with a write failure, or with an internal error exactly when the name has a NUL or the offset is beyond the 64-bit range. An open that fails or cannot be attempted leaves the store as it was; a later failure leaves the file empty |
| `Receiver.UnopenableName` | main.py:45-62 | A request for a name with a NUL character is never refused as existing; it is answered with an uncaught error, its counter moves, and no file changes |
| `Receiver.DirEntry` | main.py:52 | Joined to the data directory, a name reaches at most a non-empty entry without `/`; a plain name reaches itself, and an absolute name leaves the directory |
| `Receiver.JoinedNames` | main.py:52 | `./x` and `.//x` reach `x` and are purged; `/tmp/x`, `../x`, `a/b` and `x/` reach no entry; `.x` and `./.x` are not purged |
| `Receiver.Purge` | main.py:27-32 | Purge keeps exactly the stored files whose name does not reach a directory entry the `*` pattern matches, unchanged; for a plain name, exactly the dot-named ones. It does not touch the session map |
| `Receiver.Serve` | main.py:35-87 | Sequential handling gives one response per request and keeps every counter non-negative |
| `Receiver.ServeFrame` | main.py:45-65 | Names that no request is about keep their counters and files |
| `Scenarios.LastWrite` | main.py:58-62 | The last planned request writes zeros up to its offset followed by the rest of the source, which has the announced size |
| `Scenarios.InOrderResponses` | main.py:70-87 | Delivering the plan in order to a receiver that has never seen the name gets every request accepted, in index order |
| `Scenarios.InOrderFile` | main.py:58-81 | In-order delivery ends the session and leaves a file of the source's size: zeros up to the last chunk, then the last chunk |
| `Scenarios.InOrderFrame` | main.py:45-81 | An in-order upload leaves every other name's counter and file unchanged |
| `Scenarios.InOrderUpload` | main.py:45-87 | The whole in-order upload completes: all requests are accepted, the session ends, the stored file has the announced size and holds only zero padding plus the last chunk, and nothing else changes |
| `Scenarios.InOrderContent` | main.py:58-62 | The in-order upload reproduces the source exactly when every byte before the last chunk is zero |
| `Scenarios.TwentyFiveBytes` | client.py:94-127 | A 25-byte file in chunks of 10 is three chunks of 10, 10 and 5 bytes at offsets 0, 10 and 20; all are accepted and the stored file is 20 zeros then the last 5 bytes |
| `Scenarios.ZeroByteUpload` | main.py:45-81 | An empty file is one empty chunk; it is accepted, the session ends and an empty file is stored |
| `Scenarios.CountsLast` | main.py:45-81 | After `n` error-free requests for a fresh name (at most the announced count), the file holds the last write. Below the count the counter is `n-1`; at the count the session ends or a size mismatch is reported |
| `Scenarios.CountsRequests` | main.py:45-81 | Whatever chunk indices the requests carry, the first `total-1` are accepted and the request numbered `total` runs the completion check, which ends the session or reports a mismatch by the size the last write left |
| `Scenarios.NeverCompletesPastTotal` | main.py:45-70 | A counter that reached the announced count minus one without the session ending only grows, and the completion check never runs again |
| `Scenarios.FirstChunkTwice` | main.py:70-78 | Sending the first chunk of a two-chunk file twice makes the duplicate run the completion check, which reports a size mismatch |
| `Scenarios.DuplicateFirstChunk` | main.py:45-81 | After that duplicate, the real second chunk is accepted but completes nothing, and the session stays open with counter 2 |
| `Scenarios.RetryAfterAlreadyExists` | main.py:45-62 | A first request for a stored name (without NUL) without a session is refused and leaves the file, yet it opens a session, so a retry overwrites the stored file |
| `Scenarios.PurgeThenUpload` | main.py:27-55 | After a purge, a name keeps its file exactly when the purge's listing does not reach it; a name without a session whose file is gone can be uploaded afresh to completion, and for a file that survived, the first request is refused as existing |
| `Scenarios.PurgeKeepsSession` | main.py:27-62 | A session that survives a purge keeps counting; its next request is not refused as existing, its write replaces the file, and the only other files are the stored ones the purge's listing did not reach |
| `Scenarios.UnopenableRun` | main.py:45-65 | Any run of requests for a name with a NUL character stores nothing, answers every request with an internal error, and still counts each one |
| `Scenarios.UploadIsLocal` | main.py:45-81 | How a request for a name is handled depends only on that name's counter and file |
| `Scenarios.UploadElsewhere` | main.py:45-65 | A request for another name leaves this name's counter and file alone |
| `Scenarios.Isolation` | main.py:35-87 | With any interleaving of other names' requests, a name ends up with the counter and file its own requests alone would leave |

## Left out

- HTTP transport: `requests.post`, FastAPI routing, form parsing and the `HTTPException` mechanics. A response is modelled as `Accepted` or `Rejected(kind)`, with status 500 for every rejection (`StatusCode`). The detail and success message texts are not modelled.
- Threading: the thread pool, `wait(FIRST_COMPLETED)` and real concurrency. Which in-flight request completes first is a nondeterministic choice in `Sender.TakeCompleted`. Every request's response is `post(request)`, whenever it completes.
- `Sender.SubmitChunks`: a non-200 response in the windowed loop is only printed, so the model records the response and keeps going. Requests still in flight at the end are never waited for, and their responses are not part of the result.
- `human_friendly` (floating-point formatting), `testing_stats` (wall-clock timing), the test drivers, `__main__`, logging and the `DEBUG` print: none of them affects what is sent or stored.
- The real filesystem:
  - The store is a map from file name to bytes.
  - Names are keys as sent; joining a name to the data directory matters only to purge (`Receiver.DirEntry`).
  - `os.path.getsize` is the length of the stored bytes.
  - Purge's directory listing is reduced to its pattern: `Receiver.Purge` removes exactly the stored files whose names reach an entry of the data directory that does not start with a dot. A name with a directory part (`a/b`) keeps its file. A subdirectory of the data directory, which makes the program's purge fail part-way when it tries to remove it, is not modelled.
  - Creating the data directory at start-up is not modelled.
- OS errors: an error is either at open (the store is unchanged) or during the write (the file has already been emptied by the truncating open). A partial write is not modelled.
- A negative `chunk_byte_offset` makes the operating system refuse the seek, which the handler reports as a write failure. An offset outside the signed 64-bit file-position range cannot be converted for the seek; that error is not caught, and it is modelled as `Rejected(InternalError)`. Either way the open has already emptied the file.
- A file name with a NUL character cannot be opened, and the error is not caught; it is modelled as `Rejected(InternalError)` with the store untouched, and the existence test answers false for it. The whole-upload scenarios assume a name without NUL, the only kind this client sends: it opens the file under that path before any request. `Scenarios.UnopenableRun` covers the other kind.
- Byte and integer widths: a byte is an integer in `[0, 256)`. Counters are unbounded, as Python integers are. File positions are bounded by the signed 64-bit range (`Streams.MaxFileOffset`), which is why the whole-upload scenarios assume a source of at most that many bytes, the largest file size there is.
- Scenarios.Isolation: non-interference holds between distinct keys of the store. The program joins each name to the data directory, so names that reach one file are not distinguished: `a` and `./a`, or `A` and `a` on a case-insensitive volume. The names `.` and `..` reach an existing directory, so the program refuses their first request as existing; the model treats them as ordinary keys. An empty name never reaches the handler: form validation refuses a required field left empty, which is part of the form parsing not modelled (see the HTTP transport line).
- Scenarios.UploadElsewhere: a request for another name leaves a name alone only when the two names are different store keys; names that the path join sends to the same file, as in the line above, are not modelled.
- The program reads the chunk size from a module constant, while the model takes it as a parameter. The scenarios hold for every positive chunk size, and `ChunkPlan.ChunkSize` records the constant.
- Upload requests are processed one to completion before the next, because the upload handler contains no `await`. Several server worker processes, each with its own session map, are not modelled.
- Receiver.Purge: names that the path join sends to the same file are separate keys here, as for `Scenarios.Isolation`; each is kept or removed by the entry it reaches. The purge endpoint is a plain (not `async`) function, so the server runs it on a worker thread, where it can interleave with an upload's truncating write and its size reads. A file removed between the write and the size read makes the size read fail, after the counter went up, with an error nothing catches. The model applies a purge as one whole step between two upload requests, and `Scenarios.PurgeThenUpload` and `Scenarios.PurgeKeepsSession` rely on that.
- Redesigns that are not in the code are not modelled: tracking received indices, non-truncating writes, and cancelling the remaining requests after a failure.
