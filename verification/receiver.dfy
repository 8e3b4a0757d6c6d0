/**
  The receiving side (main.py): a process-wide map from file name to a
  counter of requests received, and a store of files. The upload handler
  does no `await`, so each upload request is handled to the end before the
  next one starts; the receiver is therefore modelled as a transition
  function applied to one request at a time. A purge runs on a worker
  thread and could interleave with an upload; it is modelled as one step
  taken between two upload requests.
 */
module Receiver {
  import opened Streams
  import opened Protocol

  datatype State = State(session: map<string, int>, store: map<string, seq<byte>>)

  /**
    Whether the store raises an OS error: when the file is opened (the file
    is left as it was) or while writing (the open has already emptied it).
   */
  datatype WriteFault = NoFault | OpenFails | WriteFails

  datatype Outcome = Outcome(state: State, response: Response)

  /** The store after one attempted chunk write, and the error if there was one. */
  datatype Stored = Stored(store: map<string, seq<byte>>, failure: Option<ErrorKind>)

  /** Every counter the receiver holds is a count of requests, never negative. */
  ghost predicate Valid(st: State)
  {
    forall n :: n in st.session ==> st.session[n] >= 0
  }

  /**
    The counter update: a name not seen before starts at zero, a name seen
    before goes up by one, and no other name's counter moves.
   */
  function Register(session: map<string, int>, name: string): (s: map<string, int>)
    ensures name in s
    ensures name !in session ==> s[name] == 0
    ensures name in session ==> s[name] - session[name] == 1
    ensures s - {name} == session - {name}
  {
    if name !in session then session[name := 0] else session[name := session[name] + 1]
  }

  /**
    Whether the operating system can be asked about a name at all: a path
    with a NUL character is refused by the language runtime before any
    system call, with an error that is not an OS error.
   */
  predicate Openable(name: string)
  {
    '\0' !in name
  }

  /**
    The existence test of the upload handler. It answers false, rather than
    failing, for a name the operating system cannot be asked about.
   */
  predicate Exists(store: map<string, seq<byte>>, name: string)
  {
    name in store && Openable(name)
  }

  /**
    Opening the file in a truncating mode, seeking to the chunk's offset and
    writing the payload. On success the file holds only zeros up to the
    offset followed by the payload: whatever earlier chunks had written is
    gone. A name with a NUL character cannot be opened; that error is not
    an OS error, nothing catches it, and no file is touched. A negative
    offset makes the operating system refuse the seek, an OS error like any
    other, after the open has emptied the file. An offset outside the 64-bit
    file-position range cannot even be converted for the seek; that error
    is not an OS error either, and nothing catches it.
   */
  function WriteChunk(store: map<string, seq<byte>>, name: string, offset: int, payload: seq<byte>, fault: WriteFault)
    : (r: Stored)
    ensures r.store - {name} == store - {name}
    ensures r.failure.None? <==> Openable(name) && fault == NoFault && 0 <= offset <= MaxFileOffset
    ensures r.failure.None? ==> name in r.store && (|payload| > 0 ==> r.store[name] == Zeros(offset) + payload)
    ensures r.failure.None? ==> name in r.store && (|payload| == 0 ==> r.store[name] == [])
    ensures r.failure == Some(InternalError) <==>
      !Openable(name) || (fault != OpenFails && !(MinFileOffset <= offset <= MaxFileOffset))
    ensures r.failure.Some? && r.failure != Some(InternalError) ==> r.failure == Some(WriteFailure)
    ensures !Openable(name) ==> r == Stored(store, Some(InternalError))
    ensures Openable(name) && fault == OpenFails ==> r == Stored(store, Some(WriteFailure))
    ensures Openable(name) && fault != OpenFails && r.failure.Some? ==> name in r.store && r.store[name] == []
  {
    if !Openable(name) then Stored(store, Some(InternalError))
    else
    match fault
    case OpenFails => Stored(store, Some(WriteFailure))
    case WriteFails =>
      if !(MinFileOffset <= offset <= MaxFileOffset) then Stored(store[name := []], Some(InternalError))
      else Stored(store[name := []], Some(WriteFailure))
    case NoFault =>
      if !(MinFileOffset <= offset <= MaxFileOffset) then Stored(store[name := []], Some(InternalError))
      else if offset < 0 then Stored(store[name := []], Some(WriteFailure))
      else
        TruncatingWrite(offset, payload);
        Stored(store[name := WriteAt([], offset, payload)], None)
  }

  /** The counter a request for `name` leaves behind, before any completion. */
  function Counter(st: State, name: string): int
  {
    Register(st.session, name)[name]
  }

  /** The request gets past the existence check and its chunk is written. */
  predicate Writes(st: State, req: ChunkRequest, fault: WriteFault)
  {
    var name := req.form.fileName;
    && !(Exists(st.store, name) && Counter(st, name) == 0)
    && Openable(name) && fault == NoFault && 0 <= req.form.chunkByteOffset <= MaxFileOffset
  }

  /** The file content a successful write of `req` leaves. */
  function Written(req: ChunkRequest): seq<byte>
    requires req.form.chunkByteOffset >= 0
  {
    WriteAt([], req.form.chunkByteOffset, req.payload)
  }

  /**
    The upload handler. The counter is updated first; then a first request
    for a name whose file exists is refused; then the chunk is written; then,
    if the updated counter plus one equals the announced chunk count, the
    file's size is compared with the announced size: equal ends the session,
    different reports a mismatch and keeps the session.
   */
  function Upload(st: State, req: ChunkRequest, fault: WriteFault): (out: Outcome)
    ensures out.state.session - {req.form.fileName} == st.session - {req.form.fileName}
    ensures out.state.store - {req.form.fileName} == st.store - {req.form.fileName}
    ensures Valid(st) ==> Valid(out.state)
    ensures out.response == Rejected(AlreadyExists) <==>
      Exists(st.store, req.form.fileName) && Counter(st, req.form.fileName) == 0
    ensures out.response == Rejected(AlreadyExists) ==>
      out.state == State(st.session[req.form.fileName := 0], st.store)
    ensures req.form.fileName in out.state.session ==>
      out.state.session[req.form.fileName] == Counter(st, req.form.fileName)
    ensures req.form.fileName !in out.state.session <==>
      out.response.Accepted? && Counter(st, req.form.fileName) + 1 == req.form.totalChunks
    ensures Writes(st, req, fault) <==> out.response.Accepted? || out.response == Rejected(SizeMismatch)
    ensures Writes(st, req, fault) ==>
      req.form.fileName in out.state.store && out.state.store[req.form.fileName] == Written(req)
    ensures out.response == Rejected(SizeMismatch) <==>
      Writes(st, req, fault) && Counter(st, req.form.fileName) + 1 == req.form.totalChunks
      && |Written(req)| != req.form.fileSize
    ensures out.response.Accepted? ==> out.response == Accepted(req.form.chunkIndex, req.form.fileName)
  {
    var name := req.form.fileName;
    var session := Register(st.session, name);
    if Exists(st.store, name) && session[name] == 0 then
      Outcome(State(session, st.store), Rejected(AlreadyExists))
    else
      var w := WriteChunk(st.store, name, req.form.chunkByteOffset, req.payload, fault);
      if w.failure.Some? then
        Outcome(State(session, w.store), Rejected(w.failure.value))
      else if session[name] + 1 == req.form.totalChunks then
        if |w.store[name]| != req.form.fileSize then
          Outcome(State(session, w.store), Rejected(SizeMismatch))
        else
          Outcome(State(session - {name}, w.store), Accepted(req.form.chunkIndex, name))
      else
        Outcome(State(session, w.store), Accepted(req.form.chunkIndex, name))
  }

  /**
    A request past the existence check whose write does not happen gets an
    error: a write failure for an OS error (a negative offset included), an
    internal error only for a name with a NUL character or an offset
    outside the 64-bit file-position range. An open that fails, or cannot
    be attempted, leaves the store as it was; any later failure leaves the
    file empty.
   */
  lemma UploadFailure(st: State, req: ChunkRequest, fault: WriteFault)
    ensures var out := Upload(st, req, fault);
      out.response == Rejected(InternalError) <==>
        out.response != Rejected(AlreadyExists)
        && (!Openable(req.form.fileName)
            || (fault != OpenFails && !(MinFileOffset <= req.form.chunkByteOffset <= MaxFileOffset)))
    ensures var out := Upload(st, req, fault);
      !Writes(st, req, fault) && out.response != Rejected(AlreadyExists) ==>
        (out.response == Rejected(WriteFailure) || out.response == Rejected(InternalError))
        && (fault == OpenFails || !Openable(req.form.fileName) ==> out.state.store == st.store)
        && (fault != OpenFails && Openable(req.form.fileName) ==>
              req.form.fileName in out.state.store && out.state.store[req.form.fileName] == [])
  {
  }

  /**
    A name with a NUL character never reaches a file: the existence test
    answers false, so the request is never refused as existing, and the
    open fails with an error nothing catches, after the counter has moved.
   */
  lemma UnopenableName(st: State, req: ChunkRequest, fault: WriteFault)
    requires !Openable(req.form.fileName)
    ensures var out := Upload(st, req, fault);
      && out.response == Rejected(InternalError)
      && out.state == State(Register(st.session, req.form.fileName), st.store)
  {
  }

  /** An entry name the purge's `*` pattern does not match: one that starts with a dot. */
  predicate Hidden(entry: string)
  {
    |entry| > 0 && entry[0] == '.'
  }

  /**
    The entry of the data directory that a name reaches once it is joined
    to the directory's path, when it reaches one directly. An absolute name
    replaces the directory altogether. Leading `./` segments and repeated
    slashes stay inside the directory. A name with any further `/` leads
    into a subdirectory (`a/b`), out of the directory (`../x`), or names a
    directory (`x/`), and reaches no entry of the directory itself.
   */
  function DirEntry(name: string): (e: Option<string>)
    ensures e.Some? ==> |e.value| > 0 && '/' !in e.value
    ensures |name| > 0 && '/' !in name ==> e == Some(name)
    ensures |name| > 0 && name[0] == '/' ==> e == None
  {
    if |name| > 0 && name[0] == '/' then None else RelativeEntry(name)
  }

  /** The entry a path relative to the data directory reaches directly, if any. */
  function RelativeEntry(path: string): (e: Option<string>)
    ensures e.Some? ==> |e.value| > 0 && '/' !in e.value
    ensures |path| > 0 && '/' !in path ==> e == Some(path)
    decreases |path|
  {
    if |path| > 0 && path[0] == '/' then RelativeEntry(path[1..])
    else if |path| >= 2 && path[0] == '.' && path[1] == '/' then RelativeEntry(path[2..])
    else if |path| == 0 || '/' in path then None
    else Some(path)
  }

  /** The purge lists, and so removes, the file a name reaches: an entry of the data directory that `*` matches. */
  predicate Swept(name: string)
  {
    DirEntry(name).Some? && !Hidden(DirEntry(name).value)
  }

  /** How names join the data directory: `./x` and `.//x` reach `x`, while `/tmp/x`, `../x`, `a/b` and `x/` reach no entry. */
  lemma JoinedNames()
    ensures DirEntry("./x") == Some("x") && DirEntry(".//x") == Some("x") && DirEntry("././x") == Some("x")
    ensures DirEntry("/tmp/x") == None && DirEntry("../x") == None
    ensures DirEntry("a/b") == None && DirEntry("x/") == None
    ensures Swept("./x") && !Swept("/tmp/x") && !Swept(".x") && !Swept("./.x")
  {
    assert "./x"[2..] == "x";
    assert ".//x"[2..] == "/x" && "/x"[1..] == "x";
    assert "././x"[2..] == "./x";
    assert "./.x"[2..] == ".x";
    assert "../x"[3] == 'x' && "a/b"[1] == '/' && "x/"[1] == '/';
  }

  /**
    The purge endpoint: every file the `*` pattern lists in the data
    directory is removed; names that reach a dot-file, a subdirectory or a
    place outside the directory keep their files. The session map is not
    touched.
   */
  function Purge(st: State): (r: State)
    ensures forall n :: n in r.store <==> n in st.store && !Swept(n)
    ensures forall n :: n in r.store ==> r.store[n] == st.store[n]
    ensures forall n :: |n| > 0 && '/' !in n ==> (n in r.store <==> n in st.store && Hidden(n))
    ensures r.session == st.session
  {
    State(st.session, map n | n in st.store && !Swept(n) :: st.store[n])
  }

  /** One request arriving at the receiver, and whether its write hits an OS error. */
  datatype Delivery = Delivery(request: ChunkRequest, fault: WriteFault)

  datatype Run = Run(state: State, responses: seq<Response>)

  function NameOf(d: Delivery): string { d.request.form.fileName }

  /** The file names a sequence of deliveries is about. */
  function Names(ds: seq<Delivery>): set<string>
  {
    set i | 0 <= i < |ds| :: NameOf(ds[i])
  }

  lemma RemoveMore<K, V>(a: map<K, V>, b: map<K, V>, x: set<K>, y: set<K>)
    requires a - x == b - x
    ensures a - (x + y) == b - (x + y)
    ensures a - (y + x) == b - (y + x)
  {
    assert a - (x + y) == (a - x) - y;
    assert b - (x + y) == (b - x) - y;
    assert x + y == y + x;
  }

  /**
    Requests handled one after the other, in arrival order: one response per
    request, and every counter stays a count.
   */
  function Serve(st: State, ds: seq<Delivery>): (run: Run)
    ensures |run.responses| == |ds|
    ensures Valid(st) ==> Valid(run.state)
  {
    if |ds| == 0 then Run(st, [])
    else
      var before := Serve(st, ds[..|ds| - 1]);
      var d := ds[|ds| - 1];
      var out := Upload(before.state, d.request, d.fault);
      Run(out.state, before.responses + [out.response])
  }

  /** Names no request is about keep their counters and their files. */
  lemma {:induction false} ServeFrame(st: State, ds: seq<Delivery>)
    ensures Serve(st, ds).state.session - Names(ds) == st.session - Names(ds)
    ensures Serve(st, ds).state.store - Names(ds) == st.store - Names(ds)
  {
    if |ds| > 0 {
      var init := ds[..|ds| - 1];
      var d := ds[|ds| - 1];
      var before := Serve(st, init);
      var out := Upload(before.state, d.request, d.fault);
      ServeFrame(st, init);
      assert Names(ds) == Names(init) + {NameOf(d)};
      RemoveMore(out.state.session, before.state.session, {NameOf(d)}, Names(init));
      RemoveMore(before.state.session, st.session, Names(init), {NameOf(d)});
      RemoveMore(out.state.store, before.state.store, {NameOf(d)}, Names(init));
      RemoveMore(before.state.store, st.store, Names(init), {NameOf(d)});
    }
  }
}
