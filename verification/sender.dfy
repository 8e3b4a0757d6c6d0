/**
  The sending side (client.py): the file's name as sent, the planned request
  sequence, and the two upload loops. The network is a parameter `post` from
  a request to the response it gets back.
 */
module Sender {
  import opened Streams
  import opened ChunkPlan
  import opened Protocol

  /**
    The last component of a `/`-separated path: the longest suffix without a
    `/`. A path ending in `/` has an empty last component.
   */
  function BaseName(path: string): (name: string)
    ensures '/' !in name
    ensures |name| <= |path| && path[|path| - |name|..] == name
    ensures |name| < |path| ==> path[|path| - |name| - 1] == '/'
  {
    if |path| == 0 then ""
    else if path[|path| - 1] == '/' then ""
    else
      var rest := BaseName(path[..|path| - 1]);
      assert path[..|path| - 1][|path| - 1 - |rest|..] == rest;
      rest + [path[|path| - 1]]
  }

  /** The request the sender builds for chunk `i` of `source`, named `name`. */
  function PlannedRequest(name: string, source: seq<byte>, chunkSize: nat, i: nat): (r: ChunkRequest)
    requires chunkSize > 0
    requires i < TotalChunks(|source|, chunkSize)
  {
    ChunkRequest(FormAt(name, source, chunkSize, i), Chunk(source, chunkSize, i))
  }

  /** The first `k` requests of an upload, in index order. */
  function Requests(name: string, source: seq<byte>, chunkSize: nat, k: nat): (p: seq<ChunkRequest>)
    requires chunkSize > 0
    requires k <= TotalChunks(|source|, chunkSize)
    ensures |p| == k
  {
    if k == 0 then [] else Requests(name, source, chunkSize, k - 1) + [PlannedRequest(name, source, chunkSize, k - 1)]
  }

  /** Every request of an upload, in index order. */
  function Plan(name: string, source: seq<byte>, chunkSize: nat): (p: seq<ChunkRequest>)
    requires chunkSize > 0
    ensures |p| == TotalChunks(|source|, chunkSize)
  {
    Requests(name, source, chunkSize, TotalChunks(|source|, chunkSize))
  }

  lemma {:induction false} RequestsAt(name: string, source: seq<byte>, chunkSize: nat, k: nat, j: nat)
    requires chunkSize > 0
    requires j < k <= TotalChunks(|source|, chunkSize)
    ensures Requests(name, source, chunkSize, k)[j] == PlannedRequest(name, source, chunkSize, j)
  {
    if j < k - 1 {
      RequestsAt(name, source, chunkSize, k - 1, j);
    }
  }

  lemma {:induction false} RequestsPrefix(name: string, source: seq<byte>, chunkSize: nat, k: nat, m: nat)
    requires chunkSize > 0
    requires k <= m <= TotalChunks(|source|, chunkSize)
    ensures Requests(name, source, chunkSize, m)[..k] == Requests(name, source, chunkSize, k)
  {
    if k < m {
      RequestsPrefix(name, source, chunkSize, k, m - 1);
      assert Requests(name, source, chunkSize, m)[..m - 1] == Requests(name, source, chunkSize, m - 1);
    }
  }

  /**
    Request `i` of the plan names the file, carries its index, the offset
    `i * chunkSize`, the chunk count and the file size, and holds exactly the
    chunk's slice of the source.
   */
  lemma PlanAt(name: string, source: seq<byte>, chunkSize: nat, i: nat)
    requires chunkSize > 0
    requires i < TotalChunks(|source|, chunkSize)
    ensures Plan(name, source, chunkSize)[i] == PlannedRequest(name, source, chunkSize, i)
    ensures Plan(name, source, chunkSize)[i].form ==
      ChunkForm(name, i, i * chunkSize, TotalChunks(|source|, chunkSize), |source|)
    ensures Plan(name, source, chunkSize)[i].payload ==
      source[i * chunkSize..i * chunkSize + PacketSize(|source|, chunkSize, i)]
  {
    RequestsAt(name, source, chunkSize, TotalChunks(|source|, chunkSize), i);
    OffsetIsProduct(chunkSize, i);
  }

  /**
    One refill of the reusable buffer: the packet size is what is left of the
    file after `chunkIndex` whole chunks, at most one chunk; the buffer is
    truncated to it, rewound and overwritten with that many bytes read from
    the file's cursor. Whatever it held before, the buffer then holds exactly
    the chunk's slice of the source, and the cursor has moved to the start of
    the next chunk.
   */
  method RefillBuffer(source: seq<byte>, chunkSize: nat, form: ChunkForm, tmp: seq<byte>, cursor: nat)
    returns (buffer: seq<byte>, next: nat)
    requires chunkSize > 0
    requires 0 <= form.chunkIndex < TotalChunks(|source|, chunkSize)
    requires form.fileSize == |source|
    requires cursor == Min(Offset(chunkSize, form.chunkIndex), |source|)
    ensures buffer == Chunk(source, chunkSize, form.chunkIndex)
    ensures next == Min(Offset(chunkSize, form.chunkIndex + 1), |source|)
  {
    var i := form.chunkIndex;
    OffsetIsProduct(chunkSize, i);
    var packetSize := Min(form.fileSize - form.chunkIndex * chunkSize, chunkSize);
    PacketSizeBounds(|source|, chunkSize, i);
    ChunkEnds(|source|, chunkSize, i);
    RefillReads(tmp, source, cursor, packetSize);
    buffer := Truncate(tmp, packetSize);
    var data := Read(source, cursor, packetSize);
    next := cursor + |data|;
    buffer := WriteAt(buffer, 0, data);
  }

  /** The form as it stands when chunk `i` is about to be sent. */
  function FormAt(name: string, source: seq<byte>, chunkSize: nat, i: nat): ChunkForm
    requires chunkSize > 0
  {
    ChunkForm(name, i, Offset(chunkSize, i), TotalChunks(|source|, chunkSize), |source|)
  }

  /**
    The form update after a chunk: the index goes up by one and the offset is
    recomputed as index times chunk size. It turns the form for chunk `i`
    into the one for chunk `i + 1`, which starts `i + 1` whole chunks in.
   */
  method AdvanceForm(name: string, source: seq<byte>, chunkSize: nat, i: nat, form: ChunkForm)
    returns (next: ChunkForm)
    requires chunkSize > 0
    requires form == FormAt(name, source, chunkSize, i)
    ensures next == FormAt(name, source, chunkSize, i + 1)
  {
    OffsetIsProduct(chunkSize, i + 1);
    next := form.(chunkIndex := form.chunkIndex + 1, chunkByteOffset := (form.chunkIndex + 1) * chunkSize);
  }

  /**
    One loop iteration up to the send: the buffer is refilled and paired with
    the current form, the one for chunk `i`. The request is exactly the
    planned one for chunk `i`.
   */
  method NextRequest(name: string, source: seq<byte>, chunkSize: nat, i: nat, form: ChunkForm, tmp: seq<byte>, cursor: nat)
    returns (request: ChunkRequest, next: nat)
    requires chunkSize > 0
    requires i < TotalChunks(|source|, chunkSize)
    requires form == FormAt(name, source, chunkSize, i)
    requires cursor == Min(Offset(chunkSize, i), |source|)
    ensures request == PlannedRequest(name, source, chunkSize, i)
    ensures next == Min(Offset(chunkSize, i + 1), |source|)
  {
    var buffer;
    buffer, next := RefillBuffer(source, chunkSize, form, tmp, cursor);
    request := ChunkRequest(form, buffer);
  }

  /**
    The serial upload loop for a file sent as `name`. The form starts at
    chunk 0 and is advanced after every chunk that got a 200. Chunks go out
    one after the other, each payload being exactly its slice of the source;
    the loop stops at the first response that is not 200, and the last
    response is returned.
   */
  method SendChunks(name: string, source: seq<byte>, chunkSize: nat, post: ChunkRequest -> Response)
    returns (sent: seq<ChunkRequest>, response: Option<Response>)
    requires chunkSize > 0
    ensures 1 <= |sent| <= TotalChunks(|source|, chunkSize)
    ensures sent == Requests(name, source, chunkSize, |sent|)
    ensures response == Some(post(sent[|sent| - 1]))
    ensures forall k :: 0 <= k < |sent| && StatusCode(post(sent[k])) != 200 ==> k == |sent| - 1
    ensures |sent| < TotalChunks(|source|, chunkSize) ==> StatusCode(post(sent[|sent| - 1])) != 200
  {
    var totalChunks := TotalChunks(|source|, chunkSize);
    var form := ChunkForm(name, 0, 0, totalChunks, |source|);
    var tmp: seq<byte> := [];
    var cursor: nat := 0;
    sent := [];
    response := None;
    var i := 0;
    while i < totalChunks
      invariant 0 <= i <= totalChunks
      invariant form == FormAt(name, source, chunkSize, i)
      invariant cursor == Min(Offset(chunkSize, i), |source|)
      invariant sent == Requests(name, source, chunkSize, i)
      invariant i == 0 ==> response == None
      invariant i > 0 ==> response == Some(post(sent[i - 1]))
      invariant forall k :: 0 <= k < i ==> StatusCode(post(sent[k])) == 200
    {
      var request;
      request, cursor := NextRequest(name, source, chunkSize, i, form, tmp, cursor);
      tmp := request.payload;
      sent := sent + [request];
      response := Some(post(request));
      if StatusCode(response.value) != 200 {
        break;
      }
      form := AdvanceForm(name, source, chunkSize, i, form);
      i := i + 1;
    }
  }

  /** The serial upload of the file at `filePath`, sent under its last path component. */
  method UploadFile(filePath: string, source: seq<byte>, chunkSize: nat, post: ChunkRequest -> Response)
    returns (sent: seq<ChunkRequest>, response: Option<Response>)
    requires chunkSize > 0
    ensures 1 <= |sent| <= TotalChunks(|source|, chunkSize)
    ensures sent == Plan(BaseName(filePath), source, chunkSize)[..|sent|]
    ensures response == Some(post(sent[|sent| - 1]))
    ensures forall k :: 0 <= k < |sent| && StatusCode(post(sent[k])) != 200 ==> k == |sent| - 1
    ensures |sent| < TotalChunks(|source|, chunkSize) ==> StatusCode(post(sent[|sent| - 1])) != 200
  {
    sent, response := SendChunks(BaseName(filePath), source, chunkSize, post);
    RequestsPrefix(BaseName(filePath), source, chunkSize, |sent|, TotalChunks(|source|, chunkSize));
  }

  /**
    Waiting for the first of the in-flight requests to complete: whichever it
    is, it leaves the window, and the window keeps all the others.
   */
  method TakeCompleted(window: seq<ChunkRequest>) returns (rest: seq<ChunkRequest>, done: ChunkRequest)
    requires |window| > 0
    ensures done in window
    ensures |rest| == |window| - 1
    ensures multiset(rest) + multiset{done} == multiset(window)
  {
    var k :| 0 <= k < |window|;
    done := window[k];
    rest := window[..k] + window[k + 1..];
    assert window == window[..k] + [done] + window[k + 1..];
  }

  /**
    One submission under the window of two: when two requests are already in
    flight, the first to complete leaves the window and its response becomes
    the one observed; then the new snapshot joins the window, always as its
    newest entry.
   */
  method Submit(window: seq<ChunkRequest>, completed: seq<ChunkRequest>, response: Option<Response>,
                snapshot: ChunkRequest, post: ChunkRequest -> Response)
    returns (window': seq<ChunkRequest>, completed': seq<ChunkRequest>, response': Option<Response>)
    ensures |window'| > 0 && window'[|window'| - 1] == snapshot
    ensures |window| < 2 ==> window' == window + [snapshot] && completed' == completed && response' == response
    ensures |window| >= 2 ==> |window'| == |window| && |completed'| == |completed| + 1
    ensures |window| >= 2 ==> completed'[..|completed|] == completed && completed'[|completed|] in window
    ensures |window| >= 2 ==> response' == Some(post(completed'[|completed'| - 1]))
    ensures multiset(completed') + multiset(window') == multiset(completed) + multiset(window) + multiset{snapshot}
  {
    window', completed', response' := window, completed, response;
    if |window'| >= 2 {
      var done;
      window', done := TakeCompleted(window');
      completed' := completed' + [done];
      response' := Some(post(done));
    }
    window' := window' + [snapshot];
  }

  /**
    The windowed upload loop for a file sent as `name`. The form starts at
    chunk 0 and is advanced after every submission. Every chunk is
    submitted, whatever the responses (a failure is only logged). Before a
    submission, if two requests are in flight, one of them (whichever
    completes first) is taken out of the window and its response observed,
    so the `k`-th completion observed is one of the first `k + 2` requests.
    Each submitted request is an independent snapshot of the form and the
    buffer, and the newest one is always still in flight. Requests still in
    flight when the loop ends are not waited for, and the returned response
    is the last one observed, which is none at all when the file has at most
    two chunks.
   */
  method SubmitChunks(name: string, source: seq<byte>, chunkSize: nat, post: ChunkRequest -> Response)
    returns (submitted: seq<ChunkRequest>, inFlight: seq<ChunkRequest>, completed: seq<ChunkRequest>, response: Option<Response>)
    requires chunkSize > 0
    ensures submitted == Plan(name, source, chunkSize)
    ensures Windowed(submitted, inFlight, completed, response, post)
  {
    var totalChunks := TotalChunks(|source|, chunkSize);
    var form := ChunkForm(name, 0, 0, totalChunks, |source|);
    var tmp: seq<byte> := [];
    var cursor: nat := 0;
    submitted, inFlight, completed := [], [], [];
    response := None;
    var i := 0;
    while i < totalChunks
      invariant 0 <= i <= totalChunks
      invariant form == FormAt(name, source, chunkSize, i)
      invariant cursor == Min(Offset(chunkSize, i), |source|)
      invariant submitted == Requests(name, source, chunkSize, i)
      invariant Windowed(submitted, inFlight, completed, response, post)
    {
      var snapshot;
      snapshot, cursor := NextRequest(name, source, chunkSize, i, form, tmp, cursor);
      tmp := snapshot.payload;
      inFlight, completed, response := SubmitNext(submitted, inFlight, completed, response, snapshot, post);
      submitted := submitted + [snapshot];
      form := AdvanceForm(name, source, chunkSize, i, form);
      i := i + 1;
    }
  }

  /**
    The window discipline after the requests `submitted`: at most two are in
    flight, the newest of them among those; every other request has completed,
    the `k`-th completion being one of the first `k + 2` requests; the
    response observed is that of the latest completion, none before the first.
   */
  predicate Windowed(submitted: seq<ChunkRequest>, inFlight: seq<ChunkRequest>, completed: seq<ChunkRequest>,
                     response: Option<Response>, post: ChunkRequest -> Response)
  {
    && |inFlight| == Min(|submitted|, 2)
    && |completed| == |submitted| - |inFlight|
    && multiset(completed) + multiset(inFlight) == multiset(submitted)
    && (forall k :: 0 <= k < |completed| ==> completed[k] in submitted[..k + 2])
    && (|submitted| > 0 ==> inFlight[|inFlight| - 1] == submitted[|submitted| - 1])
    && (response.None? <==> |completed| == 0)
    && (|completed| > 0 ==> response == Some(post(completed[|completed| - 1])))
  }

  /** One submission keeps the window discipline, with the snapshot as the newest request. */
  method SubmitNext(submitted: seq<ChunkRequest>, inFlight: seq<ChunkRequest>, completed: seq<ChunkRequest>,
                    response: Option<Response>, snapshot: ChunkRequest, post: ChunkRequest -> Response)
    returns (inFlight': seq<ChunkRequest>, completed': seq<ChunkRequest>, response': Option<Response>)
    requires Windowed(submitted, inFlight, completed, response, post)
    ensures Windowed(submitted + [snapshot], inFlight', completed', response', post)
  {
    WindowSubmitted(inFlight, completed, submitted);
    inFlight', completed', response' := Submit(inFlight, completed, response, snapshot, post);
    KeepsOrder(completed, completed', submitted, snapshot);
    assert multiset(submitted + [snapshot]) == multiset(submitted) + multiset{snapshot};
  }

  /** Everything in flight has been submitted. */
  lemma WindowSubmitted(inFlight: seq<ChunkRequest>, completed: seq<ChunkRequest>, submitted: seq<ChunkRequest>)
    requires multiset(completed) + multiset(inFlight) == multiset(submitted)
    ensures forall x :: x in inFlight ==> x in submitted
  {
    forall x | x in inFlight
      ensures x in submitted
    {
      assert multiset(inFlight)[x] > 0;
      assert multiset(submitted)[x] > 0;
    }
  }

  /**
    One more completion, taken from requests already submitted, keeps every
    completion among the first requests it may belong to.
   */
  lemma KeepsOrder(completed: seq<ChunkRequest>, completed': seq<ChunkRequest>,
                   submitted: seq<ChunkRequest>, snapshot: ChunkRequest)
    requires |completed| == 0 || |completed| + 2 <= |submitted|
    requires forall k :: 0 <= k < |completed| ==> k + 2 <= |submitted| && completed[k] in submitted[..k + 2]
    requires |completed'| == |completed| || (|completed'| == |completed| + 1 && |completed| + 2 == |submitted|)
    requires completed'[..|completed|] == completed
    requires |completed'| > |completed| ==> completed'[|completed|] in submitted
    ensures forall k :: 0 <= k < |completed'| ==> k + 2 <= |submitted| + 1 && completed'[k] in (submitted + [snapshot])[..k + 2]
  {
    var s' := submitted + [snapshot];
    forall k | 0 <= k < |completed'|
      ensures k + 2 <= |s'| && completed'[k] in s'[..k + 2]
    {
      if k < |completed| {
        assert completed'[k] == completed[k];
        assert s'[..k + 2] == submitted[..k + 2];
      } else {
        assert s'[..k + 2] == submitted;
      }
    }
  }

  /** The windowed upload of the file at `filePath`, sent under its last path component. */
  method UploadAsyncFile(filePath: string, source: seq<byte>, chunkSize: nat, post: ChunkRequest -> Response)
    returns (submitted: seq<ChunkRequest>, inFlight: seq<ChunkRequest>, completed: seq<ChunkRequest>, response: Option<Response>)
    requires chunkSize > 0
    ensures submitted == Plan(BaseName(filePath), source, chunkSize)
    ensures |inFlight| == Min(|submitted|, 2)
    ensures |completed| == |submitted| - |inFlight|
    ensures multiset(completed) + multiset(inFlight) == multiset(submitted)
    ensures forall k :: 0 <= k < |completed| ==> completed[k] in submitted[..k + 2]
    ensures |submitted| > 0 ==> inFlight[|inFlight| - 1] == submitted[|submitted| - 1]
    ensures response.None? <==> |completed| == 0
    ensures |completed| > 0 ==> response == Some(post(completed[|completed| - 1]))
  {
    submitted, inFlight, completed, response := SubmitChunks(BaseName(filePath), source, chunkSize, post);
  }
}
