/**
  Whole uploads as the receiver sees them: the sender's planned requests
  delivered in order, requests counted regardless of their chunk index,
  sessions that can no longer complete, and uploads of different files that
  do not interfere.
 */
module Scenarios {
  import opened Streams
  import opened ChunkPlan
  import opened Protocol
  import opened Sender
  import opened Receiver

  /** The requests delivered without any OS error. */
  function Clean(reqs: seq<ChunkRequest>): (ds: seq<Delivery>)
    ensures |ds| == |reqs|
    ensures forall i :: 0 <= i < |ds| ==> ds[i] == Delivery(reqs[i], NoFault)
  {
    seq(|reqs|, i requires 0 <= i < |reqs| => Delivery(reqs[i], NoFault))
  }

  /** The receiver has neither a counter nor a file for `name`. */
  predicate Fresh(st: State, name: string)
  {
    name !in st.session && name !in st.store
  }

  lemma ServeLast(st: State, ds: seq<Delivery>, d: Delivery)
    ensures Serve(st, ds + [d]) ==
      Run(Upload(Serve(st, ds).state, d.request, d.fault).state,
          Serve(st, ds).responses + [Upload(Serve(st, ds).state, d.request, d.fault).response])
  {
    assert (ds + [d])[..|ds|] == ds;
  }

  /**
    The last planned request: its write leaves zeros up to the last chunk's
    offset followed by the rest of the source, which has the announced size.
   */
  lemma LastWrite(name: string, source: seq<byte>, chunkSize: nat)
    requires chunkSize > 0
    ensures
      var n := TotalChunks(|source|, chunkSize);
      var last := Offset(chunkSize, n - 1);
      var req := Plan(name, source, chunkSize)[n - 1];
      && req.form.chunkByteOffset == last <= |source|
      && Written(req) == Zeros(last) + source[last..]
      && |Written(req)| == req.form.fileSize == |source|
  {
    var n := TotalChunks(|source|, chunkSize);
    var last := Offset(chunkSize, n - 1);
    var req := Plan(name, source, chunkSize)[n - 1];
    PlanAt(name, source, chunkSize, n - 1);
    Contiguous(|source|, chunkSize, n - 1);
    assert req.payload == source[last..];
    TruncatingWrite(last, req.payload);
    if |source| == 0 {
      assert n == 1;
    }
  }

  /** The planned requests, delivered without error, are one upload of `name` in index order. */
  lemma CleanPlan(name: string, source: seq<byte>, chunkSize: nat)
    requires chunkSize > 0
    requires |source| <= MaxFileOffset
    requires Openable(name)
    ensures
      var ds := Clean(Plan(name, source, chunkSize));
      && SameUpload(ds, name, TotalChunks(|source|, chunkSize))
      && (forall j :: 0 <= j < |ds| ==> ds[j].request.form.chunkIndex == j)
      && (forall j :: 0 <= j < |ds| ==> NameOf(ds[j]) == name)
  {
    forall j | 0 <= j < TotalChunks(|source|, chunkSize)
      ensures Plan(name, source, chunkSize)[j] == PlannedRequest(name, source, chunkSize, j)
      ensures Offset(chunkSize, j) <= |source|
    {
      PlanAt(name, source, chunkSize, j);
      ChunkEnds(|source|, chunkSize, j);
    }
  }

  lemma SingleName(ds: seq<Delivery>, name: string)
    requires |ds| > 0
    requires forall i :: 0 <= i < |ds| ==> NameOf(ds[i]) == name
    ensures Names(ds) == {name}
  {
    assert NameOf(ds[0]) == name;
  }

  /** Every request of an in-order upload is accepted, in index order. */
  lemma InOrderResponses(st: State, name: string, source: seq<byte>, chunkSize: nat)
    requires chunkSize > 0
    requires |source| <= MaxFileOffset
    requires Fresh(st, name)
    requires Openable(name)
    ensures
      var run := Serve(st, Clean(Plan(name, source, chunkSize)));
      && |run.responses| == TotalChunks(|source|, chunkSize)
      && (forall j :: 0 <= j < |run.responses| ==> run.responses[j] == Accepted(j, name))
  {
    var n := TotalChunks(|source|, chunkSize);
    var ds := Clean(Plan(name, source, chunkSize));
    CleanPlan(name, source, chunkSize);
    CountsRequests(st, name, ds, n);
    LastWrite(name, source, chunkSize);
  }

  /**
    An in-order upload ends its session and leaves a file of the source's
    size: zeros where the earlier chunks went, then the last chunk.
   */
  lemma InOrderFile(st: State, name: string, source: seq<byte>, chunkSize: nat)
    requires chunkSize > 0
    requires |source| <= MaxFileOffset
    requires Fresh(st, name)
    requires Openable(name)
    ensures
      var last := Offset(chunkSize, TotalChunks(|source|, chunkSize) - 1);
      var run := Serve(st, Clean(Plan(name, source, chunkSize)));
      && name !in run.state.session
      && name in run.state.store
      && last <= |source|
      && run.state.store[name] == Zeros(last) + source[last..]
      && |run.state.store[name]| == |source|
  {
    var n := TotalChunks(|source|, chunkSize);
    var ds := Clean(Plan(name, source, chunkSize));
    CleanPlan(name, source, chunkSize);
    CountsRequests(st, name, ds, n);
    LastWrite(name, source, chunkSize);
  }

  /** An upload of `name` leaves every other name's counter and file alone. */
  lemma InOrderFrame(st: State, name: string, source: seq<byte>, chunkSize: nat)
    requires chunkSize > 0
    requires |source| <= MaxFileOffset
    requires Fresh(st, name)
    requires Openable(name)
    ensures
      var run := Serve(st, Clean(Plan(name, source, chunkSize)));
      && run.state.session - {name} == st.session
      && run.state.store - {name} == st.store
  {
    var ds := Clean(Plan(name, source, chunkSize));
    CleanPlan(name, source, chunkSize);
    SingleName(ds, name);
    ServeFrame(st, ds);
    assert st.session - {name} == st.session;
    assert st.store - {name} == st.store;
  }

  /**
    A whole upload delivered in order completes: every request is accepted,
    the session ends, and the stored file has the size the sender announced.
    Because every write truncates, the file holds only zeros where the
    earlier chunks went, followed by the last chunk. Nothing is stored or
    counted differently for any other name.
   */
  lemma InOrderUpload(st: State, name: string, source: seq<byte>, chunkSize: nat)
    requires chunkSize > 0
    requires |source| <= MaxFileOffset
    requires Fresh(st, name)
    requires Openable(name)
    ensures
      var last := Offset(chunkSize, TotalChunks(|source|, chunkSize) - 1);
      var run := Serve(st, Clean(Plan(name, source, chunkSize)));
      && |run.responses| == TotalChunks(|source|, chunkSize)
      && (forall j :: 0 <= j < |run.responses| ==> run.responses[j] == Accepted(j, name))
      && name !in run.state.session
      && name in run.state.store
      && |run.state.store[name]| == |source|
      && last <= |source|
      && run.state.store[name] == Zeros(last) + source[last..]
      && run.state.session == st.session
      && run.state.store - {name} == st.store
  {
    InOrderResponses(st, name, source, chunkSize);
    InOrderFile(st, name, source, chunkSize);
    InOrderFrame(st, name, source, chunkSize);
  }

  /**
    The in-order upload reproduces the source exactly when, and only when,
    every byte before the last chunk is zero: any other source comes back
    with its earlier chunks erased.
   */
  lemma InOrderContent(st: State, name: string, source: seq<byte>, chunkSize: nat)
    requires chunkSize > 0
    requires |source| <= MaxFileOffset
    requires Fresh(st, name)
    requires Openable(name)
    ensures
      var last := Offset(chunkSize, TotalChunks(|source|, chunkSize) - 1);
      var run := Serve(st, Clean(Plan(name, source, chunkSize)));
      && name in run.state.store
      && last <= |source|
      && (run.state.store[name] == source <==> AllZero(source[..last]))
  {
    InOrderUpload(st, name, source, chunkSize);
    var last := Offset(chunkSize, TotalChunks(|source|, chunkSize) - 1);
    var f := Serve(st, Clean(Plan(name, source, chunkSize))).state.store[name];
    assert source == source[..last] + source[last..];
    AllZeroIsZeros(source[..last]);
    if f == source {
      assert source[..last] == f[..last];
    }
  }

  lemma Three<T>(s: seq<T>, a: T, b: T, c: T)
    requires |s| == 3 && s[0] == a && s[1] == b && s[2] == c
    ensures s == [a, b, c]
  {
  }

  /** A file of 25 bytes cut into chunks of 10: three chunks of 10, 10 and 5 bytes at 0, 10 and 20. */
  lemma TwentyFiveBytes(st: State, name: string, source: seq<byte>)
    requires Fresh(st, name)
    requires |source| == 25
    requires Openable(name)
    ensures TotalChunks(25, 10) == 3
    ensures [PacketSize(25, 10, 0), PacketSize(25, 10, 1), PacketSize(25, 10, 2)] == [10, 10, 5]
    ensures [Offset(10, 0), Offset(10, 1), Offset(10, 2)] == [0, 10, 20]
    ensures
      var run := Serve(st, Clean(Plan(name, source, 10)));
      && run.responses == [Accepted(0, name), Accepted(1, name), Accepted(2, name)]
      && name !in run.state.session
      && name in run.state.store
      && run.state.store[name] == Zeros(20) + source[20..]
  {
    assert TotalChunks(25, 10) == 3;
    assert Offset(10, 2) == 20;
    InOrderUpload(st, name, source, 10);
    var run := Serve(st, Clean(Plan(name, source, 10)));
    Three(run.responses, Accepted(0, name), Accepted(1, name), Accepted(2, name));
  }

  /**
    An empty file is sent as one empty chunk; the receiver accepts it, ends
    the session and stores an empty file.
   */
  lemma ZeroByteUpload(st: State, name: string, chunkSize: nat)
    requires chunkSize > 0
    requires Fresh(st, name)
    requires Openable(name)
    ensures Plan(name, [], chunkSize) == [ChunkRequest(ChunkForm(name, 0, 0, 1, 0), [])]
    ensures
      var run := Serve(st, Clean(Plan(name, [], chunkSize)));
      && run.responses == [Accepted(0, name)]
      && name !in run.state.session
      && run.state.store == st.store[name := []]
  {
    InOrderUpload(st, name, [], chunkSize);
    var run := Serve(st, Clean(Plan(name, [], chunkSize)));
    assert run.state.store == (run.state.store - {name})[name := []];
  }

  /** An error-free request for `name`, a name a file can have, at a valid offset, announcing `total` chunks. */
  predicate CleanFor(d: Delivery, name: string, total: int)
  {
    && NameOf(d) == name
    && Openable(name)
    && d.fault == NoFault
    && 0 <= d.request.form.chunkByteOffset <= MaxFileOffset
    && d.request.form.totalChunks == total
  }

  /** Every delivery is an error-free request for `name`, announcing `total` chunks. */
  predicate SameUpload(ds: seq<Delivery>, name: string, total: int)
  {
    forall i :: 0 <= i < |ds| ==> CleanFor(ds[i], name, total)
  }

  /**
    What `n` same-upload requests leave behind, `last` being the last of
    them: the file its write left, and either a session still counting or
    the outcome of the completion check.
   */
  predicate Counted(run: Run, name: string, last: ChunkRequest, n: int, total: int)
    requires last.form.chunkByteOffset >= 0
  {
    && 1 <= n == |run.responses|
    && name in run.state.store
    && run.state.store[name] == Written(last)
    && (n < total ==> run.responses[n - 1] == Accepted(last.form.chunkIndex, name)
                      && name in run.state.session && run.state.session[name] == n - 1)
    && (n == total && |Written(last)| == last.form.fileSize ==>
          run.responses[n - 1] == Accepted(last.form.chunkIndex, name) && name !in run.state.session)
    && (n == total && |Written(last)| != last.form.fileSize ==>
          run.responses[n - 1] == Rejected(SizeMismatch) && name in run.state.session
          && run.state.session[name] == total - 1)
  }

  /**
    One error-free request for `name` that finds `k` earlier requests counted
    (none at all when `k` is zero, in which case nothing is stored either).
   */
  lemma CountStep(before: State, responses: seq<Response>, d: Delivery, name: string, total: int)
    requires CleanFor(d, name, total)
    requires |responses| < total
    requires |responses| == 0 ==> Fresh(before, name)
    requires |responses| > 0 ==> name in before.session && before.session[name] == |responses| - 1
    ensures
      var out := Upload(before, d.request, d.fault);
      Counted(Run(out.state, responses + [out.response]), name, d.request, |responses| + 1, total)
  {
    assert Counter(before, name) == |responses|;
    assert Writes(before, d.request, d.fault);
  }

  /** Serving one more error-free request for `name` after `k` counted ones. */
  lemma CountNext(st: State, init: seq<Delivery>, d: Delivery, name: string, total: int)
    requires CleanFor(d, name, total)
    requires |init| < total
    requires |init| == 0 ==> Fresh(st, name)
    requires |init| > 0 ==>
      (|Serve(st, init).responses| == |init|
       && name in Serve(st, init).state.session && Serve(st, init).state.session[name] == |init| - 1)
    ensures Counted(Serve(st, init + [d]), name, d.request, |init| + 1, total)
  {
    var before := Serve(st, init);
    ServeLast(st, init, d);
    if |init| == 0 {
      assert before == Run(st, []);
    }
    CountStep(before.state, before.responses, d, name, total);
  }

  /** The state a run of same-upload requests leaves, and the response to the last of them. */
  lemma {:induction false} CountsLast(st: State, name: string, ds: seq<Delivery>, total: int)
    requires Fresh(st, name)
    requires 1 <= |ds| <= total
    requires SameUpload(ds, name, total)
    ensures ds[|ds| - 1].request.form.chunkByteOffset >= 0
    ensures Counted(Serve(st, ds), name, ds[|ds| - 1].request, |ds|, total)
  {
    var init := ds[..|ds| - 1];
    var d := ds[|ds| - 1];
    assert ds == init + [d];
    assert CleanFor(d, name, total);
    if |ds| > 1 {
      assert SameUpload(init, name, total);
      CountsLast(st, name, init, total);
    }
    CountNext(st, init, d, name, total);
  }

  /** Serving a prefix of the deliveries gives the prefix of the responses. */
  lemma {:induction false} ServePrefix(st: State, ds: seq<Delivery>, k: nat)
    requires k <= |ds|
    ensures Serve(st, ds[..k]).responses == Serve(st, ds).responses[..k]
  {
    if k < |ds| {
      var init := ds[..|ds| - 1];
      assert ds == init + [ds[|ds| - 1]];
      ServeLast(st, init, ds[|ds| - 1]);
      ServePrefix(st, init, k);
      assert init[..k] == ds[..k];
    } else {
      assert ds[..k] == ds;
    }
  }

  /**
    The receiver counts requests, not chunk indices. Whatever indices the
    requests carry (duplicates, gaps, any order), a receiver that has never
    seen the name accepts the first `total - 1` of them without completing,
    and the request numbered `total` triggers the completion check: the
    session ends if that request's write leaves the announced size, and a
    size mismatch is reported, with the session kept, otherwise.
   */
  lemma CountsRequests(st: State, name: string, ds: seq<Delivery>, total: int)
    requires Fresh(st, name)
    requires 1 <= |ds| <= total
    requires SameUpload(ds, name, total)
    ensures
      var run := Serve(st, ds);
      var last := ds[|ds| - 1].request;
      && (forall j :: 0 <= j < |ds| - 1 ==> run.responses[j] == Accepted(ds[j].request.form.chunkIndex, name))
      && name in run.state.store
      && run.state.store[name] == Written(last)
      && (|ds| < total ==> run.responses[|ds| - 1] == Accepted(last.form.chunkIndex, name)
                           && name in run.state.session && run.state.session[name] == |ds| - 1)
      && (|ds| == total && |Written(last)| == last.form.fileSize ==>
            run.responses[|ds| - 1] == Accepted(last.form.chunkIndex, name) && name !in run.state.session)
      && (|ds| == total && |Written(last)| != last.form.fileSize ==>
            run.responses[|ds| - 1] == Rejected(SizeMismatch) && name in run.state.session
            && run.state.session[name] == total - 1)
  {
    CountsLast(st, name, ds, total);
    forall j | 0 <= j < |ds| - 1
      ensures Serve(st, ds).responses[j] == Accepted(ds[j].request.form.chunkIndex, name)
    {
      var pre := ds[..j + 1];
      ServePrefix(st, ds, j + 1);
      assert SameUpload(pre, name, total);
      CountsLast(st, name, pre, total);
      assert pre[j] == ds[j];
    }
  }

  /**
    Once a session's counter has reached the announced chunk count minus
    one without the session ending (a size mismatch after duplicates, say),
    it can never end: further requests for the name are counted past the
    completion point and the completion check never runs again.
   */
  lemma {:induction false} NeverCompletesPastTotal(st: State, name: string, ds: seq<Delivery>, total: int)
    requires name in st.session
    requires st.session[name] + 1 >= total
    requires forall i :: 0 <= i < |ds| ==> NameOf(ds[i]) == name && ds[i].request.form.totalChunks == total
    ensures name in Serve(st, ds).state.session
    ensures Serve(st, ds).state.session[name] == st.session[name] + |ds|
    ensures forall j :: 0 <= j < |ds| ==> Serve(st, ds).responses[j] != Rejected(SizeMismatch)
  {
    if |ds| > 0 {
      var init := ds[..|ds| - 1];
      var d := ds[|ds| - 1];
      assert ds == init + [d];
      ServeLast(st, init, d);
      NeverCompletesPastTotal(st, name, init, total);
    }
  }

  /**
    A duplicated first chunk of a file of two chunks: the duplicate is the
    second request, so it triggers the completion check, which finds half
    the file and reports a mismatch; the real second chunk that follows is
    accepted but completes nothing, and the session stays open.
   */
  lemma DuplicateFirstChunk(st: State, name: string, source: seq<byte>, chunkSize: nat)
    requires chunkSize > 0
    requires |source| <= MaxFileOffset
    requires Fresh(st, name)
    requires TotalChunks(|source|, chunkSize) == 2
    requires Openable(name)
    ensures
      var plan := Plan(name, source, chunkSize);
      var run := Serve(st, Clean([plan[0], plan[0], plan[1]]));
      && run.responses == [Accepted(0, name), Rejected(SizeMismatch), Accepted(1, name)]
      && name in run.state.session
      && run.state.session[name] == 2
  {
    var plan := Plan(name, source, chunkSize);
    FirstChunkTwice(st, name, source, chunkSize);
    PlanAt(name, source, chunkSize, 1);
    var two := Clean([plan[0], plan[0]]);
    var d := Delivery(plan[1], NoFault);
    assert Clean([plan[0], plan[0], plan[1]]) == two + [d];
    ServeLast(st, two, d);
    assert Counter(Serve(st, two).state, name) == 2;
  }

  /** The first two requests of the duplicated upload: the second one triggers the size check too early. */
  lemma FirstChunkTwice(st: State, name: string, source: seq<byte>, chunkSize: nat)
    requires chunkSize > 0
    requires Fresh(st, name)
    requires TotalChunks(|source|, chunkSize) == 2
    requires Openable(name)
    ensures
      var plan := Plan(name, source, chunkSize);
      var run := Serve(st, Clean([plan[0], plan[0]]));
      && run.responses == [Accepted(0, name), Rejected(SizeMismatch)]
      && name in run.state.session
      && run.state.session[name] == 1
  {
    var plan := Plan(name, source, chunkSize);
    PlanAt(name, source, chunkSize, 0);
    var ds := Clean([plan[0], plan[0]]);
    assert SameUpload(ds, name, 2);
    CountsRequests(st, name, ds, 2);
    PacketSizeBounds(|source|, chunkSize, 0);
    TruncatingWrite(0, plan[0].payload);
    assert |Written(plan[0])| == chunkSize < |source|;
  }

  /**
    A name whose file is stored but has no session: the first request is
    refused and leaves the file alone, yet it opens a session, so a retry
    gets past the existence check and its write replaces the stored file.
   */
  lemma RetryAfterAlreadyExists(st: State, first: ChunkRequest, retry: ChunkRequest)
    requires Exists(st.store, first.form.fileName) && first.form.fileName !in st.session
    requires retry.form.fileName == first.form.fileName
    requires 0 <= retry.form.chunkByteOffset <= MaxFileOffset
    ensures
      var o1 := Upload(st, first, NoFault);
      var o2 := Upload(o1.state, retry, NoFault);
      && o1.response == Rejected(AlreadyExists)
      && o1.state.store == st.store
      && o1.state.session[first.form.fileName] == 0
      && o2.response != Rejected(AlreadyExists)
      && first.form.fileName in o2.state.store
      && o2.state.store[first.form.fileName] == Written(retry)
  {
    var o1 := Upload(st, first, NoFault);
    assert Counter(o1.state, first.form.fileName) == 1;
  }

  /**
    Purging removes the files the `*` pattern lists but not the sessions.
    A name without a session whose file is gone can then be uploaded
    afresh, to completion. A stored file the listing does not reach (a
    dot-file, or a name leading out of the directory) survives the purge,
    so the first request of a new upload under that name is refused as
    existing.
   */
  lemma PurgeThenUpload(st: State, name: string, source: seq<byte>, chunkSize: nat)
    requires chunkSize > 0
    requires |source| <= MaxFileOffset
    requires name !in st.session
    requires Openable(name)
    ensures name in Purge(st).store <==> name in st.store && !Swept(name)
    ensures
      var run := Serve(Purge(st), Clean(Plan(name, source, chunkSize)));
      && (name !in Purge(st).store ==>
            name !in run.state.session && name in run.state.store && |run.state.store[name]| == |source|)
      && (name in Purge(st).store ==> run.responses[0] == Rejected(AlreadyExists))
  {
    var p := Purge(st);
    if name !in p.store {
      assert Fresh(p, name);
      InOrderUpload(p, name, source, chunkSize);
    } else {
      FirstRequestRefused(p, name, source, chunkSize);
    }
  }

  /** The first planned request for a stored name without a session is refused as existing. */
  lemma FirstRequestRefused(st: State, name: string, source: seq<byte>, chunkSize: nat)
    requires chunkSize > 0
    requires |source| <= MaxFileOffset
    requires Exists(st.store, name) && name !in st.session
    ensures Serve(st, Clean(Plan(name, source, chunkSize))).responses[0] == Rejected(AlreadyExists)
  {
    var ds := Clean(Plan(name, source, chunkSize));
    PlanAt(name, source, chunkSize, 0);
    var d := ds[0];
    assert NameOf(d) == name && d.fault == NoFault;
    ServePrefix(st, ds, 1);
    assert ds[..1] == [] + [d];
    ServeLast(st, [], d);
  }

  /**
    A session that survives a purge keeps counting: the next request for its
    name is counted one further and is never refused as existing, its write
    replaces that name's file, and the only other files are those the purge
    did not list.
   */
  lemma PurgeKeepsSession(st: State, req: ChunkRequest)
    requires req.form.fileName in st.session
    requires st.session[req.form.fileName] >= 0
    requires Openable(req.form.fileName)
    requires 0 <= req.form.chunkByteOffset <= MaxFileOffset
    ensures
      var out := Upload(Purge(st), req, NoFault);
      && out.response != Rejected(AlreadyExists)
      && req.form.fileName in out.state.store
      && out.state.store[req.form.fileName] == Written(req)
      && (forall n :: n != req.form.fileName ==> (n in out.state.store <==> n in st.store && !Swept(n)))
      && (req.form.fileName in out.state.session ==>
            out.state.session[req.form.fileName] == st.session[req.form.fileName] + 1)
  {
    var name := req.form.fileName;
    var out := Upload(Purge(st), req, NoFault);
    assert Counter(Purge(st), name) == st.session[name] + 1;
    assert Writes(Purge(st), req, NoFault);
    forall n | n != name
      ensures n in out.state.store <==> n in st.store && !Swept(n)
    {
      assert (n in out.state.store) == (n in out.state.store - {name});
      assert (n in Purge(st).store) == (n in Purge(st).store - {name});
    }
  }

  /**
    Requests for a name with a NUL character never store anything: every one
    of them is answered with an internal error, and each is still counted.
   */
  lemma {:induction false} UnopenableRun(st: State, name: string, ds: seq<Delivery>)
    requires !Openable(name)
    requires forall i :: 0 <= i < |ds| ==> NameOf(ds[i]) == name
    ensures Serve(st, ds).state.store == st.store
    ensures forall j :: 0 <= j < |ds| ==> Serve(st, ds).responses[j] == Rejected(InternalError)
    ensures |ds| > 0 ==> name in Serve(st, ds).state.session
    ensures |ds| > 0 && name in st.session ==> Serve(st, ds).state.session[name] == st.session[name] + |ds|
    ensures |ds| > 0 && name !in st.session ==> Serve(st, ds).state.session[name] == |ds| - 1
  {
    if |ds| > 0 {
      var init := ds[..|ds| - 1];
      var d := ds[|ds| - 1];
      assert ds == init + [d];
      ServeLast(st, init, d);
      UnopenableRun(st, name, init);
      UnopenableName(Serve(st, init).state, d.request, d.fault);
    }
  }

  /** What the receiver holds for one name. */
  datatype Entry = Entry(counter: Option<int>, file: Option<seq<byte>>)

  function View(st: State, name: string): Entry
  {
    Entry(if name in st.session then Some(st.session[name]) else None,
          if name in st.store then Some(st.store[name]) else None)
  }

  /** The deliveries for `name`, in their order. */
  function Only(ds: seq<Delivery>, name: string): (r: seq<Delivery>)
    ensures |r| <= |ds|
  {
    if |ds| == 0 then []
    else Only(ds[..|ds| - 1], name) + (if NameOf(ds[|ds| - 1]) == name then [ds[|ds| - 1]] else [])
  }

  /**
    How a request for `name` is handled depends only on what the receiver
    holds for `name`.
   */
  lemma UploadIsLocal(s: State, t: State, d: Delivery, name: string)
    requires NameOf(d) == name
    requires View(s, name) == View(t, name)
    ensures View(Upload(s, d.request, d.fault).state, name) == View(Upload(t, d.request, d.fault).state, name)
    ensures Upload(s, d.request, d.fault).response == Upload(t, d.request, d.fault).response
  {
    assert Counter(s, name) == Counter(t, name);
  }

  /** A request for another name leaves what the receiver holds for `name` alone. */
  lemma UploadElsewhere(s: State, d: Delivery, name: string)
    requires NameOf(d) != name
    ensures View(Upload(s, d.request, d.fault).state, name) == View(s, name)
  {
    var out := Upload(s, d.request, d.fault);
    assert (name in out.state.session) == (name in out.state.session - {NameOf(d)});
    assert (name in s.session) == (name in s.session - {NameOf(d)});
    assert (name in out.state.store) == (name in out.state.store - {NameOf(d)});
    assert (name in s.store) == (name in s.store - {NameOf(d)});
  }

  /**
    Uploads of different files do not interfere: whatever other requests
    are interleaved with them, the counter and the file the receiver ends up
    with for `name` are those the requests for `name` alone would leave.
   */
  lemma {:induction false} Isolation(st: State, ds: seq<Delivery>, name: string)
    ensures View(Serve(st, ds).state, name) == View(Serve(st, Only(ds, name)).state, name)
  {
    if |ds| > 0 {
      var init := ds[..|ds| - 1];
      var d := ds[|ds| - 1];
      assert ds == init + [d];
      ServeLast(st, init, d);
      Isolation(st, init, name);
      if NameOf(d) == name {
        assert Only(ds, name) == Only(init, name) + [d];
        ServeLast(st, Only(init, name), d);
        UploadIsLocal(Serve(st, init).state, Serve(st, Only(init, name)).state, d, name);
      } else {
        assert Only(ds, name) == Only(init, name);
        UploadElsewhere(Serve(st, init).state, d, name);
      }
    }
  }

}
