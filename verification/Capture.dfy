/**
  Bounded capture of the bodies that stream through the proxy and the replay client
  (internal/capture/proxy.go, internal/replay/replay.go), up to the sizes the store accepts.
 */
module Capture {
  import opened Strings
  import opened Recording
  import opened Policy
  import opened Compare

  // ----- Retained bytes -----

  /** What a capture with this limit keeps of a stream. */
  function First(limit: int, stream: Bytes): Bytes {
    if limit <= 0 then [] else if limit < |stream| then stream[..limit] else stream
  }

  /** One more piece of the stream, while there is room for it. */
  function Retain(limit: int, body: Bytes, data: Bytes): Bytes {
    var remaining := limit - |body|;
    if remaining <= 0 then body else if |data| > remaining then body + data[..remaining] else body + data
  }

  lemma RetainIsFirst(limit: int, stream: Bytes, data: Bytes)
    ensures Retain(limit, First(limit, stream), data) == First(limit, stream + data)
  {
    if 0 < limit < |stream| {
      assert (stream + data)[..limit] == stream[..limit];
    } else if 0 < limit < |stream + data| {
      assert (stream + data)[..limit] == stream + data[..limit - |stream|];
    }
  }

  // ----- Runs of the request reader -----

  datatype Outcome = Fine | EndOfFile | Failure(text: string)

  /** What one Read of the underlying reader gives. */
  datatype Came = Came(chunk: Bytes, outcome: Outcome)

  datatype Reading = Reading(size: int, body: Bytes, sawEOF: bool, readErr: Option<string>)

  function ReadStep(limit: int, absent: bool, r: Reading, came: Came): Reading {
    if absent then r.(sawEOF := true) else
      Reading(
        r.size + |came.chunk|,
        if came.chunk == [] then r.body else Retain(limit, r.body, came.chunk),
        r.sawEOF || came.outcome.EndOfFile?,
        if came.outcome.Failure? then Some(came.outcome.text) else r.readErr)
  }

  /** The reader after these reads. */
  function ReadRun(limit: int, absent: bool, received: seq<Came>): Reading {
    if received == [] then Reading(0, [], false, None)
    else ReadStep(limit, absent, ReadRun(limit, absent, received[..|received| - 1]), received[|received| - 1])
  }

  function Chunks(received: seq<Came>): Bytes {
    if received == [] then [] else Chunks(received[..|received| - 1]) + received[|received| - 1].chunk
  }

  predicate AnyFailed(received: seq<Came>) {
    exists i :: 0 <= i < |received| && received[i].outcome.Failure?
  }

  predicate AnyEnded(received: seq<Came>) {
    exists i :: 0 <= i < |received| && received[i].outcome.EndOfFile?
  }

  /** However the body is cut into reads, the reader has counted it all and kept its first bytes. */
  lemma {:induction false} ReaderKeepsFirst(limit: int, received: seq<Came>)
    ensures ReadRun(limit, false, received).size == |Chunks(received)|
    ensures ReadRun(limit, false, received).body == First(limit, Chunks(received))
    ensures ReadRun(limit, false, received).sawEOF <==> AnyEnded(received)
    ensures ReadRun(limit, false, received).readErr.Some? <==> AnyFailed(received)
  {
    if received != [] {
      var front, last := received[..|received| - 1], received[|received| - 1];
      ReaderKeepsFirst(limit, front);
      RetainIsFirst(limit, Chunks(front), last.chunk);
      assert last.chunk == [] ==> Chunks(front) + last.chunk == Chunks(front);
      if AnyEnded(front) {
        var i :| 0 <= i < |front| && front[i].outcome.EndOfFile?;
        assert received[i] == front[i];
      }
      if AnyFailed(front) {
        var i :| 0 <= i < |front| && front[i].outcome.Failure?;
        assert received[i] == front[i];
      }
    }
  }

  lemma {:induction false} AbsentBodyIsEmpty(limit: int, received: seq<Came>)
    ensures ReadRun(limit, true, received) == Reading(0, [], received != [], None)
  {
    if received != [] { AbsentBodyIsEmpty(limit, received[..|received| - 1]); }
  }

  // ----- Runs of the response writer -----

  /** A call on the writer; a write carries what the writer downstream will answer. */
  datatype Call = WriteHeader(code: int) | Write(data: Bytes, accepted: int, err: Option<string>) | Flush

  /** A call the writer makes downstream. */
  datatype Event = Status(code: int) | Sent(data: Bytes) | Flushed

  datatype Writing = Writing(status: int, wroteHeader: bool, size: int, body: Bytes, writeErr: Option<string>, sent: seq<Event>)

  const OK := 200
  const SWITCHING_PROTOCOLS := 101
  const SHORT_WRITE := "short write"

  predicate Informational(code: int) {
    100 <= code < 200 && code != SWITCHING_PROTOCOLS
  }

  function HeaderStep(w: Writing, code: int): Writing {
    if w.wroteHeader then w
    else if Informational(code) then w.(sent := w.sent + [Status(code)])
    else w.(status := code, wroteHeader := true, sent := w.sent + [Status(code)])
  }

  /** What is wrong with a write, if anything. */
  function Problem(call: Call): Option<string> {
    if !call.Write? then None
    else if call.err.Some? then call.err
    else if call.accepted < |call.data| then Some(SHORT_WRITE)
    else None
  }

  function WriteStep(limit: int, flusher: bool, w: Writing, call: Call): Writing {
    match call
    case WriteHeader(code) => HeaderStep(w, code)
    case Write(data, _, _) =>
      var h := HeaderStep(w, OK);
      h.(size := h.size + |data|, body := Retain(limit, h.body, data), sent := h.sent + [Sent(data)],
         writeErr := if h.writeErr.Some? then h.writeErr else Problem(call))
    case Flush =>
      var h := HeaderStep(w, OK);
      if flusher then h.(sent := h.sent + [Flushed]) else h
  }

  /** The writer after these calls. */
  function WriteRun(limit: int, flusher: bool, calls: seq<Call>): Writing {
    if calls == [] then Writing(OK, false, 0, [], None, [])
    else WriteStep(limit, flusher, WriteRun(limit, flusher, calls[..|calls| - 1]), calls[|calls| - 1])
  }

  lemma WriteRunSnoc(limit: int, flusher: bool, calls: seq<Call>, call: Call)
    ensures WriteRun(limit, flusher, calls + [call]) == WriteStep(limit, flusher, WriteRun(limit, flusher, calls), call)
  {
    assert (calls + [call])[..|calls|] == calls;
  }

  function Written(calls: seq<Call>): Bytes {
    if calls == [] then []
    else Written(calls[..|calls| - 1]) + if calls[|calls| - 1].Write? then calls[|calls| - 1].data else []
  }

  /** The code a call would commit the response to. */
  function Commitment(call: Call): Option<int> {
    match call
    case WriteHeader(code) => if Informational(code) then None else Some(code)
    case _ => Some(OK)
  }

  /** The first commitment among the calls decides the final status. */
  function Final(calls: seq<Call>): Option<int> {
    if calls == [] then None
    else if Commitment(calls[0]).Some? then Commitment(calls[0])
    else Final(calls[1..])
  }

  function FirstProblem(calls: seq<Call>): Option<string> {
    if calls == [] then None
    else if Problem(calls[0]).Some? then Problem(calls[0])
    else FirstProblem(calls[1..])
  }

  /** What a call sends downstream once the status is out. */
  function Echo(flusher: bool, call: Call): seq<Event> {
    match call
    case WriteHeader(_) => []
    case Write(data, _, _) => [Sent(data)]
    case Flush => if flusher then [Flushed] else []
  }

  function Echoes(flusher: bool, calls: seq<Call>): seq<Event> {
    if calls == [] then [] else Echo(flusher, calls[0]) + Echoes(flusher, calls[1..])
  }

  /** What must reach the client: informational statuses, then the final one, then bytes and flushes. */
  function Trace(flusher: bool, calls: seq<Call>): seq<Event> {
    if calls == [] then []
    else if Commitment(calls[0]) == None then [Status(calls[0].code)] + Trace(flusher, calls[1..])
    else [Status(Commitment(calls[0]).value)] + Echoes(flusher, calls)
  }

  lemma {:induction false} EchoesSnoc(flusher: bool, calls: seq<Call>, call: Call)
    ensures Echoes(flusher, calls + [call]) == Echoes(flusher, calls) + Echo(flusher, call)
  {
    if calls != [] {
      EchoesSnoc(flusher, calls[1..], call);
      ConcatTail(calls, [call]);
    }
  }

  lemma {:induction false} FinalSnoc(calls: seq<Call>, call: Call)
    ensures Final(calls + [call]) == if Final(calls).Some? then Final(calls) else Commitment(call)
  {
    if calls != [] {
      FinalSnoc(calls[1..], call);
      ConcatTail(calls, [call]);
    } else {
      assert calls + [call] == [call];
    }
  }

  /** What the last call adds to the trace. */
  function Addition(flusher: bool, committed: bool, call: Call): seq<Event> {
    if committed then Echo(flusher, call)
    else if Commitment(call).Some? then [Status(Commitment(call).value)] + Echo(flusher, call)
    else [Status(call.code)]
  }

  lemma {:induction false} TraceSnoc(flusher: bool, calls: seq<Call>, call: Call)
    ensures Trace(flusher, calls + [call]) == Trace(flusher, calls) + Addition(flusher, Final(calls).Some?, call)
  {
    if calls == [] {
      assert calls + [call] == [call];
      TraceOfOne(flusher, call);
    } else {
      ConcatTail(calls, [call]);
      if Commitment(calls[0]).Some? {
        EchoesSnoc(flusher, calls, call);
        Regroup([Status(Commitment(calls[0]).value)], Echoes(flusher, calls), Echo(flusher, call));
      } else {
        TraceSnoc(flusher, calls[1..], call);
        Regroup([Status(calls[0].code)], Trace(flusher, calls[1..]), Addition(flusher, Final(calls).Some?, call));
      }
    }
  }

  lemma TraceOfOne(flusher: bool, call: Call)
    ensures Trace(flusher, [call]) == Addition(flusher, false, call)
  {
    assert [call][1..] == [];
    assert Echoes(flusher, [call]) == Echo(flusher, call);
  }

  lemma {:induction false} FirstProblemSnoc(calls: seq<Call>, call: Call)
    ensures FirstProblem(calls + [call]) == if FirstProblem(calls).Some? then FirstProblem(calls) else Problem(call)
  {
    if calls != [] {
      FirstProblemSnoc(calls[1..], call);
      ConcatTail(calls, [call]);
    } else {
      assert [call][1..] == [];
    }
  }

  /** In every run: what went downstream, and the status on record. */
  lemma {:induction false} WriterFollowsTrace(limit: int, flusher: bool, calls: seq<Call>)
    ensures WriteRun(limit, flusher, calls).sent == Trace(flusher, calls)
    ensures WriteRun(limit, flusher, calls).wroteHeader <==> Final(calls).Some?
    ensures WriteRun(limit, flusher, calls).status == (if Final(calls).Some? then Final(calls).value else OK)
  {
    if calls != [] {
      var front, last := calls[..|calls| - 1], calls[|calls| - 1];
      WriterFollowsTrace(limit, flusher, front);
      assert calls == front + [last];
      FinalSnoc(front, last);
      TraceSnoc(flusher, front, last);
      StepSends(limit, flusher, WriteRun(limit, flusher, front), last);
    }
  }

  /** What one call sends on, and what it makes of the status. */
  lemma StepSends(limit: int, flusher: bool, w: Writing, call: Call)
    ensures var next := WriteStep(limit, flusher, w, call);
            && next.sent == w.sent + Addition(flusher, w.wroteHeader, call)
            && (next.wroteHeader <==> w.wroteHeader || Commitment(call).Some?)
            && next.status == if !w.wroteHeader && Commitment(call).Some? then Commitment(call).value else w.status
  {
    if !w.wroteHeader && Commitment(call).Some? { Regroup(w.sent, [Status(Commitment(call).value)], Echo(flusher, call)); }
    if call.WriteHeader? { assert w.sent + [] == w.sent; }
  }

  /** Section 15.2 of RFC 9110, with 101 left out. */
  lemma InformationalIs(code: int)
    ensures Informational(code) <==> code / 100 == 1 && code != 101
  {
  }

  /** Without a call of WriteHeader the status is the implicit 200, sent before anything else. */
  lemma {:induction false} ImplicitStatus(limit: int, flusher: bool, calls: seq<Call>)
    requires calls != [] && forall i :: 0 <= i < |calls| ==> !calls[i].WriteHeader?
    ensures var w := WriteRun(limit, flusher, calls); w.status == 200 && w.sent != [] && w.sent[0] == Status(200)
  {
    WriterFollowsTrace(limit, flusher, calls);
  }

  /** In every run: what was kept, what was counted, and whether every write went through. */
  lemma {:induction false} WriterKeepsFirst(limit: int, flusher: bool, calls: seq<Call>)
    ensures WriteRun(limit, flusher, calls).size == |Written(calls)|
    ensures WriteRun(limit, flusher, calls).body == First(limit, Written(calls))
    ensures WriteRun(limit, flusher, calls).writeErr == FirstProblem(calls)
  {
    if calls != [] {
      var front, last := calls[..|calls| - 1], calls[|calls| - 1];
      WriterKeepsFirst(limit, flusher, front);
      assert calls == front + [last];
      FirstProblemSnoc(front, last);
      if last.Write? {
        RetainIsFirst(limit, Written(front), last.data);
      } else {
        assert Written(calls) == Written(front);
      }
    }
  }

  lemma {:induction false} FirstProblemIsFirst(calls: seq<Call>)
    ensures FirstProblem(calls) == None <==> forall i :: 0 <= i < |calls| ==> Problem(calls[i]) == None
  {
    if calls != [] {
      FirstProblemIsFirst(calls[1..]);
      assert forall i :: 1 <= i < |calls| ==> calls[i] == calls[1..][i - 1];
      assert forall i :: 0 <= i < |calls[1..]| ==> calls[1..][i] == calls[i + 1];
    }
  }

  /** Before position k only informational statuses; at k the final status; after it none. */
  ghost predicate CommitsAt(sent: seq<Event>, k: nat) {
    && k <= |sent|
    && (forall i :: 0 <= i < k ==> sent[i].Status? && Informational(sent[i].code))
    && (k < |sent| ==> sent[k].Status? && !Informational(sent[k].code))
    && (forall i :: k < i < |sent| ==> !sent[i].Status?)
  }

  /** Safety of the status machine: at most one final status, nothing else before it, and it is the one on record. */
  lemma StatusIsCommittedOnce(limit: int, flusher: bool, calls: seq<Call>) returns (k: nat)
    ensures var w := WriteRun(limit, flusher, calls);
            && CommitsAt(w.sent, k)
            && (w.wroteHeader <==> k < |w.sent|)
            && w.status == if k < |w.sent| then w.sent[k].code else OK
  {
    WriterFollowsTrace(limit, flusher, calls);
    k := TraceCommits(flusher, calls);
  }

  lemma {:induction false} TraceCommits(flusher: bool, calls: seq<Call>) returns (k: nat)
    ensures CommitsAt(Trace(flusher, calls), k)
    ensures k < |Trace(flusher, calls)| <==> Final(calls).Some?
    ensures Final(calls).Some? ==> Trace(flusher, calls)[k].code == Final(calls).value
  {
    if calls == [] {
      k := 0;
    } else if Commitment(calls[0]) == None {
      k := TraceCommits(flusher, calls[1..]);
      k := k + 1;
    } else {
      EchoesHaveNoStatus(flusher, calls);
      k := 0;
    }
  }

  lemma {:induction false} EchoesHaveNoStatus(flusher: bool, calls: seq<Call>)
    ensures forall i :: 0 <= i < |Echoes(flusher, calls)| ==> !Echoes(flusher, calls)[i].Status?
  {
    if calls != [] { EchoesHaveNoStatus(flusher, calls[1..]); }
  }

  // ----- Runs of the replay client's capture -----

  function Observed(limit: int, parts: seq<Bytes>): (int, Bytes) {
    if parts == [] then (0, []) else
      var (observed, body) := Observed(limit, parts[..|parts| - 1]);
      (observed + |parts[|parts| - 1]|, Retain(limit, body, parts[|parts| - 1]))
  }

  function Joined(parts: seq<Bytes>): Bytes {
    if parts == [] then [] else Joined(parts[..|parts| - 1]) + parts[|parts| - 1]
  }

  lemma {:induction false} ObservedKeepsFirst(limit: int, parts: seq<Bytes>)
    ensures Observed(limit, parts) == (|Joined(parts)|, First(limit, Joined(parts)))
  {
    if parts != [] {
      ObservedKeepsFirst(limit, parts[..|parts| - 1]);
      RetainIsFirst(limit, Joined(parts[..|parts| - 1]), parts[|parts| - 1]);
    }
  }

  /** One stream, cut up in three ways and captured at three places, leaves one record. */
  lemma ChunkingDoesNotShow(limit: int, flusher: bool, received: seq<Came>, calls: seq<Call>, parts: seq<Bytes>)
    requires Chunks(received) == Written(calls) == Joined(parts)
    ensures ReadRun(limit, false, received).body == WriteRun(limit, flusher, calls).body == Observed(limit, parts).1
    ensures ReadRun(limit, false, received).size == WriteRun(limit, flusher, calls).size == Observed(limit, parts).0
  {
    ReaderKeepsFirst(limit, received);
    WriterKeepsFirst(limit, flusher, calls);
    ObservedKeepsFirst(limit, parts);
  }

  // ----- The objects -----

  /** captureReadCloser. The chunk and outcome of the underlying Read are arguments of Read. */
  class CaptureReadCloser {
    const absent: bool
    const limit: int
    var size: int
    var body: Bytes
    var sawEOF: bool
    var readErr: Option<string>
    ghost var received: seq<Came>

    ghost predicate Valid()
      reads this
    {
      Reading(size, body, sawEOF, readErr) == ReadRun(limit, absent, received)
    }

    constructor (absent: bool, limit: int)
      ensures Valid() && received == [] && this.absent == absent && this.limit == limit
    {
      this.absent, this.limit := absent, limit;
      size, body, sawEOF, readErr := 0, [], false, None;
      received := [];
    }

    method Read(came: Came) returns (n: nat, outcome: Outcome)
      requires Valid()
      modifies this
      ensures Valid() && received == old(received) + [came]
      ensures absent ==> n == 0 && outcome == EndOfFile
      ensures !absent ==> n == |came.chunk| && outcome == came.outcome
    {
      received := received + [came];
      assert received[..|received| - 1] == old(received);
      if absent {
        sawEOF := true;
        return 0, EndOfFile;
      }
      n, outcome := |came.chunk|, came.outcome;
      if n > 0 {
        size := size + n;
        Capture(came.chunk);
      }
      match outcome
      case EndOfFile => sawEOF := true;
      case Failure(text) => readErr := Some(text);
      case Fine =>
    }

    method Capture(data: Bytes)
      modifies this`body
      ensures body == Retain(limit, old(body), data)
    {
      var remaining := limit - |body|;
      if remaining <= 0 {
        return;
      }
      var kept := data;
      if |kept| > remaining {
        kept := kept[..remaining];
      }
      body := body + kept;
    }

    /** The whole body was read: nothing failed, and the announced length or the end was reached. */
    method Complete(contentLength: int) returns (complete: bool)
      requires Valid()
      ensures !absent ==>
                (complete <==> !AnyFailed(received) && if contentLength >= 0 then |Chunks(received)| >= contentLength else AnyEnded(received))
      ensures absent ==> (complete <==> contentLength == 0 || (contentLength < 0 && received != []))
    {
      ReaderKeepsFirst(limit, received);
      AbsentBodyIsEmpty(limit, received);
      if readErr != None {
        return false;
      }
      if contentLength >= 0 {
        return size >= contentLength;
      }
      return sawEOF;
    }

    method Truncated() returns (truncated: bool)
      requires Valid()
      ensures !absent ==> (truncated <==> |Chunks(received)| > if limit > 0 then limit else 0)
      ensures absent ==> !truncated
    {
      ReaderKeepsFirst(limit, received);
      AbsentBodyIsEmpty(limit, received);
      return size > |body|;
    }
  }

  /** captureWriter, and the calls it has made on the writer below it. */
  class CaptureWriter {
    const flusher: bool
    const limit: int
    var status: int
    var wroteHeader: bool
    var size: int
    var body: Bytes
    var writeErr: Option<string>
    var sent: seq<Event>
    ghost var calls: seq<Call>

    ghost predicate Valid()
      reads this
    {
      Now() == WriteRun(limit, flusher, calls)
    }

    ghost function Now(): Writing
      reads this
    {
      Writing(status, wroteHeader, size, body, writeErr, sent)
    }

    constructor (flusher: bool, limit: int)
      ensures Valid() && calls == [] && this.flusher == flusher && this.limit == limit
    {
      this.flusher, this.limit := flusher, limit;
      status, wroteHeader, size, body, writeErr, sent := OK, false, 0, [], None, [];
      calls := [];
    }

    method ForwardHeader(code: int)
      modifies this`status, this`wroteHeader, this`sent
      ensures Now() == HeaderStep(old(Now()), code)
    {
      if wroteHeader {
        return;
      }
      if code >= 100 && code < 200 && code != SWITCHING_PROTOCOLS {
        sent := sent + [Status(code)];
        return;
      }
      status := code;
      wroteHeader := true;
      sent := sent + [Status(code)];
    }

    method WriteHeader(code: int)
      requires Valid()
      modifies this
      ensures Valid() && calls == old(calls) + [Call.WriteHeader(code)]
    {
      ForwardHeader(code);
      WriteRunSnoc(limit, flusher, calls, Call.WriteHeader(code));
      calls := calls + [Call.WriteHeader(code)];
    }

    method Capture(data: Bytes)
      modifies this`body
      ensures body == Retain(limit, old(body), data)
    {
      var remaining := limit - |body|;
      if remaining <= 0 {
        return;
      }
      var kept := data;
      if |kept| > remaining {
        kept := kept[..remaining];
      }
      body := body + kept;
    }

    /** `accepted` and `err` are the answer of the writer below. */
    method Write(data: Bytes, accepted: int, err: Option<string>) returns (n: int, failure: Option<string>)
      requires Valid()
      modifies this
      ensures Valid() && calls == old(calls) + [Call.Write(data, accepted, err)]
      ensures n == accepted && failure == err
    {
      if !wroteHeader {
        ForwardHeader(OK);
      }
      assert Now() == HeaderStep(old(Now()), OK);
      size := size + |data|;
      Capture(data);
      sent := sent + [Sent(data)];
      KeepProblem(data, accepted, err);
      WriteRunSnoc(limit, flusher, calls, Call.Write(data, accepted, err));
      calls := calls + [Call.Write(data, accepted, err)];
      return accepted, err;
    }

    /** The first thing that went wrong with a write stays on record. */
    method KeepProblem(data: Bytes, accepted: int, err: Option<string>)
      modifies this`writeErr
      ensures writeErr == if old(writeErr).Some? then old(writeErr) else Problem(Call.Write(data, accepted, err))
    {
      if err != None && writeErr == None {
        writeErr := err;
      }
      if accepted < |data| && err == None && writeErr == None {
        writeErr := Some(SHORT_WRITE);
      }
    }

    method Flush()
      requires Valid()
      modifies this
      ensures Valid() && calls == old(calls) + [Call.Flush]
    {
      if !wroteHeader {
        ForwardHeader(OK);
      }
      if flusher {
        sent := sent + [Flushed];
      }
      WriteRunSnoc(limit, flusher, calls, Call.Flush);
      calls := calls + [Call.Flush];
    }

    /** Every write was taken in full and without an error. */
    method Complete() returns (complete: bool)
      requires Valid()
      ensures complete <==> forall i :: 0 <= i < |calls| && calls[i].Write? ==> calls[i].err == None && calls[i].accepted >= |calls[i].data|
    {
      WriterKeepsFirst(limit, flusher, calls);
      FirstProblemIsFirst(calls);
      return writeErr == None;
    }

    method Truncated() returns (truncated: bool)
      requires Valid()
      ensures truncated <==> |Written(calls)| > if limit > 0 then limit else 0
    {
      WriterKeepsFirst(limit, flusher, calls);
      return size > |body|;
    }
  }

  /** responseBodyCapture. */
  class ResponseBodyCapture {
    const limit: int
    var observed: int
    var body: Bytes
    ghost var parts: seq<Bytes>

    ghost predicate Valid()
      reads this
    {
      (observed, body) == Observed(limit, parts)
    }

    constructor (limit: int)
      ensures Valid() && parts == [] && this.limit == limit
    {
      this.limit := limit;
      observed, body := 0, [];
      parts := [];
    }

    /** Reports the whole write whatever the limit, so that the copy goes on to drain the body. */
    method Write(data: Bytes) returns (n: int)
      requires Valid()
      modifies this
      ensures Valid() && parts == old(parts) + [data] && n == |data|
    {
      observed := observed + |data|;
      var remaining := limit - |body|;
      if remaining > 0 {
        var captured := data;
        if |captured| > remaining {
          captured := captured[..remaining];
        }
        body := body + captured;
      }
      parts := parts + [data];
      assert parts[..|parts| - 1] == old(parts);
      return |data|;
    }
  }

  /** The reads up to the one that ends the copy. */
  function Drained(received: seq<Came>): (r: seq<Came>)
    ensures |r| <= |received| && r == received[..|r|]
  {
    if received == [] || received[0].outcome != Fine then received[..if received == [] then 0 else 1] else [received[0]] + Drained(received[1..])
  }

  /** captureResponseBody: io.Copy from the response into the capture. */
  method CaptureResponseBody(received: seq<Came>, limit: int)
    returns (body: Bytes, observed: int, truncated: bool, err: Option<string>)
    ensures body == First(limit, Chunks(Drained(received))) && observed == |Chunks(Drained(received))|
    ensures SizesFit(|body|, observed, truncated)
    ensures err.Some? <==> AnyFailed(Drained(received))
    ensures err.Some? ==> exists i :: 0 <= i < |Drained(received)| && Drained(received)[i].outcome == Outcome.Failure(err.value)
  {
    var capture := new ResponseBodyCapture(limit);
    err := Copy(capture, received);
    ObservedKeepsFirst(limit, capture.parts);
    return capture.body, capture.observed, capture.observed > |capture.body|, err;
  }

  /** io.Copy: every chunk up to the first end or failure. */
  method Copy(capture: ResponseBodyCapture, received: seq<Came>) returns (err: Option<string>)
    requires capture.Valid() && capture.parts == []
    modifies capture
    ensures capture.Valid() && Joined(capture.parts) == Chunks(Drained(received))
    ensures err.Some? <==> AnyFailed(Drained(received))
    ensures err.Some? ==> exists i :: 0 <= i < |Drained(received)| && Drained(received)[i].outcome == Outcome.Failure(err.value)
  {
    err := None;
    var i := 0;
    while i < |received| && (i > 0 ==> received[i - 1].outcome == Fine)
      invariant 0 <= i <= |received| && capture.Valid()
      invariant Joined(capture.parts) == Chunks(received[..i])
      invariant forall j :: 0 <= j < i - 1 ==> received[j].outcome == Fine
      invariant err == if i > 0 && received[i - 1].outcome.Failure? then Some(received[i - 1].outcome.text) else None
    {
      var came := received[i];
      ChunksSnoc(received, i);
      if came.chunk != [] {
        JoinedSnoc(capture.parts, came.chunk);
        var _ := capture.Write(came.chunk);
      }
      if came.outcome.Failure? {
        err := Some(came.outcome.text);
      }
      i := i + 1;
    }
    DrainedAt(received, i);
    DrainedFails(received, i);
  }

  lemma DrainedFails(received: seq<Came>, n: nat)
    requires n <= |received| && forall j :: 0 <= j < n - 1 ==> received[j].outcome == Fine
    ensures AnyFailed(received[..n]) <==> n > 0 && received[n - 1].outcome.Failure?
    ensures n > 0 ==> exists i :: 0 <= i < |received[..n]| && received[..n][i].outcome == received[n - 1].outcome
  {
    if n > 0 { assert received[..n][n - 1] == received[n - 1]; }
  }

  lemma ChunksSnoc(received: seq<Came>, i: nat)
    requires i < |received|
    ensures Chunks(received[..i + 1]) == Chunks(received[..i]) + received[i].chunk
  {
    assert received[..i + 1][..i] == received[..i];
  }

  lemma JoinedSnoc(parts: seq<Bytes>, data: Bytes)
    ensures Joined(parts + [data]) == Joined(parts) + data
  {
    assert (parts + [data])[..|parts|] == parts;
  }

  lemma {:induction false} DrainedAt(received: seq<Came>, n: nat)
    requires n <= |received| && (forall j :: 0 <= j < n - 1 ==> received[j].outcome == Fine)
    requires n == |received| || (n > 0 && received[n - 1].outcome != Fine)
    ensures Drained(received) == received[..n]
  {
    if received != [] && received[0].outcome == Fine {
      DrainedAt(received[1..], n - 1);
      assert [received[0]] + received[1..][..n - 1] == received[..n];
    }
  }

  // ----- From capture to store -----

  function Passed(absent: bool, received: seq<Came>): Bytes {
    if absent then [] else Chunks(received)
  }

  /** The record of a body is the first part of its stream, or what the policy makes of that; the omitted bytes are accounted for. */
  ghost predicate Accounts(lib: Library, policy: Policy, headers: Header, limit: int, stream: Bytes,
                     body: Bytes, observed: int, truncated: bool, whole: bool, complete: bool)
  {
    && SizesFit(|body|, observed, truncated)
    && observed - |body| == |stream| - |First(limit, stream)|
    && (!BodyRules(policy) ==> body == First(limit, stream))
    && IsSanitized(lib, policy, First(limit, stream), headers, whole && !truncated, body)
    && (lib.Faithful() && BodyRules(policy) ==> Protected(lib, policy, headers, body))
    && (BodyRules(policy) && First(limit, stream) != [] && !Readable(headers, whole && !truncated) ==> body == WITHHELD)
    && (complete <==> whole && !(BodyRules(policy) && body == WITHHELD && First(limit, stream) != []))
  }

  /** The request body was read in full. */
  ghost predicate ReadInFull(requestBody: CaptureReadCloser, contentLength: int)
    reads requestBody
  {
    if requestBody.absent then contentLength == 0 || (contentLength < 0 && requestBody.received != [])
    else
      !AnyFailed(requestBody.received) && if contentLength >= 0 then |Chunks(requestBody.received)| >= contentLength else AnyEnded(requestBody.received)
  }

  method RecordRequest(lib: Library, policy: Policy, requestBody: CaptureReadCloser, outbound: Header, contentLength: int)
    returns (request: Request)
    requires requestBody.Valid()
    ensures Accounts(lib, policy, outbound, requestBody.limit, Passed(requestBody.absent, requestBody.received),
                     request.body, request.observedSize, request.truncated, ReadInFull(requestBody, contentLength), request.complete)
    ensures HeadersRedacted(policy, outbound, request.headers)
  {
    var truncated := requestBody.Truncated();
    var complete := requestBody.Complete(contentLength);
    ReaderKeepsFirst(requestBody.limit, requestBody.received);
    AbsentBodyIsEmpty(requestBody.limit, requestBody.received);
    var body, observed, stillComplete := SanitizeCapture(lib, policy, requestBody.body, outbound, requestBody.size, truncated, complete,
                                                         requestBody.limit, Passed(requestBody.absent, requestBody.received));
    var redacted := ApplyHeaders(policy, outbound);
    return Request(redacted, body, observed, truncated, stillComplete);
  }

  method RecordResponse(lib: Library, policy: Policy, captured: CaptureWriter, inbound: Header, complete: bool) returns (response: Response)
    requires captured.Valid()
    ensures Accounts(lib, policy, inbound, captured.limit, Written(captured.calls),
                     response.body, response.observedSize, response.truncated, complete, response.complete)
    ensures HeadersRedacted(policy, inbound, response.headers)
    ensures response.statusCode == if Final(captured.calls).Some? then Final(captured.calls).value else OK
  {
    var truncated := captured.Truncated();
    WriterKeepsFirst(captured.limit, captured.flusher, captured.calls);
    WriterFollowsTrace(captured.limit, captured.flusher, captured.calls);
    var body, observed, stillComplete := SanitizeCapture(lib, policy, captured.body, inbound, captured.size, truncated, complete,
                                                         captured.limit, Written(captured.calls));
    var redacted := ApplyHeaders(policy, inbound);
    return Response(captured.status, redacted, body, observed, truncated, stillComplete);
  }

  /** persistExchange: nothing protected is stored, and the store accepts every exchange, whatever was captured and whatever the policy. */
  method PersistExchange(lib: Library, policy: Policy, requestBody: CaptureReadCloser, outbound: Header, contentLength: int,
                         captured: CaptureWriter, inbound: Header, responseComplete: bool)
    returns (request: Request, response: Response, stored: Option<(int, int)>)
    requires requestBody.Valid() && captured.Valid()
    ensures stored == Some((|request.body|, |response.body|))
    ensures Accounts(lib, policy, outbound, requestBody.limit, Passed(requestBody.absent, requestBody.received),
                     request.body, request.observedSize, request.truncated, ReadInFull(requestBody, contentLength), request.complete)
    ensures HeadersRedacted(policy, outbound, request.headers)
    ensures Accounts(lib, policy, inbound, captured.limit, Written(captured.calls),
                     response.body, response.observedSize, response.truncated, responseComplete, response.complete)
    ensures HeadersRedacted(policy, inbound, response.headers)
    ensures response.statusCode == if Final(captured.calls).Some? then Final(captured.calls).value else OK
  {
    request := RecordRequest(lib, policy, requestBody, outbound, contentLength);
    response := RecordResponse(lib, policy, captured, inbound, responseComplete);
    stored := Add(request, response);
  }

  /** CaptureBody on the first bytes of a stream. */
  method SanitizeCapture(lib: Library, policy: Policy, captured: Bytes, headers: Header, size: int, truncated: bool, complete: bool,
                         ghost limit: int, ghost stream: Bytes)
    returns (body: Bytes, observed: int, newComplete: bool)
    requires captured == First(limit, stream) && size == |stream| && (truncated <==> size > |captured|)
    ensures Accounts(lib, policy, headers, limit, stream, body, observed, truncated, complete, newComplete)
  {
    body, observed, newComplete := CaptureBody(lib, policy, captured, headers, size, truncated, complete);
  }

  /**
    From the captured stream to the comparison: a recorded body can be compared only when all of its stream was captured,
    and without body rules exactly then. Otherwise the failure tells how many bytes are missing, and says withheld
    whenever redaction could not read the body.
   */
  method RecordThenCompare(lib: Library, policy: Policy, side: Side, captured: CaptureWriter, inbound: Header, complete: bool)
    returns (failure: Option<Failure>)
    requires captured.Valid()
    ensures var stream := Written(captured.calls);
            var kept := First(captured.limit, stream);
            && (failure.None? ==> complete && kept == stream)
            && (!BodyRules(policy) ==> (failure.None? <==> complete && kept == stream))
            && (!BodyRules(policy) && complete && failure.Some? ==> failure.value.BodyUnavailable? && !failure.value.withheld)
            && (BodyRules(policy) && kept != [] && (!complete || kept != stream || GetHeader(inbound, "Content-Encoding") != "") ==>
                  failure.Some? && failure.value.BodyUnavailable? && failure.value.withheld)
            && (failure.Some? ==>
                  && failure.value.BodyUnavailable? && failure.value.side == side
                  && failure.value.observedSize - failure.value.capturedSize == |stream| - |kept|
                  && (failure.value.truncated <==> kept != stream))
  {
    var response := RecordResponse(lib, policy, captured, inbound, complete);
    failure := EnsureComparableBody(side, response);
  }

  /** Store.Add: the captured sizes, if the sizes of both bodies are accepted. */
  method Add(request: Request, response: Response) returns (sizes: Option<(int, int)>)
    ensures sizes.Some? <==>
              SizesFit(|request.body|, request.observedSize, request.truncated) && SizesFit(|response.body|, response.observedSize, response.truncated)
    ensures sizes.Some? ==> sizes.value == (|request.body|, |response.body|)
  {
    var problem := ValidateBodyMetadata(request.body, request.observedSize, |request.body|, request.truncated);
    if problem.Some? {
      return None;
    }
    problem := ValidateBodyMetadata(response.body, response.observedSize, |response.body|, response.truncated);
    if problem.Some? {
      return None;
    }
    return Some((|request.body|, |response.body|));
  }
}
