/** Stream objects over one connection: reading a stream in any pattern of calls, writing the answer of
    a request through its two writers, and reading back what was written. */
module Session {
  import opened Basics
  import opened Wire
  import opened Deframing
  import opened DeframingTheorem
  import opened Transport
  import opened Params
  import opened Framing
  import opened FramingTheorem
  import opened RequestTheorem
  import opened RoundTrip
  import R = Reader
  import W = Writer

  /******* Reading *******/

  /** The bytes a client asks for: one per FCGX_GetChar (written -1), n per FCGX_GetStr of n. */
  function Asked(sizes: seq<int>): nat {
    if sizes == [] then 0
    else Asked(sizes[..|sizes| - 1]) + (var n := sizes[|sizes| - 1]; if n < 0 then 1 else n)
  }

  /** Any mix of FCGX_GetChar and FCGX_GetStr calls: together they hand over the content in order. */
  method ReadMix(s: R.Stream, sizes: seq<int>, ghost content: seq<byte>, ghost end: End, ghost owed: seq<byte>, ghost errno0: int)
      returns (got: seq<byte>)
    requires Reading(s, content, end, owed, errno0)
    modifies s, s.buff, s.request, s.request.socket
    ensures got == content[..Min(Asked(sizes), |content|)]
    ensures if Asked(sizes) <= |content| then Reading(s, content[Asked(sizes)..], end, owed, errno0)
            else Over(s, end, owed, errno0)
  {
    hide Reading, Over;
    got := [];
    ghost var k := 0;
    assert content[0..] == content;
    for i := 0 to |sizes|
      invariant k == Asked(sizes[..i]) && got == content[..Min(k, |content|)]
      invariant if k <= |content| then Reading(s, content[k..], end, owed, errno0) else Over(s, end, owed, errno0)
    {
      assert sizes[..i + 1][..i] == sizes[..i];
      var n := sizes[i];
      if n < 0 {
        var c := GetCharAgain(s, if k <= |content| then content[k..] else [], k > |content|, end, owed, errno0);
        if c != R.EOF { got := got + [c]; }
      } else {
        var b := GetStrAgain(s, n, if k <= |content| then content[k..] else [], k > |content|, end, owed, errno0);
        got := got + b;
      }
      k := k + if n < 0 then 1 else n;
    }
    assert sizes[..|sizes|] == sizes;
  }

  method GetCharAgain(s: R.Stream, ghost rest: seq<byte>, ghost over: bool, ghost end: End, ghost owed: seq<byte>, ghost errno0: int)
      returns (c: int)
    requires if over then rest == [] && Over(s, end, owed, errno0) else Reading(s, rest, end, owed, errno0)
    modifies s, s.buff, s.request, s.request.socket
    ensures if rest == [] then c == R.EOF && Over(s, end, owed, errno0)
            else c == rest[0] && Reading(s, rest[1..], end, owed, errno0)
  {
    if s.isClosed { return R.EOF; }
    c := NextByte(s, rest, end, owed, errno0);
  }

  method GetStrAgain(s: R.Stream, n: nat, ghost rest: seq<byte>, ghost over: bool, ghost end: End, ghost owed: seq<byte>, ghost errno0: int)
      returns (b: seq<byte>)
    requires if over then rest == [] && Over(s, end, owed, errno0) else Reading(s, rest, end, owed, errno0)
    modifies s, s.buff, s.request, s.request.socket
    ensures if over || |rest| < n then b == rest && Over(s, end, owed, errno0)
            else b == rest[..n] && Reading(s, rest[n..], end, owed, errno0)
  {
    if s.isClosed { return []; }
    b := NextBytes(s, n, rest, end, owed, errno0);
  }

  /** An unmixed wire of records, delivered in any pieces to a reader with any buffer and read by any
      mix of calls: the client gets the contents of its own records and nothing else. */
  method ReadWire(rs: seq<Record>, stop: Record, tail: seq<byte>, id: int, rtype: int,
                  bufflen: int, misaligned: bool, sizes: seq<int>) returns (got: seq<byte>, s: R.Stream)
    requires AllValid(rs) && stop.Valid() && stop.content == []
    requires stop.id == id != NULL_REQUEST_ID && stop.rtype as int == rtype != BEGIN_REQUEST as int
    requires var ctx := Context(id, true, rtype, false); NoneStop(rs, ctx) && Unmixed(rs, false, ctx)
    ensures var own := Contents(Matching(rs, rtype, id));
      && got == own[..Min(Asked(sizes), |own|)]
      && s.isClosed == (Asked(sizes) > |own|) && s.errno == 0
      && (s.isClosed ==> s.Valid() && s.Unread() == stop.padding + tail)
  {
    hide Deliver, EncodeRecords, Unmixed;
    Deframed(rs, stop, tail, Context(id, true, rtype, false));
    OwnAreMatching(rs, Context(id, true, rtype, false));
    got, s := ReadBytes(EncodeRecords(rs + [stop]) + tail, id, rtype, bufflen, misaligned, sizes);
  }

  /** Any bytes on a connection, read by a fresh reader of a request that has begun. */
  method ReadBytes(bytes: seq<byte>, id: int, rtype: int, bufflen: int, misaligned: bool, sizes: seq<int>)
      returns (got: seq<byte>, s: R.Stream)
    ensures var d := Deliver(bytes, 0, 0, false, Context(id, true, rtype, false));
      && got == d.content[..Min(Asked(sizes), |d.content|)]
      && (if Asked(sizes) > |d.content| then Over(s, d.end, d.replies, 0)
          else Reading(s, d.content[Asked(sizes)..], d.end, d.replies, 0))
  {
    hide Deliver;
    var socket := new Socket(bytes);
    var request := new Request(socket, id, 0);
    request.isBeginProcessed := true;
    s := new R.Stream(request, bufflen, misaligned, rtype);
    ghost var d := s.Rest();
    StartReading(s);
    assert [] + d.replies == d.replies;
    got := ReadMix(s, sizes, d.content, d.end, socket.outgoing + d.replies, 0);
  }

  /******* Writing *******/

  /** One client call on a writer. */
  method Perform(w: W.Stream, op: Op)
    requires w.Valid()
    modifies w`wrNext, w`isAnythingWritten, w`rawWrite, w`stop, w`isClosed, w`wasFCloseCalled,
             w.buff, w.request`nWriters, w.request.socket`outgoing
    ensures w.Valid()
    ensures w.request.nWriters == old(w.request.nWriters) - (if op.CloseOut? && !old(w.isClosed) then 1 else 0)
    ensures var s := Apply(old(w.State()), w.request.requestId, w.request.appStatus, old(w.request.nWriters) == 1, op);
      && w.State() == s.out && AllValid(s.records)
      && w.request.socket.outgoing == old(w.request.socket.outgoing) + EncodeRecords(s.records)
  {
    hide Put, Close, Flush;
    assert EncodeRecords([]) == [];
    match op
    case PutBytes(bytes) => var n := w.PutStr(bytes);
    case FlushOut => var r := w.FFlush();
    case CloseOut => var r := w.FClose();
  }

  /** The connection of the two writers is in the state c, after base had been written to it. */
  ghost predicate Carries(out: W.Stream, err: W.Stream, c: Conn, base: seq<byte>)
    reads out, out.buff, err, err.buff, out.request, out.request.socket
  {
    && out.Valid() && err.Valid() && out.State() == c.out && err.State() == c.err
    && out.request.requestId == c.id && out.request.appStatus == c.appStatus && out.request.nWriters == c.nWriters
    && AllValid(c.wire) && out.request.socket.outgoing == base + EncodeRecords(c.wire)
  }

  /** Any interleaving of calls on the two writers of a request, changes of its exit status and replies. */
  method PerformAll(out: W.Stream, err: W.Stream, calls: seq<Call>, ghost c: Conn, ghost base: seq<byte>)
    requires out != err && out.buff != err.buff && out.request == err.request && Carries(out, err, c, base)
    requires forall call :: call in calls && call.Answer? ==> call.reply.Valid()
    modifies out, out.buff, err, err.buff, out.request`nWriters, out.request`appStatus, out.request.socket`outgoing
    ensures c.out.Valid() && c.err.Valid() && Carries(out, err, RunCalls(c, calls), base)
  {
    hide Apply, EncodeRecords;
    assert calls[..0] == [];
    for i := 0 to |calls|
      invariant Carries(out, err, RunCalls(c, calls[..i]), base)
    {
      assert calls[..i + 1][..i] == calls[..i];
      PerformOne(out, err, calls[i], RunCalls(c, calls[..i]), base);
    }
    assert calls[..|calls|] == calls;
  }

  method PerformOne(out: W.Stream, err: W.Stream, call: Call, ghost c: Conn, ghost base: seq<byte>)
    requires out != err && out.buff != err.buff && out.request == err.request && Carries(out, err, c, base)
    requires call.Answer? ==> call.reply.Valid()
    modifies out, out.buff, err, err.buff, out.request`nWriters, out.request`appStatus, out.request.socket`outgoing
    ensures c.out.Valid() && c.err.Valid() && Carries(out, err, ApplyCall(c, call), base)
  {
    hide Apply, EncodeRecords, EncodeRecord;
    match call
    case SetExitStatus(status) => out.request.appStatus := status;
    case Answer(reply) =>
      W.EncodeOne(reply);
      EncodeRecordsConcat(c.wire, [reply]);
      assert base + (EncodeRecords(c.wire) + EncodeRecord(reply)) == base + EncodeRecords(c.wire) + EncodeRecord(reply);
      out.request.socket.WriteAll(EncodeRecord(reply));
    case Call(onErr, op) =>
      ghost var o := if onErr then c.err else c.out;
      ghost var s := Apply(o, c.id, c.appStatus, c.nWriters == 1, op);
      Perform(if onErr then err else out, op);
      EncodeRecordsConcat(c.wire, s.records);
      assert base + (EncodeRecords(c.wire) + EncodeRecords(s.records)) == base + EncodeRecords(c.wire) + EncodeRecords(s.records);
  }

  /** FCGX_Finish_r on an accepted request: closes standard error, then standard output. The connection
      is kept if the client asked for it and its input was read without an error. */
  method Finish(out: W.Stream, err: W.Stream, input: R.Stream, ghost c: Conn, ghost base: seq<byte>) returns (close: bool)
    requires out != err && out.buff != err.buff && out.request == err.request == input.request && Carries(out, err, c, base)
    modifies out, out.buff, err, err.buff, out.request`nWriters, out.request`appStatus, out.request.socket`outgoing
    ensures out.isClosed && err.isClosed && c.out.Valid() && c.err.Valid()
    ensures Carries(out, err, RunCalls(c, [Call(true, CloseOut), Call(false, CloseOut)]), base)
    ensures !close <==> out.request.keepConnection && input.errno == 0
  {
    PerformAll(out, err, [Call(true, CloseOut), Call(false, CloseOut)], c, base);
    ghost var calls := [Call(true, CloseOut), Call(false, CloseOut)];
    assert calls[..1] == [Call(true, CloseOut)] && calls[..1][..0] == [];
    assert RunCalls(c, calls[..1]).err.closed;
    assert RunCalls(c, calls) == ApplyCall(RunCalls(c, calls[..1]), calls[1]);
    close := !out.request.keepConnection || input.errno != 0;
  }

  /** Calls on a writer of FCGX_CreateWriter, whose request never sends END_REQUEST. */
  method PerformAlone(w: W.Stream, ops: seq<Op>, ghost base: seq<byte>, ghost o: Out)
    requires w.Valid() && !w.isClosed && o == w.State() && w.request.nWriters == 2 && w.request.socket.outgoing == base
    requires w.request.appStatus == 0
    modifies w, w.buff, w.request`nWriters, w.request.socket
    ensures w.Valid()
    ensures var r := RunAlone(o, w.request.requestId, ops);
      w.State() == r.out && AllValid(r.records) && w.request.socket.outgoing == base + EncodeRecords(r.records)
  {
    hide Apply, EncodeRecords;
    ghost var id := w.request.requestId;
    assert ops[..0] == [] && base + [] == base;
    W.EncodeNone();
    for i := 0 to |ops|
      invariant w.Valid() && w.request.nWriters == (if w.isClosed then 1 else 2)
      invariant var r := RunAlone(o, id, ops[..i]);
        w.State() == r.out && AllValid(r.records) && w.request.socket.outgoing == base + EncodeRecords(r.records)
    {
      assert ops[..i + 1][..i] == ops[..i];
      ghost var r := RunAlone(o, id, ops[..i]);
      ClosedStep(r.out, id, ops[i]);
      ghost var s := Apply(r.out, id, 0, w.request.nWriters == 1, ops[i]);
      Perform(w, ops[i]);
      EncodeRecordsConcat(r.records, s.records);
      assert base + (EncodeRecords(r.records) + EncodeRecords(s.records)) == base + EncodeRecords(r.records) + EncodeRecords(s.records);
    }
    assert ops[..|ops|] == ops;
  }

  lemma ClosedStep(o: Out, id: int, op: Op)
    requires o.Valid()
    ensures o.closed ==> Apply(o, id, 0, true, op) == Apply(o, id, 0, false, op)
  {
  }

  /** FCGX_CreateWriter and any calls on the writer: the bytes on its connection. */
  method WriteStream(rtype: byte, id: int, ops: seq<Op>, bufflen: int, misaligned: bool)
      returns (bytes: seq<byte>, ghost o: Out)
    ensures o.Valid() && o == Out(rtype, o.cap, [], false, false)
    ensures var r := RunAlone(o, id, ops); AllValid(r.records) && bytes == EncodeRecords(r.records)
  {
    var socket := new Socket([]);
    var request := new Request(socket, id, 2);
    var w := new W.Stream(request, bufflen, misaligned, rtype);
    o := w.State();
    PerformAlone(w, ops, [], o);
    bytes := socket.outgoing;
    assert [] + bytes == bytes;
  }

  /** Write, close, read back: any calls on the writer, any buffers, any pieces, any mix of reads. The
      bytes always come back; only after a standard error nothing was put on is the end an error. */
  method WriteThenRead(rtype: byte, id: int, ops: seq<Op>, sizes: seq<int>, wlen: int, wmisaligned: bool, rlen: int, rmisaligned: bool)
      returns (got: seq<byte>, s: R.Stream)
    requires IsStreamType(rtype) && id % 0x1_0000 != 0 && CloseOut in ops
    ensures var put := BytesPut(ops);
      && got == put[..Min(Asked(sizes), |put|)] && s.isClosed == (Asked(sizes) > |put|)
      && s.errno == if s.isClosed && rtype == STDERR && put == [] then PROTOCOL_ERROR else 0
  {
    hide Deliver, EncodeRecords, RunAlone, BytesPut;
    ghost var o;
    var bytes;
    bytes, o := WriteStream(rtype, id, ops, wlen, wmisaligned);
    AloneTakes(o, id, ops);
    if SendsEof(rtype, BytesPut(ops)) {
      ClosedReadsBack(o, id, ops, []);
      assert bytes + [] == bytes;
    } else {
      SilentSendsNothing(o, id, ops);
      W.EncodeNone();
      Exhausted([], 0, 0, false, Facing(rtype, id));
    }
    got, s := ReadBytes(bytes, id % 0x1_0000, rtype as int, rlen, rmisaligned, sizes);
  }
}
