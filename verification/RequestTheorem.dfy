/** The two writers of one request, stdout and stderr, sharing a connection with the replies of its
    reader: what holds on the wire after every sequence of puts, flushes, closes, changes of the exit
    status and replies. */
module RequestTheorem {
  import opened Basics
  import opened Wire
  import opened Deframing
  import opened DeframingTheorem
  import opened Framing
  import opened FramingTheorem

  datatype Conn = Conn(id: int, appStatus: int, nWriters: int, out: Out, err: Out, wire: seq<Record>)

  /** A call on one of the writers, FCGX_SetExitStatus, or a reply sent while the input is read. */
  datatype Call = Call(onErr: bool, op: Op) | SetExitStatus(status: int) | Answer(reply: Record)

  function ApplyCall(c: Conn, call: Call): (d: Conn)
    requires c.out.Valid() && c.err.Valid()
    ensures d.out.Valid() && d.err.Valid() && d.id == c.id
  {
    match call
    case SetExitStatus(status) => c.(appStatus := status)
    case Answer(reply) => c.(wire := c.wire + [reply])
    case Call(onErr, op) =>
      var o := if onErr then c.err else c.out;
      var s := Apply(o, c.id, c.appStatus, c.nWriters == 1, op);
      var n := if op.CloseOut? && !o.closed then c.nWriters - 1 else c.nWriters;
      if onErr then c.(err := s.out, wire := c.wire + s.records, nWriters := n)
      else c.(out := s.out, wire := c.wire + s.records, nWriters := n)
  }

  /** The replies of a reader: to a management record, or to the begin record of another request. */
  function UnknownReply(rtype: byte): Record { Record(UNKNOWN_TYPE, NULL_REQUEST_ID, MakeUnknownTypeBody(rtype), []) }
  function RefusalReply(id: nat): Record { Record(END_REQUEST, id, MakeEndRequestBody(0, CANT_MPX_CONN), []) }

  predicate IsReply(r: Record, id: int) {
    && |r.content| == 8 && r.padding == [] && r.Valid()
    && ((r.rtype == UNKNOWN_TYPE && r.id == NULL_REQUEST_ID) || (r.rtype == END_REQUEST && r.id != id % 0x1_0000))
  }

  /** An END_REQUEST record for a request that the connection has no room for. */
  predicate Refuses(r: Record, id: nat) {
    && r.rtype == END_REQUEST && r.id == id && |r.content| == 8
    && ExitStatus(r.content) == 0 && r.content[4] == CANT_MPX_CONN && r.content[5..] == [0, 0, 0]
  }

  /** The bytes the reader sends are these records. */
  lemma RepliesAreRecords(rtype: byte, other: nat, id: int)
    requires other <= 0xffff && other != id % 0x1_0000
    ensures IsReply(UnknownReply(rtype), id) && UnknownType(rtype) == EncodeRecord(UnknownReply(rtype))
    ensures UnknownReply(rtype).content == [rtype] + Zeros(7)
    ensures IsReply(RefusalReply(other), id) && CantMultiplex(other) == EncodeRecord(RefusalReply(other))
    ensures Refuses(RefusalReply(other), other)
  {
    EndBodyIs(0, CANT_MPX_CONN);
  }

  /** The state after a request was accepted: two fresh writers and an empty wire. */
  predicate Fresh(c: Conn) {
    && c.nWriters == 2 && c.wire == [] && c.out.Valid() && c.err.Valid()
    && c.out == Out(STDOUT, c.out.cap, [], false, false)
    && c.err == Out(STDERR, c.err.cap, [], false, false)
  }

  function RunCalls(c: Conn, calls: seq<Call>): (d: Conn)
    requires c.out.Valid() && c.err.Valid()
    ensures d.out.Valid() && d.err.Valid() && d.id == c.id
  {
    if calls == [] then c else ApplyCall(RunCalls(c, calls[..|calls| - 1]), calls[|calls| - 1])
  }

  /** The bytes put on one of the streams before it was closed. */
  function PutOn(calls: seq<Call>, onErr: bool): seq<byte> {
    if calls == [] then []
    else
      var before, call := calls[..|calls| - 1], calls[|calls| - 1];
      PutOn(before, onErr)
      + (if call.Call? && call.onErr == onErr && call.op.PutBytes? && Call(onErr, CloseOut) !in before then call.op.bytes else [])
  }

  predicate BothClosed(calls: seq<Call>) {
    Call(false, CloseOut) in calls && Call(true, CloseOut) in calls
  }

  /** The exit status that counts: the one set last before the request ended. */
  function FinalStatus(initial: int, calls: seq<Call>): int {
    if calls == [] then initial
    else
      var before, call := calls[..|calls| - 1], calls[|calls| - 1];
      if call.SetExitStatus? && !BothClosed(before) then call.status else FinalStatus(initial, before)
  }

  /** The answer to a begin record that repeats the id of the request. */
  function OwnRefusal(id: int): Record { RefusalReply(id % 0x1_0000) }

  /** The answers among the calls are those a reader can give. */
  ghost predicate Proper(calls: seq<Call>, id: int) {
    forall call :: call in calls && call.Answer? ==> IsReply(call.reply, id) || call.reply == OwnRefusal(id)
  }

  function OfType(rs: seq<Record>, t: byte): (os: seq<Record>) {
    if rs == [] then [] else (if rs[0].rtype == t then [rs[0]] else []) + OfType(rs[1..], t)
  }

  /** A record as the library writes it: zero padding of at most 7 bytes, length a multiple of 8. */
  predicate Shaped(r: Record) {
    && r.Valid() && r.rtype in {STDOUT, STDERR, END_REQUEST, UNKNOWN_TYPE}
    && |r.padding| <= 7 && (|r.content| + |r.padding|) % 8 == 0 && r.padding == Zeros(|r.padding|)
  }

  /** END_REQUEST is sent once, with the status, when both writers are closed and not before; only
      replies follow it. */
  ghost predicate EndsOnce(c: Conn, status: int) {
    if c.out.closed && c.err.closed then
      exists w, end, replies :: Ended(c, status, w, end, replies)
    else c.appStatus == status && NoEnd(c.wire, c.id)
  }

  ghost predicate Ended(c: Conn, status: int, w: seq<Record>, end: Record, replies: seq<Record>) {
    && c.wire == w + [end] + replies && Completes(end, c.id, status) && NoEnd(w, c.id)
    && forall r :: r in replies ==> IsReply(r, c.id)
  }

  /** No record ends the request id. */
  predicate NoEnd(w: seq<Record>, id: int) {
    forall r :: r in w ==> r.rtype != END_REQUEST || r.id != id % 0x1_0000
  }

  /** Everything sent is well shaped, and each stream on its own is framed. */
  ghost predicate StreamsOk(c: Conn, putOut: seq<byte>, putErr: seq<byte>) {
    && c.out.Valid() && c.err.Valid() && c.out.rtype == STDOUT && c.err.rtype == STDERR
    && c.nWriters == (if c.out.closed then 0 else 1) + (if c.err.closed then 0 else 1)
    && (forall r :: r in c.wire ==> Shaped(r))
    && Framed(OfType(c.wire, STDOUT), c.out, c.id, putOut)
    && Framed(OfType(c.wire, STDERR), c.err, c.id, putErr)
  }

  lemma {:induction false} OfTypeConcat(a: seq<Record>, b: seq<Record>, t: byte)
    ensures OfType(a + b, t) == OfType(a, t) + OfType(b, t)
  {
    if a == [] {
      assert a + b == b;
    } else {
      OfTypeConcat(a[1..], b, t);
      assert (a + b)[0] == a[0] && (a + b)[1..] == a[1..] + b;
      var first := if a[0].rtype == t then [a[0]] else [];
      assert first + (OfType(a[1..], t) + OfType(b, t)) == first + OfType(a[1..], t) + OfType(b, t);
    }
  }

  lemma {:induction false} OfTypeUniform(rs: seq<Record>, u: byte, t: byte)
    requires forall r :: r in rs ==> r.rtype == u
    ensures OfType(rs, t) == if u == t then rs else []
  {
    if rs != [] { OfTypeUniform(rs[1..], u, t); }
  }

  /** The records a call sends before any END_REQUEST are of the writer's type and well shaped. */
  lemma StepShaped(o: Out, id: int, appStatus: int, op: Op)
    requires o.Valid() && o.rtype in {STDOUT, STDERR}
    ensures forall r :: r in Apply(o, id, appStatus, false, op).records ==> r.rtype == o.rtype && Shaped(r)
  {
    if !o.closed && op.PutBytes? { PutShaped(o, id, op.bytes); }
  }

  lemma {:induction false} PutShaped(o: Out, id: int, s: seq<byte>)
    requires o.Valid() && !o.closed && o.rtype in {STDOUT, STDERR}
    ensures forall r :: r in Put(o, id, s).records ==> r.rtype == o.rtype && Shaped(r)
    decreases |s|, |o.buffered|
  {
    if |o.buffered| + |s| > o.cap {
      PutShaped(o.(buffered := [], anything := true), id, s[o.cap - |o.buffered|..]);
    }
  }

  /** Being the last writer only adds END_REQUEST, and only to a close. */
  lemma LastStep(o: Out, id: int, appStatus: int, op: Op)
    requires o.Valid()
    ensures var s, t := Apply(o, id, appStatus, true, op), Apply(o, id, appStatus, false, op);
      s.out == t.out
      && s.records == t.records + (if op.CloseOut? && !o.closed then [EndRecord(id, appStatus)] else [])
  {
    assert forall rs: seq<Record> :: rs + [] == rs;
  }

  lemma WireStep(c: Conn, onErr: bool, op: Op)
    requires c.out.Valid() && c.err.Valid() && c.out.rtype == STDOUT && c.err.rtype == STDERR
    ensures
      var o := if onErr then c.err else c.out;
      var s := Apply(o, c.id, c.appStatus, false, op);
      var end := if c.nWriters == 1 && op.CloseOut? && !o.closed then [EndRecord(c.id, c.appStatus)] else [];
      var d := ApplyCall(c, Call(onErr, op));
      && d.wire == c.wire + s.records + end && (if onErr then d.err else d.out) == s.out
      && OfType(d.wire, o.rtype) == OfType(c.wire, o.rtype) + s.records
      && (forall t :: t in {STDOUT, STDERR} && t != o.rtype ==> OfType(d.wire, t) == OfType(c.wire, t))
  {
    var o := if onErr then c.err else c.out;
    var s := Apply(o, c.id, c.appStatus, false, op);
    var end := if c.nWriters == 1 && op.CloseOut? && !o.closed then [EndRecord(c.id, c.appStatus)] else [];
    hide OfType, Apply;
    LastStep(o, c.id, c.appStatus, op);
    var d := ApplyCall(c, Call(onErr, op));
    assert d.wire == c.wire + s.records + end;
    StepShaped(o, c.id, c.appStatus, op);
    forall t | t in {STDOUT, STDERR}
      ensures OfType(d.wire, t) == OfType(c.wire, t) + if t == o.rtype then s.records else []
    {
      OfTypeStep(c.wire, s.records, end, o.rtype, t);
    }
  }

  lemma OfTypeStep(wire: seq<Record>, recs: seq<Record>, end: seq<Record>, u: byte, t: byte)
    requires (forall r :: r in recs ==> r.rtype == u) && (forall r :: r in end ==> r.rtype == END_REQUEST) && t != END_REQUEST
    ensures OfType(wire + recs + end, t) == OfType(wire, t) + if t == u then recs else []
  {
    hide OfType;
    OfTypeConcat(wire + recs, end, t);
    OfTypeConcat(wire, recs, t);
    OfTypeUniform(recs, u, t);
    OfTypeUniform(end, END_REQUEST, t);
  }

  function StatusAfter(c: Conn, status: int, call: Call): int {
    if call.SetExitStatus? && !(c.out.closed && c.err.closed) then call.status else status
  }

  lemma CallKeepsOk(c: Conn, putOut: seq<byte>, putErr: seq<byte>, onErr: bool, op: Op)
    requires StreamsOk(c, putOut, putErr)
    ensures StreamsOk(ApplyCall(c, Call(onErr, op)),
                      putOut + (if onErr then [] else Taken(c.out, op)),
                      putErr + (if onErr then Taken(c.err, op) else []))
  {
    hide Framed, Shaped, Apply, OfType;
    var o := if onErr then c.err else c.out;
    WireStep(c, onErr, op);
    CallShaped(c, onErr, op);
    StepFrames(OfType(c.wire, o.rtype), o, c.id, c.appStatus, if onErr then putErr else putOut, op);
    assert putOut + [] == putOut && putErr + [] == putErr;
  }

  lemma CallShaped(c: Conn, onErr: bool, op: Op)
    requires c.out.Valid() && c.err.Valid() && c.out.rtype == STDOUT && c.err.rtype == STDERR
    requires forall r :: r in c.wire ==> Shaped(r)
    ensures forall r :: r in ApplyCall(c, Call(onErr, op)).wire ==> Shaped(r)
  {
    hide Apply, OfType;
    var o := if onErr then c.err else c.out;
    WireStep(c, onErr, op);
    StepShaped(o, c.id, c.appStatus, op);
    assert Shaped(EndRecord(c.id, c.appStatus));
  }

  lemma CallEndsOnce(c: Conn, status: int, onErr: bool, op: Op)
    requires c.out.Valid() && c.err.Valid() && c.out.rtype == STDOUT && c.err.rtype == STDERR && EndsOnce(c, status)
    requires c.nWriters == (if c.out.closed then 0 else 1) + (if c.err.closed then 0 else 1)
    ensures EndsOnce(ApplyCall(c, Call(onErr, op)), status)
  {
    hide Ended, OfType;
    var o := if onErr then c.err else c.out;
    var s := Apply(o, c.id, c.appStatus, false, op);
    var d := ApplyCall(c, Call(onErr, op));
    WireStep(c, onErr, op);
    StepShaped(o, c.id, c.appStatus, op);
    if o.closed {
      assert d == c;
    } else {
      assert NoEnd(c.wire + s.records, c.id);
      if d.out.closed && d.err.closed { JustEnded(d, status, c.wire + s.records); }
    }
  }

  lemma JustEnded(c: Conn, status: int, w: seq<Record>)
    requires c.wire == w + [EndRecord(c.id, status)] && NoEnd(w, c.id)
    ensures Ended(c, status, w, EndRecord(c.id, status), [])
  {
    assert w + [EndRecord(c.id, status)] + [] == c.wire;
  }

  lemma AnswerKeepsOk(c: Conn, putOut: seq<byte>, putErr: seq<byte>, reply: Record)
    requires StreamsOk(c, putOut, putErr) && (IsReply(reply, c.id) || reply == OwnRefusal(c.id))
    ensures StreamsOk(ApplyCall(c, Answer(reply)), putOut, putErr)
  {
    hide Framed;
    var d := ApplyCall(c, Answer(reply));
    forall t | t in {STDOUT, STDERR} ensures OfType(d.wire, t) == OfType(c.wire, t) {
      OfTypeConcat(c.wire, [reply], t);
      OfTypeUniform([reply], reply.rtype, t);
    }
  }

  lemma AnswerEndsOnce(c: Conn, status: int, reply: Record)
    requires EndsOnce(c, status) && IsReply(reply, c.id)
    ensures c.out.Valid() && c.err.Valid() ==> EndsOnce(ApplyCall(c, Answer(reply)), status)
  {
    if c.out.Valid() && c.err.Valid() && c.out.closed && c.err.closed {
      var w, end, replies :| Ended(c, status, w, end, replies);
      assert w + [end] + (replies + [reply]) == c.wire + [reply];
      assert Ended(ApplyCall(c, Answer(reply)), status, w, end, replies + [reply]);
    }
  }

  lemma StatusEndsOnce(c: Conn, status: int, s: int)
    requires EndsOnce(c, status) && c.out.Valid() && c.err.Valid()
    ensures EndsOnce(ApplyCall(c, SetExitStatus(s)), StatusAfter(c, status, SetExitStatus(s)))
  {
    if c.out.closed && c.err.closed {
      var w, end, replies :| Ended(c, status, w, end, replies);
      assert Ended(ApplyCall(c, SetExitStatus(s)), status, w, end, replies);
    }
  }

  /** One more call, of any kind: the streams stay framed, what was sent stays sent, and, unless the
      call answers a repeated begin record, the request still ends once. */
  lemma AnyCallKeeps(c: Conn, putOut: seq<byte>, putErr: seq<byte>, status: int, call: Call)
    requires StreamsOk(c, putOut, putErr)
    requires call.Answer? ==> IsReply(call.reply, c.id) || call.reply == OwnRefusal(c.id)
    ensures var d := ApplyCall(c, call);
      && StreamsOk(d, putOut + (if call.Call? && !call.onErr then Taken(c.out, call.op) else []),
                      putErr + (if call.Call? && call.onErr then Taken(c.err, call.op) else []))
      && c.wire <= d.wire
      && (EndsOnce(c, status) && call != Answer(OwnRefusal(c.id)) ==> EndsOnce(d, StatusAfter(c, status, call)))
  {
    hide Framed, EndsOnce, Shaped, Apply, OfType;
    assert putOut + [] == putOut && putErr + [] == putErr;
    match call
    case Call(onErr, op) =>
      CallKeepsOk(c, putOut, putErr, onErr, op);
      WireStep(c, onErr, op);
      if EndsOnce(c, status) { CallEndsOnce(c, status, onErr, op); }
    case SetExitStatus(s) =>
      if EndsOnce(c, status) { StatusEndsOnce(c, status, s); }
    case Answer(reply) =>
      AnswerKeepsOk(c, putOut, putErr, reply);
      if EndsOnce(c, status) && reply != OwnRefusal(c.id) { AnswerEndsOnce(c, status, reply); }
  }

  /** A refusal of the request itself is an END_REQUEST too many. */
  lemma RefusedIsNotOnce(c: Conn, status: int)
    requires OwnRefusal(c.id) in c.wire
    ensures !EndsOnce(c, status)
  {
    EndBodyIs(0, CANT_MPX_CONN);
  }

  /** Every interleaving of calls on the two writers, changes of the exit status and replies. The request
      ends once if and only if its reader never answers a begin record that repeats its id. */
  lemma {:induction false} EveryRun(c: Conn, calls: seq<Call>)
    requires Fresh(c) && Proper(calls, c.id)
    ensures StreamsOk(RunCalls(c, calls), PutOn(calls, false), PutOn(calls, true))
    ensures RunCalls(c, calls).out.closed <==> Call(false, CloseOut) in calls
    ensures RunCalls(c, calls).err.closed <==> Call(true, CloseOut) in calls
    ensures EndsOnce(RunCalls(c, calls), FinalStatus(c.appStatus, calls)) <==> Answer(OwnRefusal(c.id)) !in calls
    ensures Answer(OwnRefusal(c.id)) in calls ==> OwnRefusal(c.id) in RunCalls(c, calls).wire
  {
    hide StreamsOk, EndsOnce, Apply, OwnRefusal;
    if calls == [] {
      FreshOk(c);
    } else {
      var before, call := calls[..|calls| - 1], calls[|calls| - 1];
      assert calls == before + [call];
      EveryRun(c, before);
      var b, status := RunCalls(c, before), FinalStatus(c.appStatus, before);
      var putOut, putErr := PutOn(before, false), PutOn(before, true);
      AnyCallKeeps(b, putOut, putErr, status, call);
      if Answer(OwnRefusal(c.id)) in calls {
        RefusedIsNotOnce(RunCalls(c, calls), FinalStatus(c.appStatus, calls));
      }
    }
  }

  lemma FreshOk(c: Conn)
    requires Fresh(c)
    ensures StreamsOk(c, [], []) && EndsOnce(c, c.appStatus)
  {
  }

  /** The reader does answer so: a begin record with the id of the running request is refused with an
      END_REQUEST record for that id. */
  lemma SecondBeginIsRefused(ctx: Context, body: seq<byte>, padding: seq<byte>, tail: seq<byte>, skip: bool)
    requires ctx.begun && !ctx.eorStop && 0 < ctx.id <= 0xffff && |body| == 8 && |padding| <= 0xff
    ensures var again := Record(BEGIN_REQUEST, ctx.id, body, padding);
      && again.Valid()
      && EncodeRecord(OwnRefusal(ctx.id)) <= Deliver(EncodeRecord(again) + tail, 0, 0, skip, ctx).replies
  {
    var again := Record(BEGIN_REQUEST, ctx.id, body, padding);
    assert CantMultiplex(ctx.id) == EncodeRecord(OwnRefusal(ctx.id));
    hide EncodeRecord, Deliver;
    RecordStep(again, tail, skip, ctx);
  }

  /** At every return from a call the wire is a whole number of 8-byte units. */
  lemma {:induction false} WireAligned(rs: seq<Record>)
    requires forall r :: r in rs ==> Shaped(r)
    ensures AllValid(rs) && |EncodeRecords(rs)| % 8 == 0
  {
    hide EncodeRecord;
    forall i | 0 <= i < |rs| ensures rs[i].Valid() { assert rs[i] in rs; }
    if rs != [] {
      WireAligned(rs[1..]);
      assert rs[0] in rs && Shaped(rs[0]);
      assert |EncodeRecord(rs[0])| % 8 == 0;
    }
  }

  /** FCGX_Finish_r closes stderr, then stdout; whatever came before, the request is then complete, with
      the exit status set last before its end, if and only if its id was not refused. */
  lemma Finished(c: Conn, calls: seq<Call>)
    requires Fresh(c) && Proper(calls, c.id)
    ensures
      var all := calls + [Call(true, CloseOut), Call(false, CloseOut)];
      var d := RunCalls(c, all);
      && d.nWriters == 0 && d.out.closed && d.err.closed
      && ((exists w, end, replies :: Ended(d, FinalStatus(c.appStatus, all), w, end, replies))
          <==> Answer(OwnRefusal(c.id)) !in calls)
  {
    EveryRun(c, calls + [Call(true, CloseOut), Call(false, CloseOut)]);
  }
}
