/** What the FastCGI writers of a request put on the wire: the specification of the writing half
    of FCGX_Stream as functions from the state of a writer to the records it emits. */
module Framing {
  import opened Basics
  import opened Wire

  /** A writer: its record type, the room for content in its buffer, the content that is buffered,
      whether it has written anything, and whether it was closed. */
  datatype Out = Out(rtype: byte, cap: nat, buffered: seq<byte>, anything: bool, closed: bool) {
    predicate Valid() {
      && 16 <= cap <= 0x10000 - 8 && cap % 8 == 0
      && |buffered| <= cap && (closed ==> buffered == [] && !anything)
    }
  }

  /** The writer after a call, and the records that the call emitted. */
  datatype Step = Step(out: Out, records: seq<Record>)

  function Pad(n: nat): (p: nat)
    ensures p <= 7 && (n + p) % 8 == 0
  {
    AlignInt8(n) - n
  }

  function DataRecord(rtype: byte, id: int, content: seq<byte>): (r: Record) {
    Record(rtype, id % 0x1_0000, content, Zeros(Pad(|content|)))
  }

  function Emit(records: seq<Record>, s: Step): Step {
    s.(records := records + s.records)
  }

  /** FCGX_PutStr on an open writer. */
  function Put(o: Out, id: int, s: seq<byte>): (p: Step)
    requires o.Valid() && !o.closed
    ensures p.out.Valid() && !p.out.closed
    decreases |s|, |o.buffered|
  {
    if |o.buffered| + |s| <= o.cap then Step(o.(buffered := o.buffered + s), [])
    else
      var k := o.cap - |o.buffered|;
      Emit([DataRecord(o.rtype, id, o.buffered + s[..k])],
           Put(o.(buffered := [], anything := true), id, s[k..]))
  }

  /** FCGX_FFlush on an open writer. */
  function Flush(o: Out, id: int): (p: Step)
    requires o.Valid() && !o.closed
    ensures p.out.Valid() && !p.out.closed && p.out.buffered == []
    ensures |p.records| <= 1 && Contents(p.records) == o.buffered
  {
    if o.buffered == [] then Step(o, [])
    else Step(o.(buffered := [], anything := true), [DataRecord(o.rtype, id, o.buffered)])
  }

  function EofRecord(rtype: byte, id: int): Record {
    Record(rtype, id % 0x1_0000, [], [])
  }

  /** An END_REQUEST record for the request, complete with this exit status. */
  predicate Completes(r: Record, id: int, status: int) {
    && r.rtype == END_REQUEST && r.id == id % 0x1_0000 && r.padding == [] && |r.content| == 8
    && ExitStatus(r.content) == CInt(status) && r.content[4] == REQUEST_COMPLETE && r.content[5..] == [0, 0, 0]
  }

  function EndRecord(id: int, appStatus: int): (r: Record)
    ensures Completes(r, id, appStatus)
  {
    EndBodyIs(appStatus, REQUEST_COMPLETE);
    Record(END_REQUEST, id % 0x1_0000, MakeEndRequestBody(appStatus, REQUEST_COMPLETE), [])
  }

  /** FCGX_FClose on an open writer; last says that no other writer of the request is open. */
  function Close(o: Out, id: int, appStatus: int, last: bool): (p: Step)
    requires o.Valid() && !o.closed
    ensures p.out.Valid() && p.out.closed
    ensures last ==> p.records != [] && Completes(p.records[|p.records| - 1], id, appStatus)
  {
    var f := Flush(o, id);
    Step(f.out.(closed := true, anything := false),
         f.records
         + (if o.rtype == STDERR && !f.out.anything then [] else [EofRecord(o.rtype, id)])
         + (if last then [EndRecord(id, appStatus)] else []))
  }

  /** Bytes that still fit may be put first. */
  lemma PutBite(o: Out, id: int, s: seq<byte>, k: nat)
    requires o.Valid() && !o.closed && k <= |s| && |o.buffered| + k <= o.cap
    ensures Put(o, id, s) == Put(o.(buffered := o.buffered + s[..k]), id, s[k..])
  {
    var b := o.buffered + s[..k];
    if |o.buffered| + |s| <= o.cap {
      assert b + s[k..] == o.buffered + s;
    } else {
      var m := o.cap - |o.buffered|;
      assert b + s[k..][..m - k] == o.buffered + s[..m];
      assert s[k..][m - k..] == s[m..];
    }
  }

  /** A full buffer is flushed before more is put. */
  lemma PutFull(o: Out, id: int, s: seq<byte>)
    requires o.Valid() && !o.closed && |o.buffered| == o.cap && s != []
    ensures Put(o, id, s) == Emit(Flush(o, id).records, Put(Flush(o, id).out, id, s))
  {
    assert o.buffered + s[..0] == o.buffered && s[0..] == s;
  }

  /** A put sends full records only, and none while everything fits; of the bytes put it keeps some. */
  lemma {:induction false} PutFills(o: Out, id: int, s: seq<byte>)
    requires o.Valid() && !o.closed
    ensures var p := Put(o, id, s);
      && (forall r :: r in p.records ==> |r.content| == o.cap)
      && (p.records == [] <==> |o.buffered| + |s| <= o.cap)
      && (s != [] ==> p.out.buffered != [])
    decreases |s|, |o.buffered|
  {
    if |o.buffered| + |s| > o.cap {
      PutFills(o.(buffered := [], anything := true), id, s[o.cap - |o.buffered|..]);
    }
  }

  lemma PutNothing(o: Out, id: int)
    requires o.Valid() && !o.closed
    ensures Put(o, id, []) == Step(o, [])
  {
    assert o.buffered + [] == o.buffered;
  }

  lemma EmitTwice(a: seq<Record>, b: seq<Record>, s: Step)
    ensures Emit(a, Emit(b, s)) == Emit(a + b, s)
  {
    assert a + (b + s.records) == a + b + s.records;
  }
}
