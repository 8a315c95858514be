/** What every run of the writers of a request keeps: the records on the wire carry exactly the
    bytes that were put, and the closing records come once and last. */
module FramingTheorem {
  import opened Basics
  import opened Wire
  import opened Framing

  /** A client's call on one writer. FCGX_PutChar is a put of one byte. */
  datatype Op = PutBytes(bytes: seq<byte>) | FlushOut | CloseOut

  function Apply(o: Out, id: int, appStatus: int, last: bool, op: Op): (s: Step)
    requires o.Valid()
    ensures s.out.Valid() && s.out.rtype == o.rtype && s.out.cap == o.cap
    ensures s.out.closed == (o.closed || op.CloseOut?)
  {
    if o.closed then Step(o, [])
    else match op
      case PutBytes(s) => PutKeeps(o, id, s); Put(o, id, s)
      case FlushOut => Flush(o, id)
      case CloseOut => Close(o, id, appStatus, last)
  }

  lemma {:induction false} PutKeeps(o: Out, id: int, s: seq<byte>)
    requires o.Valid() && !o.closed
    ensures Put(o, id, s).out.rtype == o.rtype && Put(o, id, s).out.cap == o.cap
    decreases |s|, |o.buffered|
  {
    if |o.buffered| + |s| > o.cap {
      PutKeeps(o.(buffered := [], anything := true), id, s[o.cap - |o.buffered|..]);
    }
  }

  /** The bytes the call hands over for good. */
  function Taken(o: Out, op: Op): seq<byte> {
    if op.PutBytes? && !o.closed then op.bytes else []
  }

  /** A record of content as a writer frames it: 1 to 65528 bytes, zero padding to a multiple of 8. */
  predicate IsData(r: Record, rtype: byte, id: int) {
    && 1 <= |r.content| <= 65528 && r.rtype == rtype && r.id == id % 0x1_0000
    && |r.padding| <= 7 && (|r.content| + |r.padding|) % 8 == 0 && r.padding == Zeros(|r.padding|)
  }

  predicate AllData(rs: seq<Record>, rtype: byte, id: int) {
    forall i :: 0 <= i < |rs| ==> IsData(rs[i], rtype, id)
  }

  /** Whether closing the stream on which put was written sends an end-of-stream record. */
  predicate SendsEof(rtype: byte, put: seq<byte>) {
    rtype != STDERR || put != []
  }

  /** The records rs that a writer in state o has sent, when put are all the bytes it has taken. */
  ghost predicate Framed(rs: seq<Record>, o: Out, id: int, put: seq<byte>) {
    if !o.closed then
      AllData(rs, o.rtype, id) && Contents(rs) + o.buffered == put && o.anything == (rs != [])
    else
      exists data :: AllData(data, o.rtype, id) && Contents(data) == put
                     && rs == data + (if SendsEof(o.rtype, put) then [EofRecord(o.rtype, id)] else [])
  }

  /** A full buffer goes out as one record. */
  lemma RecordFrames(rs: seq<Record>, o: Out, id: int, put: seq<byte>, s: seq<byte>)
    requires o.Valid() && !o.closed && Framed(rs, o, id, put) && |o.buffered| + |s| == o.cap
    ensures Framed(rs + [DataRecord(o.rtype, id, o.buffered + s)], o.(buffered := [], anything := true), id, put + s)
  {
    var r := DataRecord(o.rtype, id, o.buffered + s);
    ContentsConcat(rs, [r]);
    assert Contents([r]) == r.content;
    assert Contents(rs) + (o.buffered + s) == Contents(rs) + o.buffered + s;
    assert Contents(rs + [r]) + [] == put + s;
  }

  lemma BufferFrames(rs: seq<Record>, o: Out, id: int, put: seq<byte>, s: seq<byte>)
    requires !o.closed && Framed(rs, o, id, put)
    ensures Framed(rs, o.(buffered := o.buffered + s), id, put + s)
  {
    assert Contents(rs) + (o.buffered + s) == Contents(rs) + o.buffered + s;
  }

  lemma {:induction false} PutFrames(rs: seq<Record>, o: Out, id: int, put: seq<byte>, s: seq<byte>)
    requires o.Valid() && !o.closed && Framed(rs, o, id, put)
    ensures var p := Put(o, id, s); Framed(rs + p.records, p.out, id, put + s)
    decreases |s|, |o.buffered|
  {
    hide Framed, DataRecord, Contents;
    if |o.buffered| + |s| <= o.cap {
      BufferFrames(rs, o, id, put, s);
      assert rs + [] == rs;
    } else {
      var k := o.cap - |o.buffered|;
      var r := DataRecord(o.rtype, id, o.buffered + s[..k]);
      var o1 := o.(buffered := [], anything := true);
      RecordFrames(rs, o, id, put, s[..k]);
      PutFrames(rs + [r], o1, id, put + s[..k], s[k..]);
      assert put + s[..k] + s[k..] == put + s;
      assert rs + ([r] + Put(o1, id, s[k..]).records) == rs + [r] + Put(o1, id, s[k..]).records;
    }
  }

  lemma FlushFrames(rs: seq<Record>, o: Out, id: int, put: seq<byte>)
    requires o.Valid() && !o.closed && Framed(rs, o, id, put)
    ensures var p := Flush(o, id); Framed(rs + p.records, p.out, id, put)
  {
    var p := Flush(o, id);
    if o.buffered == [] {
      assert rs + [] == rs;
    } else {
      ContentsConcat(rs, p.records);
      assert Contents(p.records) == o.buffered;
      assert Contents(rs + p.records) + [] == put;
    }
  }

  lemma CloseFrames(rs: seq<Record>, o: Out, id: int, appStatus: int, put: seq<byte>)
    requires o.Valid() && !o.closed && Framed(rs, o, id, put)
    ensures var p := Close(o, id, appStatus, false); Framed(rs + p.records, p.out, id, put)
  {
    var f := Flush(o, id);
    FlushFrames(rs, o, id, put);
    var data := rs + f.records;
    assert Contents(data) + [] == Contents(data);
    assert f.out.anything <==> put != [] by {
      if data != [] { assert Contents(data) == data[0].content + Contents(data[1..]); }
    }
    var p := Close(o, id, appStatus, false);
    var eof := if SendsEof(o.rtype, put) then [EofRecord(o.rtype, id)] else [];
    assert rs + p.records == data + eof;
  }

  /** Whatever the call, the records sent so far stay framed; no flush or put sends an empty record. */
  lemma StepFrames(rs: seq<Record>, o: Out, id: int, appStatus: int, put: seq<byte>, op: Op)
    requires o.Valid() && Framed(rs, o, id, put)
    ensures var p := Apply(o, id, appStatus, false, op); Framed(rs + p.records, p.out, id, put + Taken(o, op))
  {
    if o.closed {
      assert rs + [] == rs;
      assert put + [] == put;
    } else {
      match op
      case PutBytes(s) => PutFrames(rs, o, id, put, s);
      case FlushOut => FlushFrames(rs, o, id, put); assert put + [] == put;
      case CloseOut => CloseFrames(rs, o, id, appStatus, put); assert put + [] == put;
    }
  }

  /******* One writer of its own (FCGX_CreateWriter) *******/

  datatype Run = Run(out: Out, records: seq<Record>, put: seq<byte>)

  function RunAlone(o: Out, id: int, ops: seq<Op>): (r: Run)
    requires o.Valid()
    ensures r.out.Valid() && r.out.rtype == o.rtype
  {
    if ops == [] then Run(o, [], [])
    else
      var r := RunAlone(o, id, ops[..|ops| - 1]);
      var op := ops[|ops| - 1];
      var s := Apply(r.out, id, 0, false, op);
      Run(s.out, r.records + s.records, r.put + Taken(r.out, op))
  }

  lemma {:induction false} AloneFramed(o: Out, id: int, ops: seq<Op>)
    requires o.Valid() && o.buffered == [] && !o.anything && !o.closed
    ensures var r := RunAlone(o, id, ops); Framed(r.records, r.out, id, r.put)
  {
    if ops != [] {
      var r := RunAlone(o, id, ops[..|ops| - 1]);
      AloneFramed(o, id, ops[..|ops| - 1]);
      StepFrames(r.records, r.out, id, 0, r.put, ops[|ops| - 1]);
    }
  }

  /** The bytes put before the first close. */
  function BytesPut(ops: seq<Op>): seq<byte> {
    if ops == [] then []
    else
      var before, op := ops[..|ops| - 1], ops[|ops| - 1];
      BytesPut(before) + (if op.PutBytes? && CloseOut !in before then op.bytes else [])
  }

  lemma {:induction false} AloneTakes(o: Out, id: int, ops: seq<Op>)
    requires o.Valid() && !o.closed
    ensures RunAlone(o, id, ops).put == BytesPut(ops)
    ensures RunAlone(o, id, ops).out.closed <==> CloseOut in ops
  {
    if ops != [] {
      var before, op := ops[..|ops| - 1], ops[|ops| - 1];
      assert ops == before + [op];
      AloneTakes(o, id, before);
    }
  }
}
