/** Putting the halves together: what is written through one writer is what a reader of the same
    request id and record type delivers. */
module RoundTrip {
  import opened Basics
  import opened Wire
  import opened Deframing
  import opened DeframingTheorem
  import opened Framing
  import opened FramingTheorem

  /** The reader that faces a writer of type rtype for request id. */
  function Facing(rtype: byte, id: int): Context {
    Context(id % 0x1_0000, true, rtype as int, false)
  }

  /** The types of stream records. */
  predicate IsStreamType(t: byte) {
    t in {PARAMS, STDIN, STDOUT, STDERR, DATA}
  }

  lemma DataHasContent(data: seq<Record>, rtype: byte, id: int)
    requires AllData(data, rtype, id)
    ensures data != [] ==> Contents(data) != []
  {
    if data != [] { assert IsData(data[0], rtype, id); }
  }

  lemma OneIsOwn(r: Record, rtype: byte, id: int)
    requires IsStreamType(rtype) && id % 0x1_0000 != 0 && IsData(r, rtype, id)
    ensures r.Valid() && r.content != []
    ensures var ctx := Facing(rtype, id); Own(r, ctx) && !Stops(r, ctx) && !OfOthers(r, ctx) && !Manages(r)
  {
  }

  lemma {:induction false} DataIsOwn(data: seq<Record>, rtype: byte, id: int)
    requires IsStreamType(rtype) && id % 0x1_0000 != 0 && AllData(data, rtype, id)
    ensures var ctx := Facing(rtype, id);
      AllValid(data) && NoneStop(data, ctx) && OwnRecords(data, ctx) == data && Clean(data, false, ctx)
    ensures Unmixed(data, false, Facing(rtype, id))
  {
    hide IsData, Own, Stops, OfOthers, Manages, Unmixed;
    CleanIff(data, false, Facing(rtype, id));
    if data != [] {
      OneIsOwn(data[0], rtype, id);
      DataIsOwn(data[1..], rtype, id);
      assert data == [data[0]] + data[1..];
    }
  }

  /** Reading back what a closed writer sent: the same bytes, then the end of the stream, and the
      wire left at the byte behind it. */
  lemma ClosedReadsBack(o: Out, id: int, ops: seq<Op>, tail: seq<byte>)
    requires o.Valid() && o.buffered == [] && !o.anything && !o.closed
    requires IsStreamType(o.rtype) && id % 0x1_0000 != 0
    requires RunAlone(o, id, ops).out.closed && SendsEof(o.rtype, RunAlone(o, id, ops).put)
    ensures var r := RunAlone(o, id, ops);
      AllValid(r.records)
      && Deliver(EncodeRecords(r.records) + tail, 0, 0, false, Facing(o.rtype, id)) == Delivery(r.put, [], Eof(tail, 0))
  {
    hide EncodeRecords, Deliver, Unmixed;
    var r := RunAlone(o, id, ops);
    AloneFramed(o, id, ops);
    var eof := EofRecord(o.rtype, id);
    var data: seq<Record> :| AllData(data, o.rtype, id) && Contents(data) == r.put && r.records == data + [eof];
    DataIsOwn(data, o.rtype, id);
    Deframed(data, eof, tail, Facing(o.rtype, id));
    NoReplies(data, o.rtype, id);
    assert [] + tail == tail;
  }

  lemma {:induction false} NoReplies(data: seq<Record>, rtype: byte, id: int)
    requires IsStreamType(rtype) && id % 0x1_0000 != 0 && AllData(data, rtype, id)
    ensures Replies(data, Facing(rtype, id)) == []
  {
    if data != [] {
      OneIsOwn(data[0], rtype, id);
      NoReplies(data[1..], rtype, id);
    }
  }

  /** The one stream that does not read back is a standard error stream nothing was put on: it is
      closed without an end-of-stream record, and its reader fails instead of seeing the end. */
  lemma ReadsBackIffEofSent(o: Out, id: int, ops: seq<Op>)
    requires o.Valid() && o.buffered == [] && !o.anything && !o.closed
    requires IsStreamType(o.rtype) && id % 0x1_0000 != 0 && RunAlone(o, id, ops).out.closed
    ensures var r := RunAlone(o, id, ops);
      AllValid(r.records)
      && (Deliver(EncodeRecords(r.records), 0, 0, false, Facing(o.rtype, id)) == Delivery(r.put, [], Eof([], 0))
          <==> o.rtype != STDERR || r.put != [])
  {
    var r := RunAlone(o, id, ops);
    if SendsEof(o.rtype, r.put) {
      ClosedReadsBack(o, id, ops, []);
      assert EncodeRecords(r.records) + [] == EncodeRecords(r.records);
    } else {
      SilentSendsNothing(o, id, ops);
    }
  }

  lemma SilentSendsNothing(o: Out, id: int, ops: seq<Op>)
    requires o.Valid() && o.buffered == [] && !o.anything && !o.closed
    requires RunAlone(o, id, ops).out.closed && !SendsEof(o.rtype, RunAlone(o, id, ops).put)
    ensures RunAlone(o, id, ops).records == []
  {
    var r := RunAlone(o, id, ops);
    AloneFramed(o, id, ops);
    var data: seq<Record> :| AllData(data, o.rtype, id) && Contents(data) == r.put && r.records == data + [];
    DataHasContent(data, o.rtype, id);
  }
}
