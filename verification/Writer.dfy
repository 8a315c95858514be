/** The writing half of FCGX_Stream (fcgi/libfcgi/fcgiapp.c): a buffer whose first eight bytes are
    reserved for the header of the record being filled. */
module Writer {
  import opened Basics
  import opened Wire
  import opened Framing
  import opened Transport

  const EOF := -1

  class Stream {
    const buff: array<byte>
    const request: Request
    const wtype: byte
    var wrNext: nat    // first free byte
    var stop: nat      // end of the free bytes
    var isClosed: bool
    var wasFCloseCalled: bool
    var isAnythingWritten: bool
    var rawWrite: bool // bytes are written as they are, not as the content of a record

    /** NewStream for a writer; misaligned says that Malloc's block had to be aligned to 8. */
    constructor (request: Request, bufflen: int, misaligned: bool, wtype: byte)
      ensures Valid() && fresh(buff) && this.request == request && this.wtype == wtype
      ensures State() == Out(wtype, buff.Length - 8, [], false, false)
      ensures var n := Min(Max(bufflen, 32), 0x1_0000); n <= buff.Length + (if misaligned then 8 else 0) < n + 8
    {
      var len := AlignInt8(Min(if bufflen < 32 then 32 else bufflen, MAX_LENGTH + 1));
      var size := if misaligned then len - 8 else len;
      buff := new byte[size];
      this.request, this.wtype := request, wtype;
      wrNext, stop := HEADER_LEN, size;
      isClosed, wasFCloseCalled, isAnythingWritten, rawWrite := false, false, false, false;
    }

    ghost predicate Shape()
      reads this
    {
      24 <= buff.Length <= 0x10000 && buff.Length % 8 == 0
    }

    ghost predicate Valid()
      reads this
    {
      && Shape()
      && wasFCloseCalled == isClosed == rawWrite
      && if isClosed then wrNext == stop == 0 else HEADER_LEN <= wrNext <= stop == buff.Length
    }

    ghost function State(): (o: Out)
      requires Valid()
      reads this, buff
      ensures o.Valid() && o.closed == isClosed
    {
      Out(wtype, buff.Length - 8, if isClosed then [] else buff[HEADER_LEN..wrNext],
          isAnythingWritten && !isClosed, isClosed)
    }

    /** While the closing records are written: all bytes sent or still in the buffer. */
    ghost function Raw(): seq<byte>
      requires wrNext <= buff.Length
      reads this, buff, request, request.socket
    {
      request.socket.outgoing + buff[..wrNext]
    }

    ghost predicate RawMode()
      reads this
    {
      Shape() && rawWrite && !isClosed && wrNext <= stop == buff.Length
    }

    /** Completes the record in the buffer: padding to a multiple of 8, and the header. */
    method FrameRecord()
      requires Valid() && !isClosed && wrNext > HEADER_LEN
      modifies this`wrNext, buff
      ensures wrNext <= buff.Length
      ensures var r := DataRecord(wtype, request.requestId, old(State()).buffered); r.Valid() && buff[..wrNext] == EncodeRecord(r)
    {
      var content := buff[HEADER_LEN..wrNext];
      var cLen := wrNext - HEADER_LEN;
      var eLen := AlignInt8(cLen);
      forall i | wrNext <= i < wrNext + (eLen - cLen) { buff[i] := 0; }
      wrNext := wrNext + (eLen - cLen);
      var header := MakeHeader(wtype, request.requestId, cLen, eLen - cLen);
      forall i | 0 <= i < HEADER_LEN { buff[i] := header[i]; }
      HeaderIdWraps(wtype, request.requestId, cLen, eLen - cLen);
      assert buff[..wrNext] == header + content + Zeros(eLen - cLen);
    }

    /** Sends what is in the buffer, as a record unless in raw mode. */
    method EmptyBuffProc(doClose: bool)
      requires if rawWrite then RawMode() && !doClose else Valid()
      modifies this`wrNext, this`isAnythingWritten, this`rawWrite, buff, request`nWriters, request.socket`outgoing
      ensures old(rawWrite) ==>
        RawMode() && wrNext == 0 && Raw() == old(Raw()) && request.nWriters == old(request.nWriters)
      ensures !old(rawWrite) && !doClose ==> Valid() && request.nWriters == old(request.nWriters)
      ensures !old(rawWrite) && !doClose ==>
        var f := Flush(old(State()), request.requestId);
        State() == f.out && AllValid(f.records)
        && request.socket.outgoing == old(request.socket.outgoing) + EncodeRecords(f.records)
      ensures doClose ==> RawMode() && wrNext == 0 && request.nWriters == old(request.nWriters) - 1
      ensures doClose ==>
        var c := Close(old(State()), request.requestId, request.appStatus, old(request.nWriters) == 1);
        AllValid(c.records)
        && request.socket.outgoing == old(request.socket.outgoing) + EncodeRecords(c.records)
      decreases if doClose then 2 else 0, 0
    {
      hide EncodeRecord, EncodeRecords, Close;
      ghost var o, out := if rawWrite then Out(wtype, 16, [], false, false) else State(), request.socket.outgoing;
      if !rawWrite {
        StartRecord();
      }
      if doClose {
        WriteCloseRecords(o, out);
      }
      SendBuffer();
      if !rawWrite {
        wrNext := wrNext + HEADER_LEN;
      }
    }

    method SendBuffer()
      requires wrNext <= buff.Length
      modifies this`wrNext, this`isAnythingWritten, request.socket`outgoing
      ensures wrNext == 0 && request.socket.outgoing == old(Raw()) && Raw() == old(Raw())
      ensures isAnythingWritten == (old(isAnythingWritten) || old(wrNext) != 0)
    {
      if wrNext != 0 {
        isAnythingWritten := true;
        request.socket.WriteAll(buff[..wrNext]);
        wrNext := 0;
      }
    }

    /** The first half of EmptyBuffProc: a record with a header, or nothing. */
    method StartRecord()
      requires Valid() && !isClosed
      modifies this`wrNext, buff
      ensures wrNext <= buff.Length && (wrNext == 0 <==> old(State()).buffered == [])
      ensures var f := Flush(old(State()), request.requestId); AllValid(f.records) && buff[..wrNext] == EncodeRecords(f.records)
    {
      hide EncodeRecord, EncodeRecords;
      EncodeNone();
      if wrNext > HEADER_LEN {
        EncodeOne(DataRecord(wtype, request.requestId, State().buffered));
        FrameRecord();
      } else {
        wrNext := 0;
      }
    }

    /** Adds the closing records to the record of o's content, if any, that is in the buffer. */
    method WriteCloseRecords(ghost o: Out, ghost out: seq<byte>)
      requires Shape() && !rawWrite && !isClosed && wrNext <= stop == buff.Length
      requires o.Valid() && !o.closed && o.rtype == wtype && o.anything == isAnythingWritten
      requires wrNext == 0 <==> o.buffered == []
      requires var f := Flush(o, request.requestId).records; AllValid(f) && Raw() == out + EncodeRecords(f)
      modifies this`wrNext, this`isAnythingWritten, this`rawWrite, buff, request`nWriters, request.socket`outgoing
      ensures RawMode() && request.nWriters == old(request.nWriters) - 1
      ensures var c := Close(o, request.requestId, request.appStatus, old(request.nWriters) == 1);
        AllValid(c.records) && Raw() == out + EncodeRecords(c.records)
      decreases 1, 1
    {
      hide EofBytes, EndBytes, EncodeRecord, EncodeRecords, Put, State, Valid, Close, Flush;
      CloseEncoded(o, request.requestId, request.appStatus, request.nWriters == 1);
      ghost var data := EncodeRecords(Flush(o, request.requestId).records);
      ghost var closing := ClosingBytes(wtype, o.anything || o.buffered != [], request.requestId, request.appStatus,
                                        request.nWriters == 1);
      assert out + data + closing == out + (data + closing);
      rawWrite := true;
      if !(wtype == STDERR && wrNext == 0 && !isAnythingWritten) {
        var n := PutStr(EofBytes(wtype, request.requestId));
      }
      if request.nWriters == 1 {
        var n := PutStr(EndBytes(request.requestId, request.appStatus));
      }
      request.nWriters := request.nWriters - 1;
      assert Raw() == out + data + closing;
    }

    /** What is left to do of a PutStr: in raw mode the bytes rest are missing from goal; otherwise
        recs have been sent of what the specification p asks for, and rest is still to be put. */
    ghost predicate Putting(goal: seq<byte>, p: Step, out: seq<byte>, recs: seq<Record>, rest: seq<byte>)
      reads this, buff, request, request.socket
    {
      if rawWrite then RawMode() && Raw() + rest == goal
      else Valid() && AllValid(recs) && Emit(recs, Put(State(), request.requestId, rest)) == p
           && request.socket.outgoing == out + EncodeRecords(recs)
    }

    /** FCGX_PutStr: the number of bytes taken, or EOF. */
    method PutStr(s: seq<byte>) returns (n: int)
      requires if rawWrite && !isClosed then RawMode() else Valid()
      modifies this`wrNext, this`isAnythingWritten, this`rawWrite, buff, request`nWriters, request.socket`outgoing
      ensures request.nWriters == old(request.nWriters)
      ensures old(isClosed) ==> n == (if s == [] then 0 else EOF) && unchanged(this, buff, request, request.socket)
      ensures old(rawWrite) && !old(isClosed) ==> RawMode() && n == |s| && Raw() == old(Raw()) + s
      ensures !old(rawWrite) ==> Valid() && n == |s|
      ensures !old(rawWrite) ==> 
        var p := Put(old(State()), request.requestId, s);
        State() == p.out && AllValid(p.records)
        && request.socket.outgoing == old(request.socket.outgoing) + EncodeRecords(p.records)
      decreases 1, 0
    {
      hide Put, EncodeRecords, State, Raw;
      if isClosed { return if s == [] then 0 else EOF; }
      ghost var goal, out := Raw() + s, request.socket.outgoing;
      ghost var p := if rawWrite then Step(Out(wtype, 16, [], false, false), []) else Put(State(), request.requestId, s);
      StartPutting(goal, p, s);
      if |s| <= stop - wrNext {
        CopyPiece(s, 0, |s|, goal, p, out, []);
        DonePutting(goal, p, out, []);
        return |s|;
      }
      var moved := 0;
      ghost var recs: seq<Record> := [];
      while true
        invariant moved < |s| && rawWrite == old(rawWrite) && !isClosed && request.nWriters == old(request.nWriters)
        invariant Putting(goal, p, out, recs, s[moved..])
        decreases |s| - moved, if wrNext == stop then 1 else 0
      {
        if wrNext != stop {
          var m := Min(|s| - moved, stop - wrNext);
          CopyPiece(s, moved, m, goal, p, out, recs);
          moved := moved + m;
          if moved == |s| {
            DonePutting(goal, p, out, recs);
            return moved;
          }
        }
        recs := MakeRoom(goal, p, out, recs, s[moved..]);
      }
    }

    lemma StartPutting(goal: seq<byte>, p: Step, s: seq<byte>)
      requires !isClosed && if rawWrite then RawMode() && goal == Raw() + s else Valid() && p == Put(State(), request.requestId, s)
      ensures Putting(goal, p, request.socket.outgoing, [], s[0..])
    {
      hide Put;
      assert s[0..] == s;
      assert request.socket.outgoing + EncodeRecords([]) == request.socket.outgoing;
      if !rawWrite { assert Emit([], p) == p; }
    }

    lemma DonePutting(goal: seq<byte>, p: Step, out: seq<byte>, recs: seq<Record>)
      requires !isClosed && Putting(goal, p, out, recs, [])
      ensures if rawWrite then RawMode() && Raw() == goal
              else Valid() && State() == p.out && AllValid(p.records)
                   && request.socket.outgoing == out + EncodeRecords(p.records)
    {
      hide EncodeRecords;
      if rawWrite {
        assert Raw() + [] == Raw();
      } else {
        PutNothing(State(), request.requestId);
        assert recs + [] == recs;
      }
    }

    /** Puts m more bytes of s, for which there is room. */
    method CopyPiece(s: seq<byte>, moved: nat, m: nat, ghost goal: seq<byte>, ghost p: Step, ghost out: seq<byte>, ghost recs: seq<Record>)
      requires !isClosed && moved + m <= |s| && m <= stop - wrNext && Putting(goal, p, out, recs, s[moved..])
      modifies this`wrNext, buff
      ensures wrNext == old(wrNext) + m && Putting(goal, p, out, recs, s[moved + m..])
      ensures moved + m == |s| ==> Putting(goal, p, out, recs, [])
    {
      hide Put, EncodeRecords;
      ghost var rest := s[moved..];
      assert rest[..m] == s[moved..moved + m] && rest[m..] == s[moved + m..];
      assert moved + m == |s| ==> s[moved + m..] == [];
      if !rawWrite { PutBite(State(), request.requestId, rest, m); }
      ghost var raw := if rawWrite then Raw() else [];
      assert raw + rest[..m] + rest[m..] == raw + rest;
      Copy(s[moved..moved + m]);
    }

    /** Empties a full buffer so that rest can be put. */
    method MakeRoom(ghost goal: seq<byte>, ghost p: Step, ghost out: seq<byte>, ghost recs: seq<Record>, ghost rest: seq<byte>)
        returns (ghost recs': seq<Record>)
      requires !isClosed && wrNext == stop && rest != [] && Putting(goal, p, out, recs, rest)
      modifies this`wrNext, this`isAnythingWritten, this`rawWrite, buff, request`nWriters, request.socket`outgoing
      ensures rawWrite == old(rawWrite) && wrNext < stop && request.nWriters == old(request.nWriters)
      ensures Putting(goal, p, out, recs', rest)
      decreases 0, 1
    {
      hide Put, EncodeRecords, Flush;
      recs' := recs;
      if !rawWrite {
        ghost var f := Flush(State(), request.requestId);
        PutFull(State(), request.requestId, rest);
        EmitTwice(recs, f.records, Put(f.out, request.requestId, rest));
        recs' := recs + f.records;
      }
      EmptyBuffProc(false);
      if !rawWrite {
        ghost var f := Flush(old(State()), request.requestId);
        EncodeRecordsConcat(recs, f.records);
        assert out + (EncodeRecords(recs) + EncodeRecords(f.records)) == out + EncodeRecords(recs) + EncodeRecords(f.records);
      }
    }

    /** memcpy into the free part of the buffer. */
    method Copy(piece: seq<byte>)
      requires if rawWrite && !isClosed then RawMode() else Valid()
      requires |piece| <= stop - wrNext
      modifies this`wrNext, buff
      ensures wrNext == old(wrNext) + |piece|
      ensures if rawWrite && !isClosed then RawMode() && Raw() == old(Raw()) + piece
              else Valid() && State() == old(State()).(buffered := old(State()).buffered + piece)
    {
      forall i | 0 <= i < |piece| { buff[wrNext + i] := piece[i]; }
      wrNext := wrNext + |piece|;
      assert buff[..wrNext] == old(buff[..wrNext]) + piece;
    }

    /** FCGX_PutChar: the byte written, or EOF. */
    method PutChar(c: int) returns (r: int)
      requires Valid()
      modifies this`wrNext, this`isAnythingWritten, this`rawWrite, buff, request`nWriters, request.socket`outgoing
      ensures Valid() && request.nWriters == old(request.nWriters)
      ensures isClosed ==> r == EOF && unchanged(this, buff, request, request.socket)
      ensures !isClosed ==>
        var p := Put(old(State()), request.requestId, [c % 256]);
        r == c % 256 && State() == p.out && AllValid(p.records)
        && request.socket.outgoing == old(request.socket.outgoing) + EncodeRecords(p.records)
    {
      hide Put, EncodeRecords;
      if isClosed { return EOF; }
      ghost var out, s := request.socket.outgoing, [c % 256];
      ghost var p := Put(State(), request.requestId, s);
      StartPutting([], p, s);
      ghost var recs: seq<Record> := [];
      if wrNext == stop {
        recs := MakeRoom([], p, out, [], s[0..]);
      }
      CopyPiece([c % 256], 0, 1, [], p, out, recs);
      DonePutting([], p, out, recs);
      return c % 256;
    }

    /** FCGX_FFlush. */
    method FFlush() returns (r: int)
      requires Valid()
      modifies this`wrNext, this`isAnythingWritten, this`rawWrite, buff, request`nWriters, request.socket`outgoing
      ensures Valid() && request.nWriters == old(request.nWriters) && r == 0
      ensures isClosed ==> unchanged(this, buff, request, request.socket)
      ensures !isClosed ==>
        var f := Flush(old(State()), request.requestId);
        State() == f.out && AllValid(f.records)
        && request.socket.outgoing == old(request.socket.outgoing) + EncodeRecords(f.records)
    {
      if isClosed { return 0; }
      EmptyBuffProc(false);
      return if isClosed then EOF else 0;
    }

    /** FCGX_FClose. */
    method FClose() returns (r: int)
      requires Valid()
      modifies this`wrNext, this`isAnythingWritten, this`rawWrite, this`stop, this`isClosed, this`wasFCloseCalled,
               buff, request`nWriters, request.socket`outgoing
      ensures Valid() && isClosed && r == 0
      ensures old(isClosed) ==> unchanged(this, buff, request, request.socket)
      ensures !old(isClosed) ==>
        var c := Close(old(State()), request.requestId, request.appStatus, old(request.nWriters) == 1);
        State() == c.out && AllValid(c.records) && request.nWriters == old(request.nWriters) - 1
        && request.socket.outgoing == old(request.socket.outgoing) + EncodeRecords(c.records)
    {
      if !wasFCloseCalled {
        EmptyBuffProc(true);
        wasFCloseCalled, isClosed, stop := true, true, wrNext;
      }
      return 0; // no write fails, so there is no error to report
    }
  }

  /** A header has room for sixteen bits of the request id. */
  lemma HeaderIdWraps(rtype: int, id: int, c: nat, p: nat)
    requires c <= MAX_LENGTH && p <= 0xff
    ensures MakeHeader(rtype, id % 0x1_0000, c, p) == MakeHeader(rtype, id, c, p)
  {
    BytesWrap(id);
  }

  lemma BytesWrap(id: int)
    ensures id % 0x1_0000 / 256 % 256 == id / 256 % 256 && id % 0x1_0000 % 256 == id % 256
  {
    var q, r := id / 0x1_0000, id % 0x1_0000;
    assert id == 0x1_0000 * q + r && id / 256 == 256 * q + r / 256;
  }

  function EofBytes(rtype: byte, id: int): (b: seq<byte>)
    ensures EofRecord(rtype, id).Valid() && b == EncodeRecord(EofRecord(rtype, id))
  {
    HeaderIdWraps(rtype, id, 0, 0);
    MakeHeader(rtype, id, 0, 0)
  }

  function EndBytes(id: int, appStatus: int): (b: seq<byte>)
    ensures EndRecord(id, appStatus).Valid() && b == EncodeRecord(EndRecord(id, appStatus))
  {
    HeaderIdWraps(END_REQUEST, id, 8, 0);
    MakeHeader(END_REQUEST, id, 8, 0) + MakeEndRequestBody(appStatus, REQUEST_COMPLETE)
  }

  /** What WriteCloseRecords writes; anything says that the stream has had content. */
  function ClosingBytes(rtype: byte, anything: bool, id: int, appStatus: int, last: bool): seq<byte> {
    (if rtype == STDERR && !anything then [] else EofBytes(rtype, id))
    + (if last then EndBytes(id, appStatus) else [])
  }

  lemma EncodeOne(r: Record)
    requires r.Valid()
    ensures AllValid([r]) && EncodeRecords([r]) == EncodeRecord(r)
  {
    assert EncodeRecords([r]) == EncodeRecord(r) + EncodeRecords([]);
  }

  lemma CloseEncoded(o: Out, id: int, appStatus: int, last: bool)
    requires o.Valid() && !o.closed
    ensures AllValid(Flush(o, id).records) && AllValid(Close(o, id, appStatus, last).records)
    ensures EncodeRecords(Close(o, id, appStatus, last).records)
         == EncodeRecords(Flush(o, id).records) + ClosingBytes(o.rtype, o.anything || o.buffered != [], id, appStatus, last)
  {
    hide EncodeRecords, EofRecord, EndRecord, Completes, ClosingBytes;
    FlushValid(o, id);
    var f := Flush(o, id);
    var eof := if o.rtype == STDERR && !f.out.anything then [] else [EofRecord(o.rtype, id)];
    var end := if last then [EndRecord(id, appStatus)] else [];
    ClosingEncoded(o.rtype, f.out.anything, id, appStatus, last, eof, end);
    ThreeEncoded(f.records, eof, end);
  }

  lemma ClosingEncoded(rtype: byte, anything: bool, id: int, appStatus: int, last: bool, eof: seq<Record>, end: seq<Record>)
    requires eof == if rtype == STDERR && !anything then [] else [EofRecord(rtype, id)]
    requires end == if last then [EndRecord(id, appStatus)] else []
    ensures AllValid(eof) && AllValid(end)
    ensures EncodeRecords(eof) + EncodeRecords(end) == ClosingBytes(rtype, anything, id, appStatus, last)
  {
    assert EofRecord(rtype, id).Valid() && EndRecord(id, appStatus).Valid();
    hide EncodeRecord, EncodeRecords, Completes, EofRecord, EndRecord;
    EncodeOne(EofRecord(rtype, id));
    EncodeOne(EndRecord(id, appStatus));
    EncodeNone();
  }

  lemma FlushValid(o: Out, id: int)
    requires o.Valid() && !o.closed
    ensures AllValid(Flush(o, id).records) && Flush(o, id).out.anything == (o.anything || o.buffered != [])
  {
  }

  lemma ThreeEncoded(a: seq<Record>, b: seq<Record>, c: seq<Record>)
    requires AllValid(a) && AllValid(b) && AllValid(c)
    ensures AllValid(a + b + c) && EncodeRecords(a + b + c) == EncodeRecords(a) + (EncodeRecords(b) + EncodeRecords(c))
  {
    hide EncodeRecords;
    EncodeRecordsConcat(a, b);
    EncodeRecordsConcat(a + b, c);
    assert EncodeRecords(a) + EncodeRecords(b) + EncodeRecords(c) == EncodeRecords(a) + (EncodeRecords(b) + EncodeRecords(c));
  }

  lemma EncodeNone()
    ensures EncodeRecords([]) == []
  {
  }
}
