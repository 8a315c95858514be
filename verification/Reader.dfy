/** The reading half of FCGX_Stream (fcgi/libfcgi/fcgiapp.c). Every method is specified by the
    pure function Deliver, applied to the bytes that have not been read yet: how the socket cuts
    them into pieces never shows. */
module Reader {
  import opened Basics
  import opened Wire
  import opened Deframing
  import opened Transport

  // Return codes of ProcessHeader
  const STREAM_RECORD := 0
  const SKIP := 1
  const BEGIN_RECORD := 2
  const MGMT_RECORD := 3

  const EOF := -1

  class Stream {
    const buff: array<byte>
    const request: Request
    var rdNext: nat      // first byte not yet handed to the client
    var stop: nat        // end of the window the client may read
    var buffStop: nat    // end of the valid bytes in buff
    var stopUnget: nat   // first byte of the current window, for UnGetChar
    var isClosed: bool
    var errno: int
    var rtype: int
    var eorStop: bool
    var skip: bool
    var contentLen: nat
    var paddingLen: nat

    /** NewStream with isReader; misaligned says that Malloc's block had to be aligned to 8. */
    constructor (request: Request, bufflen: int, misaligned: bool, rtype: int)
      ensures Valid() && Idle() && !isClosed && !eorStop && errno == 0
      ensures this.request == request && this.rtype == rtype && fresh(buff) && fresh(this)
      ensures Rest() == Deliver(request.socket.incoming, 0, 0, false, Ctx())
      ensures var n := Min(Max(bufflen, 32), 0x1_0000); n <= buff.Length + (if misaligned then 8 else 0) < n + 8
    {
      var len := AlignInt8(Min(if bufflen < 32 then 32 else bufflen, MAX_LENGTH + 1));
      buff := new byte[if misaligned then len - 8 else len];
      this.request, this.rtype := request, rtype;
      rdNext, stop, buffStop, stopUnget := 0, 0, 0, 0;
      isClosed, errno, eorStop, skip, contentLen, paddingLen := false, 0, false, false, 0, 0;
      new;
      assert Unread() == request.socket.incoming;
    }

    ghost predicate Bounds()
      reads this`rdNext, this`buffStop
    {
      buff.Length > 0 && rdNext <= buffStop <= buff.Length
    }

    ghost predicate Valid()
      reads this
    {
      Bounds() && (!isClosed ==> rdNext <= stop <= buffStop)
    }

    /** No window is open for the client. */
    ghost predicate Idle()
      reads this
    {
      rdNext == stop
    }

    /** The open window starts no later than the read position. */
    ghost predicate CanUnget()
      reads this
    {
      !isClosed && rdNext < stop ==> stopUnget <= rdNext
    }

    ghost function Ctx(): Context
      reads this, request`requestId, request`isBeginProcessed
    {
      Context(request.requestId, request.isBeginProcessed, rtype, eorStop)
    }

    /** The wire bytes from the read position on: first the buffered ones. */
    ghost function Unread(): seq<byte>
      requires Bounds()
      reads this`rdNext, this`buffStop, buff, request.socket`incoming
    {
      buff[rdNext..buffStop] + request.socket.incoming
    }

    /** All that is still to come: the open window, then what Deliver makes of the rest. */
    ghost function Rest(): Delivery
      requires Valid() && !isClosed
      reads this, buff, request`requestId, request`isBeginProcessed, request.socket`incoming
    {
      Prepend(buff[rdNext..stop],
              Deliver(buff[stop..buffStop] + request.socket.incoming, contentLen, paddingLen, skip, Ctx()))
    }

    /** The state after the stream ended with e; errno0 is the error code before. */
    ghost predicate Ended(e: End, errno0: int)
      requires Valid()
      reads this, buff, request, request.socket
    {
      match e
      case Eof(rest, pad) =>
        isClosed && Idle() && errno == errno0 && Unread() == rest && paddingLen == pad && contentLen == 0
      case Begun(id, role, keep, rest, pad) =>
        && !isClosed && Idle() && errno == errno0 && Unread() == rest && paddingLen == pad && contentLen == 0
        && request.isBeginProcessed && request.requestId == id && request.role == role
        && request.keepConnection == keep
      case Failed(code) => isClosed && errno == FirstError(errno0, code)
      case _ => isClosed && errno in {errno0, FirstError(errno0, PROTOCOL_ERROR)}
    }

    method SetError(code: int)
      modifies this`errno, this`isClosed
      ensures isClosed && errno == (if old(errno) == 0 then code else old(errno))
    {
      if errno == 0 { errno := code; }
      isClosed := true;
    }

    /** What is still to come when header holds the first bytes of the next header. */
    ghost function Ahead(header: seq<byte>): Delivery
      requires Bounds()
      reads this, buff, request, request.socket
    {
      Deliver(header + Unread(), contentLen, paddingLen, skip, Ctx())
    }

    /** FillBuffProc's result: the delivery r, of which out had been answered at the start, has
        either ended or has a non-empty window. */
    ghost predicate Filled(r: Delivery, out: seq<byte>, errno0: int, ctx: Context)
      reads this, buff, request, request.socket
    {
      && Valid()
      && if r.content == [] then
           Ended(r.end, errno0) && request.socket.outgoing == out + r.replies
           && (r.end.Begun? || request.isBeginProcessed == ctx.begun)
         else !isClosed && rdNext < stop && errno == errno0 && Ctx() == ctx
              && Follows(Rest(), request.socket.outgoing, r, out)
    }

    /** Reads bytes from the socket until the client has a window or the stream has ended. */
    method FillBuffProc()
      requires Valid() && !isClosed && Idle()
      modifies this, buff, request, request.socket
      ensures rtype == old(rtype) && eorStop == old(eorStop) && (old(request.isBeginProcessed) ==> unchanged(request))
      ensures Filled(old(Rest()), old(request.socket.outgoing), old(errno), old(Ctx()))
      decreases if eorStop then 0 else 2, 0
    {
      hide Unread, Filled, Rest, Ahead, Follows;
      ghost var r := Rest();
      ghost var out := request.socket.outgoing;
      ghost var ctx := Ctx();
      var header: seq<byte> := [];
      StartFill();
      while true
        invariant Bounds() && !isClosed && Ctx() == ctx && errno == old(errno)
        invariant |header| < HEADER_LEN && (header != [] ==> !eorStop && contentLen == 0 && paddingLen == 0)
        invariant Follows(Ahead(header), request.socket.outgoing, r, out)
        invariant old(request.isBeginProcessed) ==> unchanged(request)
        decreases |Unread()|
      {
        if rdNext == buffStop {
          var count := Refill(header);
          if count <= 0 {
            FailRead(header, r, out);
            return;
          }
        }
        if contentLen > 0 && !skip {
          DeliverContent(r, out);
          return;
        }
        if contentLen > 0 || paddingLen > 0 {
          PassRecord(r, out);
          if contentLen > 0 || paddingLen > 0 { continue; }
        }
        if eorStop {
          CloseRecord(r, out);
          return;
        }
        var done;
        header, done := TakeHeader(header, r, out);
        if done { return; }
      }
    }

    /** Drops bytes of the current record: content that is not for the client, then padding. */
    method PassRecord(ghost r: Delivery, ghost out: seq<byte>)
      requires Bounds() && rdNext < buffStop && (contentLen > 0 ==> skip) && (contentLen > 0 || paddingLen > 0)
      requires Follows(Ahead([]), request.socket.outgoing, r, out)
      modifies this`contentLen, this`paddingLen, this`rdNext, this`skip
      ensures Bounds() && |Unread()| < |old(Unread())| && (contentLen > 0 ==> skip)
      ensures Follows(Ahead([]), request.socket.outgoing, r, out)
    {
      hide Ahead, Unread, Follows;
      if contentLen > 0 { SkipContent(r, out); }
      if contentLen == 0 && paddingLen > 0 { SkipPadding(r, out); }
    }

    /** Gathers bytes of the next header and, when it is complete, interprets it. */
    method TakeHeader(header: seq<byte>, ghost r: Delivery, ghost out: seq<byte>) returns (header': seq<byte>, done: bool)
      requires Bounds() && !isClosed && !eorStop && contentLen == 0 && paddingLen == 0 && |header| < HEADER_LEN
      requires Follows(Ahead(header), request.socket.outgoing, r, out)
      modifies this, buff, request, request.socket
      ensures Bounds() && rtype == old(rtype) && !eorStop && (old(request.isBeginProcessed) ==> unchanged(request))
      ensures done ==> Filled(r, out, old(errno), old(Ctx()))
      ensures !done ==> !isClosed && errno == old(errno) && Ctx() == old(Ctx())
      ensures !done ==> |header'| < HEADER_LEN && (header' != [] ==> contentLen == 0 && paddingLen == 0)
      ensures !done ==> |Unread()| <= |old(Unread())| && (old(rdNext) < old(buffStop) ==> |Unread()| < |old(Unread())|)
      ensures !done ==> Follows(Ahead(header'), request.socket.outgoing, r, out)
      decreases 1, 1
    {
      hide Ahead, Unread, Follows, Filled;
      header' := GatherHeader(header);
      if |header'| < HEADER_LEN { return header', false; }
      done := NextRecord(header', r, out);
      header' := [];
    }

    lemma StartFill()
      requires Valid() && !isClosed && Idle()
      ensures Follows(Ahead([]), request.socket.outgoing, Rest(), request.socket.outgoing)
    {
      assert [] + Unread() == buff[stop..buffStop] + request.socket.incoming;
    }

    /** The OS_Read of FillBuffProc. */
    method Refill(ghost header: seq<byte>) returns (count: nat)
      requires Bounds() && rdNext == buffStop
      modifies this`rdNext, this`buffStop, buff, request.socket`incoming
      ensures Bounds() && Unread() == old(Unread()) && Ahead(header) == old(Ahead(header))
      ensures if count == 0 then Unread() == [] && header + Unread() == header else rdNext < buffStop
    {
      count := request.socket.Read(buff);
      if count > 0 {
        rdNext := 0;
        buffStop := count;
      }
    }

    method FailRead(ghost header: seq<byte>, ghost r: Delivery, ghost out: seq<byte>)
      requires Bounds() && header + Unread() == header && |header| < HEADER_LEN
      requires header != [] ==> !eorStop && contentLen == 0 && paddingLen == 0
      requires Follows(Ahead(header), request.socket.outgoing, r, out)
      modifies this`errno, this`isClosed
      ensures Filled(r, out, old(errno), old(Ctx()))
    {
      hide Deliver;
      Exhausted(header, contentLen, paddingLen, skip, Ctx());
      SetError(PROTOCOL_ERROR);
    }

    /** All done with the record a confined reader may read. */
    method CloseRecord(ghost r: Delivery, ghost out: seq<byte>)
      requires Bounds() && eorStop && contentLen == 0 && paddingLen == 0
      requires Follows(Ahead([]), request.socket.outgoing, r, out)
      modifies this`stop, this`isClosed
      ensures Filled(r, out, errno, old(Ctx()))
    {
      hide Deliver;
      RecordOver([] + Unread(), skip, Ctx());
      stop := rdNext;
      isClosed := true;
    }

    /** Moves bytes of the next header out of the buffer. */
    method GatherHeader(header: seq<byte>) returns (header': seq<byte>)
      requires Bounds() && |header| < HEADER_LEN
      modifies this`rdNext
      ensures Bounds() && |header'| <= HEADER_LEN && Ahead(header') == old(Ahead(header))
      ensures |Unread()| <= |old(Unread())|
      ensures old(rdNext) < buffStop ==> header' != [] && |Unread()| < |old(Unread())|
    {
      var count := Min(HEADER_LEN - |header|, buffStop - rdNext);
      header' := header + buff[rdNext..rdNext + count];
      rdNext := rdNext + count;
      assert header' + Unread() == old(header + Unread());
    }

    /** The current record has content for the client: open a window on what is buffered. */
    method DeliverContent(ghost r: Delivery, ghost out: seq<byte>)
      requires Bounds() && !isClosed && rdNext < buffStop && contentLen > 0 && !skip
      requires Follows(Ahead([]), request.socket.outgoing, r, out)
      modifies this`contentLen, this`stop
      ensures Filled(r, out, errno, old(Ctx()))
    {
      hide Deliver, Unread;
      ghost var w := Unread();
      var count := Min(contentLen, buffStop - rdNext);
      SplitUnread(count);
      assert [] + w == w;
      ContentBite(w, contentLen, paddingLen, Ctx(), count);
      contentLen := contentLen - count;
      stop := rdNext + count;
    }

    lemma SplitUnread(count: nat)
      requires Bounds() && rdNext + count <= buffStop
      ensures count <= |Unread()| && buff[rdNext..rdNext + count] == Unread()[..count]
      ensures buff[rdNext + count..buffStop] + request.socket.incoming == Unread()[count..]
    {
    }

    /** Moves past count buffered bytes. */
    method Advance(count: nat)
      requires Bounds() && rdNext + count <= buffStop
      modifies this`rdNext
      ensures Bounds() && rdNext == old(rdNext) + count
      ensures count <= |old(Unread())| && Unread() == old(Unread())[count..]
    {
      rdNext := rdNext + count;
    }

    /** The current record has content that is not for the client. */
    method SkipContent(ghost r: Delivery, ghost out: seq<byte>)
      requires Bounds() && Follows(Ahead([]), request.socket.outgoing, r, out)
      requires Bounds() && rdNext < buffStop && contentLen > 0 && skip
      modifies this`contentLen, this`rdNext, this`skip
      ensures Bounds() && |Unread()| < |old(Unread())| && (contentLen > 0 ==> skip)
      ensures Follows(Ahead([]), request.socket.outgoing, r, out)
    {
      hide Deliver, Follows, SameAhead, Unread;
      ghost var w := Unread();
      var count := Min(contentLen, buffStop - rdNext);
      Advance(count);
      assert [] + w == w && [] + w[count..] == w[count..];
      SkipStep(w, contentLen, paddingLen, Ctx(), count);
      contentLen := contentLen - count;
      if contentLen == 0 { skip := false; }
      FollowsOn(Ahead([]), old(Ahead([])), request.socket.outgoing, r, out);
    }

    method SkipPadding(ghost r: Delivery, ghost out: seq<byte>)
      requires Bounds() && Follows(Ahead([]), request.socket.outgoing, r, out)
      requires Bounds() && contentLen == 0 && paddingLen > 0
      modifies this`paddingLen, this`rdNext
      ensures Bounds() && |Unread()| <= |old(Unread())|
      ensures old(rdNext) < buffStop ==> |Unread()| < |old(Unread())|
      ensures Follows(Ahead([]), request.socket.outgoing, r, out)
    {
      hide Deliver, Follows, Unread;
      ghost var w := Unread();
      var count := Min(paddingLen, buffStop - rdNext);
      Advance(count);
      assert [] + w == w && [] + w[count..] == w[count..] && w[0..] == w;
      if count > 0 { PadStep(w, paddingLen, skip, Ctx(), count); }
      paddingLen := paddingLen - count;
      FollowsOn(Ahead([]), old(Ahead([])), request.socket.outgoing, r, out);
    }

    /** Interprets a complete header; done says that FillBuffProc returns. */
    method NextRecord(header: seq<byte>, ghost r: Delivery, ghost out: seq<byte>) returns (done: bool)
      requires Bounds() && !isClosed && !eorStop && contentLen == 0 && paddingLen == 0 && |header| == HEADER_LEN
      requires Follows(Ahead(header), request.socket.outgoing, r, out)
      modifies this, buff, request, request.socket
      ensures Bounds() && rtype == old(rtype) && !eorStop && (old(request.isBeginProcessed) ==> unchanged(request))
      ensures done ==> Filled(r, out, old(errno), old(Ctx()))
      ensures !done ==> !isClosed && errno == old(errno) && Ctx() == old(Ctx()) && Unread() == old(Unread())
      ensures !done ==> Follows(Ahead([]), request.socket.outgoing, r, out)
      decreases 1, 0
    {
      hide Deliver, DeliverHeader;
      ghost var w := Unread();
      assert (header + w)[..8] == header && (header + w)[8..] == w;
      HeaderStep(header + w, DecodeHeader(header), w, skip, Ctx());
      eorStop := true;
      stop := rdNext;
      var status := ProcessHeader(header);
      eorStop := false;
      isClosed := false;
      done := Dispatch(status, DecodeHeader(header), w, old(skip), r, out, old(request.socket.outgoing), old(errno), old(Ctx()));
    }

    /** A record whose header asks for no action here: only its lengths have been noted. */
    ghost predicate Noted(h: Header, w: seq<byte>, skip0: bool, errno0: int, ctx: Context)
      requires Bounds()
      reads this, buff, request, request.socket
    {
      && Unread() == w && contentLen == h.contentLength && paddingLen == h.paddingLength
      && skip == skip0 && errno == errno0 && Ctx().(eorStop := false) == ctx
    }

    /** The header is faulty; code says how. */
    ghost predicate Refused(status: int, code: int, out: seq<byte>, errno0: int, ctx: Context)
      reads this, request, request.socket
    {
      status == code && errno == errno0 && request.socket.outgoing == out && request.isBeginProcessed == ctx.begun
    }

    /** ProcessHeader's result for the header h followed by the bytes w. */
    ghost predicate Processed(status: int, h: Header, w: seq<byte>, skip0: bool, out: seq<byte>, errno0: int, ctx: Context)
      requires Bounds()
      reads this, buff, request, request.socket
    {
      if h.version != VERSION_1 then Refused(status, UNSUPPORTED_VERSION, out, errno0, ctx)
      else if IsOwn(h.rtype, h.requestId, ctx) then
        status == STREAM_RECORD && request.socket.outgoing == out && Noted(h, w, skip0, errno0, ctx)
      else if IsForeign(h.rtype, h.requestId, ctx) then
        status == SKIP && request.socket.outgoing == out && Noted(h, w, skip0, errno0, ctx)
      else if IsManagement(h.rtype, h.requestId) then
        status == MGMT_RECORD && request.socket.outgoing == out + UnknownType(h.rtype) && Noted(h, w, skip0, errno0, ctx)
      else if !IsBegin(h.rtype, h.requestId, h.contentLength) then
        var code := if h.rtype == GET_VALUES && h.requestId == NULL_REQUEST_ID then GET_VALUES_SEEN else PROTOCOL_ERROR;
        Refused(status, code, out, errno0, ctx)
      else if ctx.begun then
        status == SKIP && request.socket.outgoing == out + CantMultiplex(h.requestId) && Noted(h, w, skip0, errno0, ctx)
      else
        && request.socket.outgoing == out
        && if skip0 || |w| < 8 then
             status == PROTOCOL_ERROR && errno in {errno0, FirstError(errno0, PROTOCOL_ERROR)}
             && !request.isBeginProcessed
           else
             && status == BEGIN_RECORD && Idle() && errno == errno0
             && Unread() == w[8..] && contentLen == 0 && paddingLen == h.paddingLength
             && request.isBeginProcessed && request.requestId == h.requestId
             && request.role == BigEndian(w[..2]) && request.keepConnection == (w[2] % 2 == 1)
    }

    /** The switch over ProcessHeader's status; done says that FillBuffProc returns. */
    method Dispatch(status: int, ghost h: Header, ghost w: seq<byte>, ghost skip0: bool,
                    ghost r: Delivery, ghost out: seq<byte>, ghost out1: seq<byte>, ghost errno0: int, ghost ctx: Context)
        returns (done: bool)
      requires Bounds() && !isClosed && !eorStop && !ctx.eorStop
      requires Processed(status, h, w, skip0, out1, errno0, ctx)
      requires Follows(DeliverHeader(h, w, skip0, ctx), out1, r, out)
      modifies this`stop, this`isClosed, this`skip, this`errno
      ensures Bounds() && (done ==> Filled(r, out, errno0, ctx))
      ensures !done ==> !isClosed && errno == errno0 && Ctx() == ctx && Unread() == w
      ensures !done ==> Follows(Ahead([]), request.socket.outgoing, r, out)
    {
      hide Deliver;
      ClassifyIs(h, ctx);
      hide Classify;
      if |w| >= 2 { WordIs(w); }
      done := true;
      if status == STREAM_RECORD {
        if contentLen == 0 {
          stop := rdNext;
          isClosed := true;
        } else {
          done := false;
        }
      } else if status == SKIP {
        skip := true;
        done := false;
      } else if status == BEGIN_RECORD {
      } else if status == MGMT_RECORD {
        done := false;
      } else {
        SetError(status);
      }
      assert [] + Unread() == Unread();
    }

    method ProcessHeader(header: seq<byte>) returns (status: int)
      requires Bounds() && !isClosed && Idle() && eorStop && |header| == HEADER_LEN
      modifies this, buff, request, request.socket
      ensures Bounds() && rtype == old(rtype) && eorStop && (old(request.isBeginProcessed) ==> unchanged(request))
      ensures Processed(status, DecodeHeader(header), old(Unread()), old(skip), old(request.socket.outgoing), old(errno),
                        old(Ctx()).(eorStop := false))
      decreases 0, 5
    {
      var h := DecodeHeader(header);
      if h.version != VERSION_1 { return UNSUPPORTED_VERSION; }
      contentLen := h.contentLength;
      paddingLen := h.paddingLength;
      if h.rtype == BEGIN_REQUEST {
        status := ProcessBeginRecord(h);
        return;
      }
      if h.requestId == NULL_REQUEST_ID {
        status := ProcessManagementRecord(h.rtype);
        return;
      }
      if h.requestId != request.requestId { return SKIP; }
      if h.rtype as int != rtype { return PROTOCOL_ERROR; }
      return STREAM_RECORD;
    }

    /** Answers every management record but GET_VALUES, whose answer is not modelled. */
    method ProcessManagementRecord(rtype: byte) returns (status: int)
      modifies request.socket`outgoing
      ensures if rtype == GET_VALUES then status == GET_VALUES_SEEN && request.socket.outgoing == old(request.socket.outgoing)
              else status == MGMT_RECORD && request.socket.outgoing == old(request.socket.outgoing) + UnknownType(rtype)
    {
      if rtype == GET_VALUES { return GET_VALUES_SEEN; }
      request.socket.WriteAll(UnknownType(rtype));
      return MGMT_RECORD;
    }

    method ProcessBeginRecord(h: Header) returns (status: int)
      requires Bounds() && !isClosed && Idle() && eorStop
      requires contentLen == h.contentLength && paddingLen == h.paddingLength
      requires h.version == VERSION_1 && h.rtype == BEGIN_REQUEST && h.requestId <= 0xffff
      modifies this, buff, request, request.socket
      ensures Bounds() && rtype == old(rtype) && eorStop && (old(request.isBeginProcessed) ==> unchanged(request))
      ensures Processed(status, h, old(Unread()), old(skip), old(request.socket.outgoing), old(errno),
                        old(Ctx()).(eorStop := false))
      decreases 0, 4
    {
      if h.requestId == 0 || contentLen != 8 { return PROTOCOL_ERROR; }
      if request.isBeginProcessed {
        request.socket.WriteAll(CantMultiplex(h.requestId));
        return SKIP;
      }
      request.requestId := h.requestId;
      var body := ReadBeginBody();
      if |body| != 8 { return PROTOCOL_ERROR; }
      request.keepConnection := body[2] % 2 == 1;
      request.role := Word(body[0], body[1]);
      WordIs(body);
      assert old(Unread())[..2] == body[..2];
      request.isBeginProcessed := true;
      return BEGIN_RECORD;
    }

    /** The eight bytes of the body, or fewer if they are not there. */
    method ReadBeginBody() returns (body: seq<byte>)
      requires Bounds() && !isClosed && Idle() && eorStop && contentLen == 8
      modifies this, buff, request, request.socket
      ensures Bounds() && rtype == old(rtype) && eorStop && request.socket.outgoing == old(request.socket.outgoing)
      ensures request.isBeginProcessed == old(request.isBeginProcessed) && (request.isBeginProcessed ==> unchanged(request))
      ensures if old(skip || |Unread()| < 8) then
          |body| != 8 && errno in {old(errno), FirstError(old(errno), PROTOCOL_ERROR)}
        else
          && body == old(Unread())[..8] && Idle() && Unread() == old(Unread())[8..] && errno == old(errno)
          && contentLen == 0 && paddingLen == old(paddingLen) && Ctx() == old(Ctx())
      decreases 0, 3
    {
      hide Deliver;
      ghost var w, out := Unread(), request.socket.outgoing;
      assert buff[stop..buffStop] + request.socket.incoming == w && buff[rdNext..stop] == [];
      BodyDelivery(w, paddingLen, skip, Ctx());
      body := GetStr(8);
      if |body| == 8 { AfterBody(w[8..], old(paddingLen)); }
      assert request.socket.outgoing + [] == request.socket.outgoing && out + [] == out;
    }

    lemma AfterBody(w: seq<byte>, pad: nat)
      requires Valid() && !isClosed && eorStop
      requires Rest().content == [] && Rest().end == RecordEnd(w, 0, pad)
      ensures Idle() && Unread() == w && contentLen == 0 && paddingLen == pad && Rest().replies == []
    {
    }

    /** FCGX_GetStr: up to n bytes; fewer only at the end of the stream. */
    method GetStr(n: int) returns (str: seq<byte>)
      requires Valid() && CanUnget() && (eorStop || request.isBeginProcessed)
      modifies this, buff, request, request.socket
      ensures Valid() && CanUnget() && rtype == old(rtype) && eorStop == old(eorStop)
      ensures old(request.isBeginProcessed) ==> unchanged(request)
      ensures !isClosed && str != [] ==> stopUnget < rdNext
      ensures old(isClosed) ==> str == [] && unchanged(this, buff, request, request.socket)
      ensures !old(isClosed) ==> Taken(str, n, old(Rest()), old(request.socket.outgoing), old(errno), old(Ctx()))
      decreases if eorStop then 0 else 2, 2
    {
      hide Deliver, Follows;
      if isClosed { return []; }
      ghost var r, out, ctx := Rest(), request.socket.outgoing, Ctx();
      str := [];
      FollowsSelf(r, out);
      if n <= 0 { return; }
      if n <= stop - rdNext {
        str := Take(n);
        FollowsTaken(str, Rest(), r, out);
        return;
      }
      while true
        invariant CanUnget() && (str != [] && rdNext == stop ==> stopUnget < rdNext)
        invariant Valid() && !isClosed && |str| < n && errno == old(errno) && Ctx() == ctx
        invariant old(request.isBeginProcessed) ==> unchanged(request)
        invariant rtype == old(rtype) && eorStop == old(eorStop) && (eorStop || request.isBeginProcessed)
        invariant Follows(Prepend(str, Rest()), request.socket.outgoing, r, out)
        decreases n - |str|, if rdNext == stop then 1 else 0
      {
        if rdNext != stop {
          var piece := Take(Min(n - |str|, stop - rdNext));
          PrependTwice(str, piece, Rest());
          str := str + piece;
          FollowsPrefix(str, Rest(), request.socket.outgoing, r, out);
          if |str| == n { return; }
        }
        NextWindow(str, n, r, out);
        if isClosed { return; }
      }
    }

    /** Fills the buffer when the window is used up; str has been taken of the n bytes asked for. */
    method NextWindow(ghost str: seq<byte>, ghost n: int, ghost r: Delivery, ghost out: seq<byte>)
      requires Valid() && !isClosed && Idle() && (eorStop || request.isBeginProcessed) && |str| < n
      requires Follows(Prepend(str, Rest()), request.socket.outgoing, r, out)
      modifies this, buff, request, request.socket
      ensures Valid() && rtype == old(rtype) && eorStop == old(eorStop)
      ensures old(request.isBeginProcessed) ==> unchanged(request)
      ensures isClosed ==> Taken(str, n, r, out, old(errno), old(Ctx()))
      ensures !isClosed ==> stopUnget == rdNext < stop && errno == old(errno) && Ctx() == old(Ctx())
      ensures !isClosed ==> Follows(Prepend(str, Rest()), request.socket.outgoing, r, out)
      decreases if eorStop then 0 else 2, 1
    {
      hide Deliver, Follows;
      ghost var r1, out1 := Rest(), request.socket.outgoing;
      FollowsPrefix(str, r1, out1, r, out);
      FillBuffProc();
      if isClosed { return; }
      FollowsThrough(str, Rest(), request.socket.outgoing, r1, out1, r, out);
      stopUnget := rdNext;
    }

    /** FCGX_GetChar: the next byte, or EOF at the end of the stream. */
    method GetChar() returns (c: int)
      requires Valid() && CanUnget() && (eorStop || request.isBeginProcessed)
      modifies this, buff, request, request.socket
      ensures Valid() && CanUnget() && rtype == old(rtype) && eorStop == old(eorStop)
      ensures old(request.isBeginProcessed) ==> unchanged(request)
      ensures c == EOF || (0 <= c < 256 && !isClosed && stopUnget < rdNext)
      ensures old(isClosed) ==> c == EOF && unchanged(this, buff, request, request.socket)
      ensures !old(isClosed) ==>
        Taken(if c == EOF then [] else [c], 1, old(Rest()), old(request.socket.outgoing), old(errno), old(Ctx()))
      decreases if eorStop then 0 else 2, 2
    {
      hide Deliver, Follows;
      if isClosed { return EOF; }
      ghost var r, out := Rest(), request.socket.outgoing;
      FollowsSelf(r, out);
      if rdNext == stop {
        NextWindow([], 1, r, out);
        if isClosed { return EOF; }
      }
      FollowsSelf(Rest(), request.socket.outgoing);
      ghost var r1, out1 := Rest(), request.socket.outgoing;
      var piece := Take(1);
      assert Follows(Prepend(piece, Rest()), out1, r, out);
      FollowsPrefix(piece, Rest(), out1, r, out);
      assert piece == [piece[0]];
      return piece[0];
    }

    /** FCGX_UnGetChar: pushes c back, to be the next byte read. */
    method UnGetChar(c: int) returns (r: int)
      requires Valid() && (!isClosed && rdNext != stopUnget ==> rdNext > 0)
      modifies this`rdNext, buff
      ensures Valid()
      ensures c == EOF || isClosed || old(rdNext) == stopUnget ==> r == EOF && unchanged(this, buff)
      ensures c != EOF && !isClosed && old(rdNext) != stopUnget ==>
        r == c && Rest() == Prepend([c % 256], old(Rest())) && rdNext == old(rdNext) - 1
    {
      hide Deliver;
      if c == EOF || isClosed || rdNext == stopUnget { return EOF; }
      ghost var before := buff[rdNext..stop];
      rdNext := rdNext - 1;
      buff[rdNext] := c % 256;
      assert buff[rdNext..stop] == [c % 256] + before;
      assert buff[stop..buffStop] == old(buff[stop..buffStop]);
      return c;
    }

    /** SetReaderType: goes on with the records of another type. The current record is dropped as
        if it had no padding left. */
    method SetReaderType(t: int)
      requires Valid()
      modifies this
      ensures Valid() && CanUnget() && Idle() && !isClosed && !eorStop && rtype == t && errno == old(errno)
      ensures Unread() == old(Unread())
      ensures Rest() == Deliver(old(Unread()), 0, 0, false, Ctx())
    {
      rtype, eorStop, skip, contentLen, paddingLen, stop, isClosed := t, false, false, 0, 0, rdNext, false;
      assert buff[stop..buffStop] + request.socket.incoming == Unread();
    }

    /** memcpy out of the window. */
    method Take(m: nat) returns (piece: seq<byte>)
      requires Valid() && !isClosed && m <= stop - rdNext
      modifies this`rdNext
      ensures Valid() && |piece| == m && rdNext == old(rdNext) + m && Ctx() == old(Ctx())
      ensures Prepend(piece, Rest()) == old(Rest())
    {
      hide Deliver;
      piece := buff[rdNext..rdNext + m];
      rdNext := rdNext + m;
      assert piece + buff[rdNext..stop] == old(buff[rdNext..stop]);
    }

    /** str is what a client asking for n bytes gets of the delivery r. */
    ghost predicate Taken(str: seq<byte>, n: int, r: Delivery, out: seq<byte>, errno0: int, ctx: Context)
      requires Valid()
      reads this, buff, request, request.socket
    {
      if n <= |r.content| then
        && |str| == (if n < 0 then 0 else n) && str == r.content[..|str|]
        && !isClosed && errno == errno0 && Ctx() == ctx
        && Follows(Prepend(str, Rest()), request.socket.outgoing, r, out)
      else
        str == r.content && Ended(r.end, errno0) && request.socket.outgoing == out + r.replies
        && request.isBeginProcessed == ctx.begun
    }
  }

  function FirstError(errno: int, code: int): int {
    if errno == 0 then code else errno
  }

  /** d1 is d, except that a reader confined to a record with no content left may have dropped
      some of the rest of that record. */
  predicate SameAhead(d1: Delivery, d: Delivery) {
    && d1.content == d.content
    && d1.replies == d.replies
    && (d1.end == d.end || (d.content == [] && d.end.Confined() && d1.end.Confined()))
  }

  /** The delivery d goes on where r, of which out1 - out has been answered, has got to. */
  predicate Follows(d: Delivery, out1: seq<byte>, r: Delivery, out: seq<byte>) {
    SameAhead(d.(replies := out1 + d.replies), r.(replies := out + r.replies))
  }

  lemma FollowsSelf(d: Delivery, out: seq<byte>)
    ensures Prepend([], d) == d && Follows(d, out, d, out)
  {
  }

  lemma PrependTwice(a: seq<byte>, b: seq<byte>, d: Delivery)
    ensures Prepend(a, Prepend(b, d)) == Prepend(a + b, d)
  {
    assert a + (b + d.content) == a + b + d.content;
  }

  lemma FollowsPrefix(str: seq<byte>, d: Delivery, out1: seq<byte>, r: Delivery, out: seq<byte>)
    requires Follows(Prepend(str, d), out1, r, out)
    ensures |r.content| == |str| + |d.content| && str == r.content[..|str|]
    ensures out1 + d.replies == out + r.replies
    ensures d.end == r.end || (d.end.Confined() && r.end.Confined())
  {
  }

  lemma FollowsThrough(str: seq<byte>, d1: Delivery, out1: seq<byte>, d: Delivery, out0: seq<byte>, r: Delivery, out: seq<byte>)
    requires Follows(d1, out1, d, out0) && d.content != [] && Follows(Prepend(str, d), out0, r, out)
    ensures Follows(Prepend(str, d1), out1, r, out)
  {
  }

  lemma FollowsTaken(str: seq<byte>, d: Delivery, r: Delivery, out: seq<byte>)
    requires Prepend(str, d) == r
    ensures Follows(Prepend(str, d), out, r, out) && str == r.content[..|str|]
  {
  }

  lemma FollowsOn(d1: Delivery, d: Delivery, out1: seq<byte>, r: Delivery, out: seq<byte>)
    requires SameAhead(d1, d) && Follows(d, out1, r, out)
    ensures Follows(d1, out1, r, out)
  {
  }

  lemma SkipStep(w: seq<byte>, c: nat, p: nat, ctx: Context, k: nat)
    requires 0 < k <= c && k <= |w|
    ensures
      SameAhead(Deliver(w[k..], c - k, p, c - k > 0, ctx), Deliver(w, c, p, true, ctx))
  {
    if !ctx.eorStop { SkipBite(w, c, p, ctx, k); }
  }

  lemma PadStep(w: seq<byte>, p: nat, skip: bool, ctx: Context, k: nat)
    requires 0 < k <= p && k <= |w|
    ensures
      SameAhead(Deliver(w[k..], 0, p - k, skip, ctx), Deliver(w, 0, p, skip, ctx))
  {
    if !ctx.eorStop { PadBite(w, p, skip, ctx, k); }
  }
}
