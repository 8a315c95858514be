/** SetReaderType forgets padding that has not been read (fcgi/libfcgi/fcgiapp.c): its bytes are taken
    for records. When does that do harm? */
module Padding {
  import opened Basics
  import opened Wire
  import opened Deframing
  import opened DeframingTheorem

  /** SetReaderType forgets padding that has not been read, so its bytes are taken for a header. When
      they cannot be one, the stream that follows is read as it was sent if and only if there are none. */
  lemma SwitchIffUnpadded(padding: seq<byte>, tail: seq<byte>, ctx: Context)
    requires !ctx.eorStop && Deliver(tail, 0, 0, false, ctx).end.Eof?
    requires padding == [] || padding[0] != VERSION_1
    ensures Deliver(padding + tail, 0, 0, false, ctx) == Deliver(tail, 0, 0, false, ctx) <==> padding == []
  {
    var w := padding + tail;
    if padding == [] {
      assert w == tail;
    } else {
      NotAHeader(w, ctx);
    }
  }

  lemma NotAHeader(w: seq<byte>, ctx: Context)
    requires w != [] && w[0] != VERSION_1 && !ctx.eorStop
    ensures var d := Deliver(w, 0, 0, false, ctx); d == Delivery([], [], Failed(if |w| < HEADER_LEN then PROTOCOL_ERROR else UNSUPPORTED_VERSION))
  {
    if |w| >= 8 {
      assert w[..8][0] == w[0];
      assert Deliver(w, 0, 0, false, ctx) == DeliverHeader(DecodeHeader(w[..8]), w[8..], false, ctx);
    }
  }

  /** Padding that looks like records of other requests, each with content, does no harm. */
  lemma {:induction false} HarmlessPadding(rs: seq<Record>, tail: seq<byte>, ctx: Context)
    requires AllValid(rs) && ctx.begun && !ctx.eorStop
    requires forall r :: r in rs ==> OfOthers(r, ctx) && r.content != []
    ensures Deliver(EncodeRecords(rs) + tail, 0, 0, false, ctx) == Deliver(tail, 0, 0, false, ctx)
  {
    hide EncodeRecord, Deliver;
    if rs == [] {
      assert [] + tail == tail;
    } else {
      var more := EncodeRecords(rs[1..]) + tail;
      assert EncodeRecords(rs) + tail == EncodeRecord(rs[0]) + more;
      assert rs[0] in rs;
      RecordStep(rs[0], more, false, ctx);
      HarmlessPadding(rs[1..], tail, ctx);
      NothingAdded(Deliver(tail, 0, 0, false, ctx));
    }
  }

  lemma NothingAdded(d: Delivery)
    ensures Reply([], Prepend([], d)) == d
  {
  }

  /******* Exactly the padding that never does harm *******/

  /** The header of a record that is passed over: one of another request, or one of the stream with
      content that is to be dropped. */
  predicate PassedOver(h: Header, skip: bool, ctx: Context) {
    h.version == VERSION_1
    && (IsForeign(h.rtype, h.requestId, ctx) || (IsOwn(h.rtype, h.requestId, ctx) && h.contentLength > 0 && skip))
  }

  /** Read as records, the bytes are complete records of other requests, or own content that an empty
      one makes the reader drop; and no such drop is left over. */
  predicate Ignored(p: seq<byte>, skip: bool, ctx: Context)
    decreases |p|
  {
    if p == [] then !skip
    else if |p| < HEADER_LEN then false
    else
      var h := DecodeHeader(p[..8]);
      var n := 8 + h.contentLength + h.paddingLength;
      n <= |p| && PassedOver(h, skip, ctx) && Ignored(p[n..], h.contentLength == 0, ctx)
  }

  /** A stream with nothing but its end, and one with a byte before it. */
  function EmptyStream(ctx: Context): seq<byte>
    requires Facing(ctx)
  {
    EncodeRecord(Record(ctx.rtype, ctx.id, [], []))
  }

  function ByteStream(ctx: Context): seq<byte>
    requires Facing(ctx)
  {
    EncodeRecord(Record(ctx.rtype, ctx.id, [0], [])) + EmptyStream(ctx)
  }

  /** A reader of a stream of a request that has begun. */
  predicate Facing(ctx: Context) {
    ctx.begun && !ctx.eorStop && 0 < ctx.id <= 0xffff && 0 <= ctx.rtype < 256 && ctx.rtype != BEGIN_REQUEST as int
  }

  lemma EmptyStreamIs(ctx: Context)
    requires Facing(ctx)
    ensures |EmptyStream(ctx)| == 8
    ensures Deliver(EmptyStream(ctx), 0, 0, false, ctx) == Delivery([], [], Eof([], 0))
  {
    var eof := Record(ctx.rtype, ctx.id, [], []);
    hide EncodeRecord, Deliver;
    StopStep(eof, [], false, ctx);
    assert EncodeRecord(eof) + [] == EncodeRecord(eof);
  }

  lemma ByteStreamIs(ctx: Context)
    requires Facing(ctx)
    ensures Deliver(ByteStream(ctx), 0, 0, false, ctx) == Delivery([0], [], Eof([], 0))
    ensures Deliver(ByteStream(ctx), 0, 0, true, ctx) == Delivery([], [], Eof([], 0))
  {
    hide EncodeRecord, Deliver;
    EmptyStreamIs(ctx);
    RecordStep(Record(ctx.rtype, ctx.id, [0], []), EmptyStream(ctx), false, ctx);
    RecordStep(Record(ctx.rtype, ctx.id, [0], []), EmptyStream(ctx), true, ctx);
  }

  /** Ignored bytes make no difference to whatever follows. */
  lemma {:induction false} IgnoredIsHarmless(p: seq<byte>, skip: bool, tail: seq<byte>, ctx: Context)
    requires Facing(ctx) && Ignored(p, skip, ctx)
    ensures Deliver(p + tail, 0, 0, skip, ctx) == Deliver(tail, 0, 0, false, ctx)
    decreases |p|
  {
    if p == [] {
      assert p + tail == tail;
    } else {
      var h := DecodeHeader(p[..8]);
      var n := 8 + h.contentLength + h.paddingLength;
      hide Deliver, DecodeHeader;
      Skipped(p, skip, tail, ctx);
      IgnoredIsHarmless(p[n..], h.contentLength == 0, tail, ctx);
    }
  }

  /** One complete record whose content is not for the client. */
  lemma Skipped(p: seq<byte>, skip: bool, tail: seq<byte>, ctx: Context)
    requires Facing(ctx) && |p| >= 8
    requires var h := DecodeHeader(p[..8]);
      && 8 + h.contentLength + h.paddingLength <= |p|
      && PassedOver(h, skip, ctx)
    ensures var h := DecodeHeader(p[..8]);
      var rest := p[8 + h.contentLength + h.paddingLength..];
      Deliver(p + tail, 0, 0, skip, ctx) == Deliver(rest + tail, 0, 0, h.contentLength == 0, ctx)
  {
    var h := DecodeHeader(p[..8]);
    hide DecodeHeader;
    var n, m := h.contentLength, h.paddingLength;
    Parts(p, tail, n, m);
    hide Deliver;
    SkippedRecord(p + tail, h, p[8..8 + n], p[8 + n..8 + n + m], p[8 + n + m..] + tail, skip, ctx);
  }

  lemma SkippedRecord(w: seq<byte>, h: Header, c: seq<byte>, pad: seq<byte>, rest: seq<byte>, skip: bool, ctx: Context)
    requires Facing(ctx) && PassedOver(h, skip, ctx) && h.contentLength == |c| && h.paddingLength == |pad|
    requires |w| >= 8 && DecodeHeader(w[..8]) == h && w[8..] == c + pad + rest
    ensures Deliver(w, 0, 0, skip, ctx) == Deliver(rest, 0, 0, c == [], ctx)
  {
    hide Deliver, DeliverHeader, PassedOver, DecodeHeader;
    HeaderStep(w, h, w[8..], skip, ctx);
    SkippedHeader(h, w[8..], skip, ctx);
    BodyStep(c, pad, rest, true, ctx);
  }

  lemma Parts(p: seq<byte>, tail: seq<byte>, n: nat, m: nat)
    requires 8 + n + m <= |p|
    ensures (p + tail)[..8] == p[..8]
    ensures (p + tail)[8..] == p[8..8 + n] + p[8 + n..8 + n + m] + (p[8 + n + m..] + tail)
  {
  }

  lemma SkippedHeader(h: Header, w: seq<byte>, skip: bool, ctx: Context)
    requires Facing(ctx) && PassedOver(h, skip, ctx)
    ensures DeliverHeader(h, w, skip, ctx) == Deliver(w, h.contentLength, h.paddingLength, true, ctx)
  {
    ClassifyIs(h, ctx);
    hide Classify, Deliver;
  }

  /** A stream that ends takes at least the rest of its record and one more header. */
  lemma {:induction false} EndNeeds(w: seq<byte>, c: nat, p: nat, skip: bool, ctx: Context)
    requires !ctx.eorStop
    ensures var d := Deliver(w, c, p, skip, ctx); d.end.Eof? ==> |w| >= c + p + 8 + |d.end.rest|
    decreases |w|, 0
  {
    if w == [] {
    } else if c > 0 {
      var k := Min(c, |w|);
      EndNeeds(w[k..], c - k, p, skip && c - k > 0, ctx);
    } else if p > 0 {
      var k := Min(p, |w|);
      EndNeeds(w[k..], 0, p - k, skip, ctx);
    } else if |w| >= 8 {
      hide DecodeHeader;
      HeaderNeeds(DecodeHeader(w[..8]), w[8..], skip, ctx);
    }
  }

  lemma {:induction false} HeaderNeeds(h: Header, w: seq<byte>, skip: bool, ctx: Context)
    requires !ctx.eorStop
    ensures var d := DeliverHeader(h, w, skip, ctx);
      d.end.Eof? ==>
        if IsOwn(h.rtype, h.requestId, ctx) && h.contentLength == 0 then d.end.rest == w
        else |w| >= h.contentLength + h.paddingLength + 8 + |d.end.rest|
    decreases |w|, 1
  {
    hide Deliver;
    EndNeeds(w, h.contentLength, h.paddingLength, true, ctx);
    EndNeeds(w, h.contentLength, h.paddingLength, skip, ctx);
  }

  /** Bytes that are no complete record swallow the end of the stream behind them. */
  lemma IncompleteHarms(p: seq<byte>, skip: bool, ctx: Context)
    requires Facing(ctx) && p != []
    requires |p| >= 8 ==> var h := DecodeHeader(p[..8]); 8 + h.contentLength + h.paddingLength > |p|
    ensures Deliver(p + EmptyStream(ctx), 0, 0, skip, ctx) != Delivery([], [], Eof([], 0))
  {
    EmptyStreamIs(ctx);
    var w := p + EmptyStream(ctx);
    hide EmptyStream, DecodeHeader;
    var h := DecodeHeader(w[..8]);
    if |p| >= 8 { assert w[..8] == p[..8]; }
    HeaderStep(w, h, w[8..], skip, ctx);
    hide Deliver, DeliverHeader;
    HeaderNeeds(h, w[8..], skip, ctx);
  }

  /** A complete record that is answered, delivered, faulty or the end of the stream is noticed. */
  lemma LoudHarms(p: seq<byte>, skip: bool, ctx: Context)
    requires Facing(ctx) && |p| >= 8
    requires var h := DecodeHeader(p[..8]);
      && 8 + h.contentLength + h.paddingLength <= |p|
      && !PassedOver(h, skip, ctx)
    ensures Deliver(p + EmptyStream(ctx), 0, 0, skip, ctx) != Delivery([], [], Eof([], 0))
  {
    EmptyStreamIs(ctx);
    var w, h := p + EmptyStream(ctx), DecodeHeader(p[..8]);
    hide EmptyStream, DecodeHeader, Deliver;
    assert w[..8] == p[..8];
    HeaderStep(w, h, w[8..], skip, ctx);
    LoudHeader(h, w[8..], skip, ctx);
  }

  lemma LoudHeader(h: Header, w: seq<byte>, skip: bool, ctx: Context)
    requires Facing(ctx) && w != [] && !PassedOver(h, skip, ctx)
    ensures DeliverHeader(h, w, skip, ctx) != Delivery([], [], Eof([], 0))
  {
    ClassifyIs(h, ctx);
    hide Classify, Deliver;
    if IsOwn(h.rtype, h.requestId, ctx) && h.contentLength > 0 && !skip {
      ContentBite(w, h.contentLength, h.paddingLength, ctx, 1);
    }
    assert |CantMultiplex(h.requestId)| > 0 && |UnknownType(h.rtype)| > 0;
  }

  lemma {:induction false} NotIgnoredHarms(p: seq<byte>, skip: bool, ctx: Context)
    requires Facing(ctx) && !Ignored(p, skip, ctx)
    ensures Deliver(p + EmptyStream(ctx), 0, 0, skip, ctx) != Delivery([], [], Eof([], 0))
         || Deliver(p + ByteStream(ctx), 0, 0, skip, ctx) == Delivery([], [], Eof([], 0))
    decreases |p|
  {
    if p == [] {
      ByteStreamIs(ctx);
      assert p + ByteStream(ctx) == ByteStream(ctx);
    } else if |p| < 8 {
      IncompleteHarms(p, skip, ctx);
    } else {
      var h := DecodeHeader(p[..8]);
      var n := 8 + h.contentLength + h.paddingLength;
      hide Deliver, DecodeHeader, EmptyStream, ByteStream;
      if n > |p| {
        IncompleteHarms(p, skip, ctx);
      } else if PassedOver(h, skip, ctx) {
        Skipped(p, skip, EmptyStream(ctx), ctx);
        Skipped(p, skip, ByteStream(ctx), ctx);
        NotIgnoredHarms(p[n..], h.contentLength == 0, ctx);
      } else {
        LoudHarms(p, skip, ctx);
      }
    }
  }

  /** The stream in tail is read as it was sent, although p stands before it. */
  ghost predicate Unharmed(p: seq<byte>, tail: seq<byte>, ctx: Context) {
    Deliver(p + tail, 0, 0, false, ctx) == Deliver(tail, 0, 0, false, ctx)
  }

  /** Unread padding does no harm to any stream that may follow if and only if it is ignored. */
  lemma SwitchIff(p: seq<byte>, ctx: Context)
    requires Facing(ctx)
    ensures Ignored(p, false, ctx) <==>
      forall tail :: Deliver(tail, 0, 0, false, ctx).end.Eof? ==> Unharmed(p, tail, ctx)
  {
    hide Deliver, EmptyStream, ByteStream, Ignored;
    if Ignored(p, false, ctx) {
      forall tail | Deliver(tail, 0, 0, false, ctx).end.Eof? ensures Unharmed(p, tail, ctx) {
        IgnoredIsHarmless(p, false, tail, ctx);
      }
    } else {
      NotIgnoredHarms(p, false, ctx);
      EmptyStreamIs(ctx);
      ByteStreamIs(ctx);
      assert !Unharmed(p, EmptyStream(ctx), ctx) || !Unharmed(p, ByteStream(ctx), ctx);
    }
  }
}
