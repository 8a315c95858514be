/** What a FastCGI reader makes of the bytes on the wire, independently of how the operating
    system cuts them into pieces, and what that means for a wire made of records. */
module Deframing {
  import opened Basics
  import opened Wire

  const UNSUPPORTED_VERSION := -2
  const PROTOCOL_ERROR := -3
  const PARAMS_ERROR := -4
  /** Stands for the answer to a GET_VALUES record, which is not part of this model. */
  const GET_VALUES_SEEN := -100

  /** The reader's view of its request: id, whether BEGIN_REQUEST was seen, the record type it
      delivers, and whether it is confined to the current record (eorStop). */
  datatype Context = Context(id: int, begun: bool, rtype: int, eorStop: bool)

  /** Why delivery stopped. Eof and Begun carry the unread bytes and the unread padding; a reader
      confined to one record stops at its end (RecordEnd, with the content that had not arrived) or,
      when that record's content is not for the client, has nothing to deliver (Discarded). */
  datatype End =
    | Eof(rest: seq<byte>, pad: nat)
    | Begun(id: nat, role: nat, keep: bool, rest: seq<byte>, pad: nat)
    | Failed(code: int)
    | RecordEnd(rest: seq<byte>, left: nat, pad: nat)
    | Discarded
  {
    predicate Confined() { RecordEnd? || Discarded? }
  }

  /** The bytes handed to the client, the bytes sent back to the server, and the end. */
  datatype Delivery = Delivery(content: seq<byte>, replies: seq<byte>, end: End)

  function Prepend(c: seq<byte>, d: Delivery): Delivery {
    d.(content := c + d.content)
  }

  function Reply(r: seq<byte>, d: Delivery): Delivery {
    d.(replies := r + d.replies)
  }

  function CantMultiplex(id: int): seq<byte> {
    MakeHeader(END_REQUEST, id, 8, 0) + MakeEndRequestBody(0, CANT_MPX_CONN)
  }

  function UnknownType(rtype: byte): seq<byte> {
    MakeHeader(UNKNOWN_TYPE, NULL_REQUEST_ID, 8, 0) + MakeUnknownTypeBody(rtype)
  }

  /** What a header asks of the reader. */
  datatype Verdict = Bad(code: int) | Accept | Multiplexed | Management | Foreign | Stream

  function Classify(h: Header, ctx: Context): Verdict {
    if h.version != VERSION_1 then Bad(UNSUPPORTED_VERSION)
    else if h.rtype == BEGIN_REQUEST then
      if h.requestId == 0 || h.contentLength != 8 then Bad(PROTOCOL_ERROR)
      else if ctx.begun then Multiplexed
      else Accept
    else if h.requestId == NULL_REQUEST_ID then
      if h.rtype == GET_VALUES then Bad(GET_VALUES_SEEN) else Management
    else if h.requestId != ctx.id then Foreign
    else if h.rtype as int != ctx.rtype then Bad(PROTOCOL_ERROR)
    else Stream
  }

  /******* What a record is to a stream, by its type and id alone *******/

  /** A record of the stream itself. */
  predicate IsOwn(rtype: byte, id: nat, ctx: Context) {
    id == ctx.id && rtype as int == ctx.rtype && id != NULL_REQUEST_ID && rtype != BEGIN_REQUEST
  }

  /** A record of another request. */
  predicate IsForeign(rtype: byte, id: nat, ctx: Context) {
    id !in {NULL_REQUEST_ID, ctx.id} && rtype != BEGIN_REQUEST
  }

  /** A record of the request, but of another of its streams. */
  predicate IsAstray(rtype: byte, id: nat, ctx: Context) {
    id == ctx.id && rtype as int != ctx.rtype && id != NULL_REQUEST_ID && rtype != BEGIN_REQUEST
  }

  /** A record about the connection. */
  predicate IsManagement(rtype: byte, id: nat) {
    id == NULL_REQUEST_ID && rtype !in {BEGIN_REQUEST, GET_VALUES}
  }

  /** A record that begins a request; its body has eight bytes. */
  predicate IsBegin(rtype: byte, id: nat, length: nat) {
    rtype == BEGIN_REQUEST && id != NULL_REQUEST_ID && length == 8
  }

  /** The order of the reader's tests comes to this; every header of the right version is one of these. */
  lemma ClassifyIs(h: Header, ctx: Context)
    ensures Classify(h, ctx) ==
      if h.version != VERSION_1 then Bad(UNSUPPORTED_VERSION)
      else if IsOwn(h.rtype, h.requestId, ctx) then Stream
      else if IsForeign(h.rtype, h.requestId, ctx) then Foreign
      else if IsManagement(h.rtype, h.requestId) then Management
      else if IsBegin(h.rtype, h.requestId, h.contentLength) then (if ctx.begun then Multiplexed else Accept)
      else if h.rtype == GET_VALUES && h.requestId == NULL_REQUEST_ID then Bad(GET_VALUES_SEEN)
      else Bad(PROTOCOL_ERROR)
    ensures IsAstray(h.rtype, h.requestId, ctx) && h.version == VERSION_1 ==> Classify(h, ctx) == Bad(PROTOCOL_ERROR)
  {
  }

  /** The fate of the bytes w when c bytes of content and p of padding are left of the current
      record; skip says that the next content bytes are not for the client. */
  function Deliver(w: seq<byte>, c: nat, p: nat, skip: bool, ctx: Context): (d: Delivery)
    ensures ctx.begun || ctx.eorStop ==> !d.end.Begun?
    ensures !ctx.eorStop ==> !d.end.Confined()
    decreases |w|, 0
  {
    if ctx.eorStop then
      if skip then Delivery([], [], Discarded)
      else var k := Min(c, |w|); Delivery(w[..k], [], RecordEnd(w[k..], c - k, p))
    else if w == [] then Delivery([], [], Failed(PROTOCOL_ERROR))
    else if c > 0 then
      var k := Min(c, |w|);
      if skip then Deliver(w[k..], c - k, p, c - k > 0, ctx)
      else Prepend(w[..k], Deliver(w[k..], c - k, p, false, ctx))
    else if p > 0 then
      var k := Min(p, |w|);
      Deliver(w[k..], 0, p - k, skip, ctx)
    else if |w| < HEADER_LEN then Delivery([], [], Failed(PROTOCOL_ERROR))
    else DeliverHeader(DecodeHeader(w[..8]), w[8..], skip, ctx)
  }

  function DeliverHeader(h: Header, w: seq<byte>, skip: bool, ctx: Context): (d: Delivery)
    requires !ctx.eorStop
    ensures ctx.begun ==> !d.end.Begun?
    ensures !d.end.Confined()
    decreases |w|, 1
  {
    match Classify(h, ctx)
    case Bad(code) => Delivery([], [], Failed(code))
    case Accept =>
      if skip || |w| < 8 then Delivery([], [], Failed(PROTOCOL_ERROR))
      else Delivery([], [], Begun(h.requestId, Word(w[0], w[1]), w[2] % 2 == 1, w[8..], h.paddingLength))
    case Multiplexed => Reply(CantMultiplex(h.requestId), Deliver(w, h.contentLength, h.paddingLength, true, ctx))
    case Management => Reply(UnknownType(h.rtype), Deliver(w, h.contentLength, h.paddingLength, skip, ctx))
    case Foreign => Deliver(w, h.contentLength, h.paddingLength, true, ctx)
    case Stream =>
      if h.contentLength == 0 then Delivery([], [], Eof(w, h.paddingLength))
      else Deliver(w, h.contentLength, h.paddingLength, skip, ctx)
  }

  /** No more bytes: the stream fails, unless it is only the current record that ends. */
  lemma Exhausted(w: seq<byte>, c: nat, p: nat, skip: bool, ctx: Context)
    requires w == [] || (|w| < HEADER_LEN && c == 0 && p == 0 && !ctx.eorStop)
    ensures var d := Deliver(w, c, p, skip, ctx);
      d.content == [] && d.replies == [] && if ctx.eorStop then d.end.Confined() else d.end == Failed(PROTOCOL_ERROR)
  {
  }

  lemma RecordOver(w: seq<byte>, skip: bool, ctx: Context)
    requires ctx.eorStop
    ensures var d := Deliver(w, 0, 0, skip, ctx); d.content == [] && d.replies == [] && d.end.Confined()
  {
  }

  /** The body of a BEGIN_REQUEST record, for a reader confined to it. */
  lemma BodyDelivery(w: seq<byte>, p: nat, skip: bool, ctx: Context)
    requires ctx.eorStop
    ensures var d := Deliver(w, 8, p, skip, ctx);
      && d.replies == [] && d.end.Confined()
      && if skip || |w| < 8 then |d.content| < 8 else d.content == w[..8] && d.end == RecordEnd(w[8..], 0, p)
  {
  }

  lemma HeaderStep(w: seq<byte>, h: Header, rest: seq<byte>, skip: bool, ctx: Context)
    requires !ctx.eorStop && |w| >= 8 && DecodeHeader(w[..8]) == h && w[8..] == rest
    ensures Deliver(w, 0, 0, skip, ctx) == DeliverHeader(h, rest, skip, ctx)
  {
  }

  /******* Taking the current record in smaller bites changes nothing *******/

  lemma ContentBite(w: seq<byte>, c: nat, p: nat, ctx: Context, k: nat)
    requires k <= c && k <= |w|
    ensures Deliver(w, c, p, false, ctx) == Prepend(w[..k], Deliver(w[k..], c - k, p, false, ctx))
  {
    var m := Min(c, |w|);
    assert w[..k] + w[k..][..m - k] == w[..m];
    assert w[k..][m - k..] == w[m..];
    if k == 0 { assert w[k..] == w; }
  }

  lemma SkipBite(w: seq<byte>, c: nat, p: nat, ctx: Context, k: nat)
    requires 0 < k <= c && k <= |w| && !ctx.eorStop
    ensures Deliver(w, c, p, true, ctx) == Deliver(w[k..], c - k, p, c - k > 0, ctx)
  {
    var m := Min(c, |w|);
    assert w[k..][m - k..] == w[m..];
  }

  lemma PadBite(w: seq<byte>, p: nat, skip: bool, ctx: Context, k: nat)
    requires k <= p && k <= |w| && !ctx.eorStop
    ensures Deliver(w, 0, p, skip, ctx) == Deliver(w[k..], 0, p - k, skip, ctx)
  {
    var m := Min(p, |w|);
    assert w[k..][m - k..] == w[m..];
    if k == 0 { assert w[k..] == w; }
  }
}
