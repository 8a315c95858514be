/** Accepting a request on an open connection (the body of FCGX_Accept_r's loop): the begin record,
    the environment from the params stream, and the reader left at the start of standard input. */
module Acceptance {
  import opened Basics
  import opened Wire
  import opened Deframing
  import opened DeframingTheorem
  import opened Transport
  import opened NameValues
  import opened Params
  import opened Framing
  import opened Padding
  import R = Reader
  import W = Writer

  const RESPONDER := 1
  const AUTHORIZER := 2
  const FILTER := 3

  function Ascii(s: string): seq<byte> {
    seq(|s|, i requires 0 <= i < |s| => s[i] as int % 256)
  }

  function RoleEntry(role: nat): seq<byte> {
    if role == RESPONDER then Ascii("FCGI_ROLE=RESPONDER")
    else if role == AUTHORIZER then Ascii("FCGI_ROLE=AUTHORIZER")
    else Ascii("FCGI_ROLE=FILTER")
  }

  /** The outcome for a wire: the request, its environment, how its params stream ended, and what was
      answered on the way. */
  datatype Outcome = Rejected | Accepted(id: nat, role: nat, keep: bool, env: seq<seq<byte>>, params: End, replies: seq<byte>)

  function Accept(wire: seq<byte>, id0: int): Outcome {
    Concluded(Deliver(wire, 0, 0, false, Waiting(id0)))
  }

  /** What the delivery to the waiting reader leads to. */
  function Concluded(d: Delivery): Outcome {
    if d.content != [] || !d.end.Begun? || d.end.role !in {RESPONDER, AUTHORIZER, FILTER} then Rejected
    else
      var p := Deliver(d.end.rest, 0, 0, false, Context(d.end.id, true, PARAMS as int, false));
      var ps := DecodePairs(p.content);
      if !ps.ok then Rejected
      else Accepted(d.end.id, d.end.role, d.end.keep, [RoleEntry(d.end.role)] + EntriesOf(ps.pairs), p.end,
                    d.replies + p.replies)
  }

  /** The request fields, environment, reader and replies that an accepted outcome demands; out had been
      written before. */
  ghost predicate Established(a: Outcome, request: Request, input: R.Stream, params: Params, out: seq<byte>)
    requires a.Accepted?
    reads request, request.socket, input, input.buff, input.request, input.request.socket, params, params.vec
  {
    && request.socket.outgoing == out + a.replies
    && params.Valid() && params.Entries() == a.env
    && request.requestId == a.id && request.role == a.role && request.keepConnection == a.keep
    && input.request == request && input.Valid() && !input.isClosed && input.rtype == STDIN as int
    && (a.params.Eof? ==>
          input.Rest() == Deliver(a.params.rest, 0, 0, false, Context(a.id, true, STDIN as int, false)))
  }

  /** One pass of FCGX_Accept_r's loop and, if it succeeds, the writers of the request; the flags say
      which buffers had to be aligned. */
  method AcceptRequest(request: Request, misaligned: bool, outMisaligned: bool, errMisaligned: bool)
      returns (ok: bool, input: R.Stream, params: Params, out: W.Stream?, err: W.Stream?)
    modifies request, request.socket
    ensures var a := Accept(old(request.socket.incoming), old(request.requestId));
      ok == a.Accepted? && (ok ==> Established(a, request, input, params, old(request.socket.outgoing)))
    ensures ok ==>
      && request.nWriters == 2 && out != null && err != null && out != err && out.buff != err.buff
      && out.request == err.request == request && out.Valid() && err.Valid()
      && out.State() == Out(STDOUT, out.buff.Length - 8, [], false, false)
      && err.State() == Out(STDERR, err.buff.Length - 8, [], false, false)
  {
    hide Deliver, Accept;
    out, err := null, null;
    ok, input, params := AcceptOnce(request, misaligned);
    if ok {
      out := new W.Stream(request, 8192, outMisaligned, STDOUT);
      err := new W.Stream(request, 512, errMisaligned, STDERR);
      request.nWriters := 2;
    }
  }

  method AcceptOnce(request: Request, misaligned: bool) returns (ok: bool, input: R.Stream, params: Params)
    modifies request, request.socket
    ensures var a := Accept(old(request.socket.incoming), old(request.requestId));
      ok == a.Accepted? && (ok ==> Established(a, request, input, params, old(request.socket.outgoing)))
  {
    hide Deliver, DecodePairs, EntriesOf, RoleEntry;
    ok := false;
    params := new Params(30);
    request.isBeginProcessed := false;
    input := ReceiveBegin(request, misaligned);
    if !request.isBeginProcessed { return; }
    if request.role !in {RESPONDER, AUTHORIZER, FILTER} { return; }
    params.PutParam(RoleEntry(request.role));
    ok := ReadEnvironment(input, params);
  }

  method ReceiveBegin(request: Request, misaligned: bool) returns (input: R.Stream)
    requires !request.isBeginProcessed
    modifies request, request.socket
    ensures fresh(input) && fresh(input.buff) && input.request == request && input.Valid()
    ensures var d := Deliver(old(request.socket.incoming), 0, 0, false, Waiting(old(request.requestId)));
      && request.isBeginProcessed == (d.content == [] && d.end.Begun?)
      && (request.isBeginProcessed ==>
            && input.Unread() == d.end.rest && !input.isClosed
            && request.socket.outgoing == old(request.socket.outgoing) + d.replies
            && request.requestId == d.end.id && request.role == d.end.role && request.keepConnection == d.end.keep)
  {
    hide Deliver;
    input := new R.Stream(request, 8192, misaligned, 0);
    input.FillBuffProc();
  }

  /** The params stream, and then the switch to standard input. */
  method ReadEnvironment(input: R.Stream, params: Params) returns (ok: bool)
    requires input.Valid() && input.request.isBeginProcessed && params.Valid()
    modifies input, input.buff, input.request, input.request.socket, params, params.vec
    ensures unchanged(input.request) && params.Valid() && input.Valid()
    ensures
      var d := Deliver(old(input.Unread()), 0, 0, false, Context(input.request.requestId, true, PARAMS as int, false));
      var ps := DecodePairs(d.content);
      && ok == ps.ok && params.Entries() == old(params.Entries()) + EntriesOf(ps.pairs)
      && (ok ==> !input.isClosed && input.rtype == STDIN as int)
      && (ok ==> input.request.socket.outgoing == old(input.request.socket.outgoing) + d.replies)
      && (ok && d.end.Eof? ==>
            input.Rest() == Deliver(d.end.rest, 0, 0, false, Context(input.request.requestId, true, STDIN as int, false)))
  {
    hide Deliver, DecodePairs, EntriesOf;
    input.SetReaderType(PARAMS as int);
    var r := ReadParams(params, input);
    ok := r >= 0;
    if ok { input.SetReaderType(STDIN as int); }
  }

  /** The reader that waits for a begin record. */
  function Waiting(id0: int): Context { Context(id0, false, 0, false) }

  lemma BeginStep(begin: Record, tail: seq<byte>, skip: bool, id0: int)
    requires begin.Valid() && begin.rtype == BEGIN_REQUEST && begin.id != 0 && |begin.content| == 8
    ensures Deliver(EncodeRecord(begin) + tail, 0, 0, skip, Waiting(id0))
         == Delivery([], [], if skip then Failed(PROTOCOL_ERROR)
                             else Begun(begin.id, BigEndian(begin.content[..2]), begin.content[2] % 2 == 1,
                                        begin.padding + tail, |begin.padding|))
  {
    hide EncodeRecord, DecodeHeader;
    var w := begin.content + begin.padding + tail;
    EncodedRecord(begin, tail);
    HeaderStep(EncodeRecord(begin) + tail, HeaderOf(begin), w, skip, Waiting(id0));
    WordIs(w);
    assert w[..2] == begin.content[..2];
    assert w[8..] == begin.padding + tail;
  }

  /** The roles by their numbers (section 5.1 of the FastCGI Specification 1.0). */
  function RoleName(role: nat): string {
    if role == 1 then "RESPONDER" else if role == 2 then "AUTHORIZER" else "FILTER"
  }

  /** An accepted request has one of the three roles, and its environment tells which. */
  lemma RoleIsFound(wire: seq<byte>, id0: int)
    requires Accept(wire, id0).Accepted?
    ensures var a := Accept(wire, id0);
      a.role in {1, 2, 3} && Lookup(Ascii("FCGI_ROLE"), a.env) == Str(Ascii(RoleName(a.role)))
  {
    var a := Accept(wire, id0);
    hide Deliver, DecodePairs, RoleEntry, Ascii, RoleName, Entry, Lookup;
    assert a.env[0] == RoleEntry(a.role);
    RoleEntryIs(a.role);
    NamedFirst(Ascii("FCGI_ROLE"), Ascii(RoleName(a.role)), a.env);
  }

  lemma RoleEntryIs(role: nat)
    requires role in {1, 2, 3}
    ensures RoleEntry(role) == Entry(Pair(Ascii("FCGI_ROLE"), Ascii(RoleName(role))))
    ensures 0 !in Ascii("FCGI_ROLE") && 0 !in Ascii(RoleName(role))
  {
    hide Ascii;
    assert RoleEntry(role) == Ascii("FCGI_ROLE" + "=" + RoleName(role)) by {
      assert "FCGI_ROLE" + "=" + "RESPONDER" == "FCGI_ROLE=RESPONDER";
      assert "FCGI_ROLE" + "=" + "AUTHORIZER" == "FCGI_ROLE=AUTHORIZER";
      assert "FCGI_ROLE" + "=" + "FILTER" == "FCGI_ROLE=FILTER";
    }
    AsciiOfEntry("FCGI_ROLE", RoleName(role));
    AsciiHasNoNul("FCGI_ROLE");
    AsciiHasNoNul(RoleName(role));
  }

  lemma AsciiOfEntry(name: string, value: string)
    ensures Ascii(name + "=" + value) == Entry(Pair(Ascii(name), Ascii(value)))
  {
  }

  lemma AsciiHasNoNul(s: string)
    requires forall i :: 0 <= i < |s| ==> 'A' <= s[i] <= '_'
    ensures 0 !in Ascii(s)
  {
  }

  lemma NamedFirst(name: seq<byte>, value: seq<byte>, env: seq<seq<byte>>)
    requires 0 !in name && 0 !in value && env != [] && env[0] == Entry(Pair(name, value))
    ensures Lookup(name, env) == Str(value)
  {
    hide CString;
    MatchesIff(name, Pair(name, value));
    CStringOfEntry(Pair(name, value));
    CStringOfPlain(value);
    assert CString(env[0])[|name| + 1..] == value;
  }

  /** What the params stream p makes of a request that has begun. */
  function AfterBegin(begin: Record, p: Delivery): Outcome
    requires |begin.content| == 8
  {
    var role, ps := BigEndian(begin.content[..2]), DecodePairs(p.content);
    if role !in {RESPONDER, AUTHORIZER, FILTER} || !ps.ok then Rejected
    else Accepted(begin.id, role, begin.content[2] % 2 == 1, [RoleEntry(role)] + EntriesOf(ps.pairs), p.end, p.replies)
  }

  function Answered(replies: seq<byte>, a: Outcome): Outcome {
    if a.Accepted? then a.(replies := replies + a.replies) else a
  }

  /** Records before the begin record: the request is rejected if and only if one of them has content that
      reaches the client, or an empty one of another request makes the reader drop the begin body. Otherwise
      they are answered, and the outcome is as without them. */
  lemma AcceptBehind(pre: seq<Record>, begin: Record, tail: seq<byte>, id0: int)
    requires AllValid(pre) && NoneStop(pre, Waiting(id0))
    requires begin.Valid() && begin.rtype == BEGIN_REQUEST && begin.id != 0 && |begin.content| == 8
    ensures Accept(EncodeRecords(pre) + (EncodeRecord(begin) + tail), id0)
         == if Delivered(pre, false, Waiting(id0)) != [] || Masked(pre, |pre|, false, Waiting(id0)) then Rejected
            else Answered(Replies(pre, Waiting(id0)), Accept(EncodeRecord(begin) + tail, id0))
  {
    hide EncodeRecord, EncodeRecords, Deliver, Concluded, Delivered, Contents, Replies, Masked, SkipAtEnd;
    var w := EncodeRecord(begin) + tail;
    var skip := SkipAtEnd(pre, false, Waiting(id0));
    RecordSteps(pre, w, false, Waiting(id0));
    MaskedAtEnd(pre, false, Waiting(id0));
    DeliveredHaveContent(pre, false, Waiting(id0));
    ConcludedBehind(Replies(pre, Waiting(id0)), Contents(Delivered(pre, false, Waiting(id0))), Deliver(w, 0, 0, skip, Waiting(id0)));
    if skip { BeginStep(begin, tail, skip, id0); }
  }

  lemma ConcludedBehind(replies: seq<byte>, content: seq<byte>, d: Delivery)
    ensures Concluded(Reply(replies, Prepend(content, d)))
         == if content != [] then Rejected else Answered(replies, Concluded(d))
    ensures d.end.Failed? ==> Concluded(d) == Rejected
  {
    hide Deliver, DecodePairs, RoleEntry, EntriesOf;
    if content == [] && Concluded(d).Accepted? {
      var p := Deliver(d.end.rest, 0, 0, false, Context(d.end.id, true, PARAMS as int, false));
      assert replies + d.replies + p.replies == replies + (d.replies + p.replies);
    }
  }

  lemma {:induction false} DeliveredHaveContent(rs: seq<Record>, skip: bool, ctx: Context)
    ensures Contents(Delivered(rs, skip, ctx)) == [] <==> Delivered(rs, skip, ctx) == []
  {
    if rs != [] {
      DeliveredHaveContent(rs[1..], SkipAfter(rs[0], skip, ctx), ctx);
      DeliveredContents(rs, skip, ctx);
    }
  }

  /** The padding of a begin record is not skipped: it starts the params stream. */
  lemma AcceptIs(begin: Record, tail: seq<byte>, id0: int)
    requires begin.Valid() && begin.rtype == BEGIN_REQUEST && begin.id != 0 && |begin.content| == 8
    ensures Accept(EncodeRecord(begin) + tail, id0)
         == AfterBegin(begin, Deliver(begin.padding + tail, 0, 0, false, Context(begin.id, true, PARAMS as int, false)))
  {
    hide EncodeRecord, Deliver, DecodePairs, RoleEntry, EntriesOf;
    BeginStep(begin, tail, false, id0);
  }

  /** What a well-formed start of a request should lead to. */
  function Expected(begin: Record, prs: seq<Record>, ps: seq<Pair>, rest: seq<byte>): Outcome
    requires |begin.content| == 8
  {
    var role := BigEndian(begin.content[..2]);
    Accepted(begin.id, role, begin.content[2] % 2 == 1, [RoleEntry(role)] + EntriesOf(ps), Eof(rest, 0),
             Replies(prs, Context(begin.id, true, PARAMS as int, false)))
  }

  /** A begin record of a known role, and records of which the own ones, up to eof, encode ps. */
  ghost predicate WellFormed(begin: Record, prs: seq<Record>, eof: Record, ps: seq<Pair>) {
    && begin.Valid() && begin.rtype == BEGIN_REQUEST && begin.id != 0 && |begin.content| == 8
    && BigEndian(begin.content[..2]) in {RESPONDER, AUTHORIZER, FILTER}
    && AllValid(prs) && eof == Record(PARAMS, begin.id, [], [])
    && (forall p :: p in ps ==> Encodable(p))
    && (var ctx := Context(begin.id, true, PARAMS as int, false);
        NoneStop(prs, ctx) && Unmixed(prs, false, ctx) && Contents(OwnRecords(prs, ctx)) == EncodePairs(ps))
  }

  /** An unpadded start of a request is accepted with the pairs its params stream encodes, first the
      role, and the connection is left where standard input starts. */
  lemma WellFormedAccepted(begin: Record, prs: seq<Record>, eof: Record, ps: seq<Pair>, rest: seq<byte>, id0: int)
    requires WellFormed(begin, prs, eof, ps) && begin.padding == []
    ensures AllValid(prs + [eof])
    ensures Accept(EncodeRecord(begin) + (EncodeRecords(prs + [eof]) + rest), id0) == Expected(begin, prs, ps, rest)
  {
    hide EncodeRecord, EncodeRecords, Deliver, DecodePairs, RoleEntry, Unmixed;
    var ctx := Context(begin.id, true, PARAMS as int, false);
    var tail := EncodeRecords(prs + [eof]) + rest;
    BeginStep(begin, tail, false, id0);
    assert begin.padding + tail == tail;
    Deframed(prs, eof, rest, ctx);
    PairsRoundTrip(ps);
    assert eof.padding + rest == rest;
  }

  lemma BeginPadding(begin: Record, tail: seq<byte>, id0: int)
    requires begin.Valid() && begin.rtype == BEGIN_REQUEST && begin.id != 0 && |begin.content| == 8
    ensures Accept(EncodeRecord(begin) + tail, id0)
         == Accept(EncodeRecord(begin.(padding := [])) + (begin.padding + tail), id0)
  {
    hide EncodeRecord, Deliver, AfterBegin;
    AcceptIs(begin, tail, id0);
    AcceptIs(begin.(padding := []), begin.padding + tail, id0);
    assert [] + (begin.padding + tail) == begin.padding + tail;
    SameBegin(begin, Deliver(begin.padding + tail, 0, 0, false, Context(begin.id, true, PARAMS as int, false)));
  }

  lemma SameBegin(begin: Record, p: Delivery)
    requires |begin.content| == 8
    ensures AfterBegin(begin, p) == AfterBegin(begin.(padding := []), p)
  {
  }

  /** The request is accepted as if its begin record had no padding. */
  ghost predicate PaddingUnseen(begin: Record, tail: seq<byte>, id0: int)
    requires begin.Valid() && |begin.content| == 8
  {
    Accept(EncodeRecord(begin) + tail, id0) == Accept(EncodeRecord(begin.(padding := [])) + tail, id0)
  }

  /** Padding of a begin record goes unnoticed before every params stream if and only if it is ignored. */
  lemma AcceptedIffIgnored(begin: Record, id0: int)
    requires begin.Valid() && begin.rtype == BEGIN_REQUEST && begin.id != 0 && |begin.content| == 8
    requires BigEndian(begin.content[..2]) in {RESPONDER, AUTHORIZER, FILTER}
    ensures var ctx := Context(begin.id, true, PARAMS as int, false);
      Ignored(begin.padding, false, ctx) <==>
        forall tail :: Deliver(tail, 0, 0, false, ctx).end.Eof? ==> PaddingUnseen(begin, tail, id0)
  {
    hide EncodeRecord, Deliver, Accept, AfterBegin, Ignored, EmptyStream, ByteStream;
    var p, ctx := begin.padding, Context(begin.id, true, PARAMS as int, false);
    if Ignored(p, false, ctx) {
      forall tail | Deliver(tail, 0, 0, false, ctx).end.Eof? ensures PaddingUnseen(begin, tail, id0) {
        IgnoredIsHarmless(p, false, tail, ctx);
        UnseenIff(begin, tail, id0);
      }
    } else {
      NotIgnoredHarms(p, false, ctx);
      EmptyStreamIs(ctx);
      ByteStreamIs(ctx);
      UnseenIff(begin, EmptyStream(ctx), id0);
      UnseenIff(begin, ByteStream(ctx), id0);
      NothingElseIsEmpty(begin, Deliver(p + EmptyStream(ctx), 0, 0, false, ctx));
      OneByteIsRejected(begin);
      assert !PaddingUnseen(begin, EmptyStream(ctx), id0) || !PaddingUnseen(begin, ByteStream(ctx), id0);
    }
  }

  lemma UnseenIff(begin: Record, tail: seq<byte>, id0: int)
    requires begin.Valid() && begin.rtype == BEGIN_REQUEST && begin.id != 0 && |begin.content| == 8
    ensures var ctx := Context(begin.id, true, PARAMS as int, false);
      PaddingUnseen(begin, tail, id0) <==>
        AfterBegin(begin, Deliver(begin.padding + tail, 0, 0, false, ctx)) == AfterBegin(begin, Deliver(tail, 0, 0, false, ctx))
  {
    hide EncodeRecord, Deliver, Accept, AfterBegin;
    AcceptIs(begin, tail, id0);
    AcceptIs(begin.(padding := []), tail, id0);
    assert [] + tail == tail;
    SameBegin(begin, Deliver(tail, 0, 0, false, Context(begin.id, true, PARAMS as int, false)));
  }

  /** No other params stream has the outcome of an empty one. */
  lemma NothingElseIsEmpty(begin: Record, d: Delivery)
    requires |begin.content| == 8 && BigEndian(begin.content[..2]) in {RESPONDER, AUTHORIZER, FILTER}
    ensures AfterBegin(begin, d) == AfterBegin(begin, Delivery([], [], Eof([], 0))) ==> d == Delivery([], [], Eof([], 0))
  {
    hide RoleEntry;
    var role := BigEndian(begin.content[..2]);
    var es, a := EntriesOf(DecodePairs(d.content).pairs), AfterBegin(begin, d);
    assert EntriesOf([]) == [] && [RoleEntry(role)] + [] == [RoleEntry(role)];
    if a.Accepted? && a.env == [RoleEntry(role)] { assert |[RoleEntry(role)] + es| == 1 + |es|; }
  }

  lemma OneByteIsRejected(begin: Record)
    requires |begin.content| == 8 && BigEndian(begin.content[..2]) in {RESPONDER, AUTHORIZER, FILTER}
    ensures AfterBegin(begin, Delivery([0], [], Eof([], 0))) == Rejected
    ensures AfterBegin(begin, Delivery([], [], Eof([], 0))).Accepted?
  {
    assert DecodeLen([0]) == Len(0, []) && DecodeLen([]) == NoLen;
  }

  /** So the start of a request, padded with bytes that cannot be a header, is accepted as it should
      be if and only if there is no such padding. */
  lemma AcceptedIffUnpadded(begin: Record, prs: seq<Record>, eof: Record, ps: seq<Pair>, rest: seq<byte>, id0: int)
    requires WellFormed(begin, prs, eof, ps) && (begin.padding == [] || begin.padding[0] != VERSION_1)
    ensures AllValid(prs + [eof])
    ensures Accept(EncodeRecord(begin) + (EncodeRecords(prs + [eof]) + rest), id0) == Expected(begin, prs, ps, rest)
      <==> begin.padding == []
  {
    hide EncodeRecord, EncodeRecords, Deliver, DecodePairs, RoleEntry, WellFormed;
    WellFormedAccepted(begin.(padding := []), prs, eof, ps, rest, id0) by { WithoutPadding(begin, prs, eof, ps); }
    if begin.padding == [] {
      assert begin == begin.(padding := []);
    } else {
      var ctx := Context(begin.id, true, PARAMS as int, false);
      var tail := EncodeRecords(prs + [eof]) + rest;
      BeginStep(begin, tail, false, id0) by { WithoutPadding(begin, prs, eof, ps); }
      NotAHeader(begin.padding + tail, ctx);
    }
  }

  lemma WithoutPadding(begin: Record, prs: seq<Record>, eof: Record, ps: seq<Pair>)
    requires WellFormed(begin, prs, eof, ps)
    ensures WellFormed(begin.(padding := []), prs, eof, ps)
    ensures begin.Valid() && begin.rtype == BEGIN_REQUEST && begin.id != 0 && |begin.content| == 8
  {
  }

  /******* Requests that are cut off *******/

  /** The params stream of a well-formed request, cut after n bytes. */
  function CutStream(prs: seq<Record>, eof: Record, n: nat): seq<byte>
    requires AllValid(prs + [eof]) && n <= |EncodeRecords(prs + [eof])|
  {
    EncodeRecords(prs + [eof])[..n]
  }

  /** In particular, a request of which nothing but the begin record arrives is accepted, without params. */
  lemma OnlyBeginAccepted(begin: Record, id0: int)
    requires begin.Valid() && begin.rtype == BEGIN_REQUEST && begin.id != 0 && |begin.content| == 8 && begin.padding == []
    requires BigEndian(begin.content[..2]) in {RESPONDER, AUTHORIZER, FILTER}
    ensures var role := BigEndian(begin.content[..2]);
      Accept(EncodeRecord(begin), id0)
      == Accepted(begin.id, role, begin.content[2] % 2 == 1, [RoleEntry(role)], Failed(PROTOCOL_ERROR), [])
  {
    hide EncodeRecord, RoleEntry;
    AcceptIs(begin, [], id0);
    assert EncodeRecord(begin) + [] == EncodeRecord(begin) && begin.padding + [] == [];
    assert EntriesOf([]) == [];
  }

  lemma CutDelivers(begin: Record, prs: seq<Record>, eof: Record, ps: seq<Pair>, n: nat)
    requires WellFormed(begin, prs, eof, ps) && AllValid(prs + [eof]) && n < |EncodeRecords(prs + [eof])|
    ensures var d := Deliver(CutStream(prs, eof, n), 0, 0, false, Context(begin.id, true, PARAMS as int, false));
      d.content <= EncodePairs(ps) && d.end == Failed(PROTOCOL_ERROR)
  {
    hide EncodeRecord, EncodeRecords, Deliver, Unmixed, EncodePairs;
    var ctx := Context(begin.id, true, PARAMS as int, false);
    var w := EncodeRecords(prs + [eof]);
    Deframed(prs, eof, [], ctx);
    assert w + [] == w && eof.padding + [] == [];
    Truncated(w, n, 0, 0, false, ctx);
  }

  /** A request that is cut off in its params stream is accepted if and only if what was delivered of it
      ends between two pairs; then with the pairs so far, as if there were no more. */
  lemma CutAccepted(begin: Record, prs: seq<Record>, eof: Record, ps: seq<Pair>, n: nat, id0: int)
    requires WellFormed(begin, prs, eof, ps) && begin.padding == []
    requires AllValid(prs + [eof]) && n < |EncodeRecords(prs + [eof])|
    ensures var w := CutStream(prs, eof, n);
      var a := Accept(EncodeRecord(begin) + w, id0);
      var c := Deliver(w, 0, 0, false, Context(begin.id, true, PARAMS as int, false)).content;
      && (a.Accepted? <==> exists k :: 0 <= k <= |ps| && c == EncodePairs(ps[..k]))
      && forall k :: 0 <= k <= |ps| && c == EncodePairs(ps[..k]) ==>
           a.Accepted? && a.params == Failed(PROTOCOL_ERROR)
           && a.env == [RoleEntry(BigEndian(begin.content[..2]))] + EntriesOf(ps[..k])
  {
    hide EncodeRecord, CutStream, Deliver, Accept, RoleEntry, EntriesOf, Unmixed;
    var w := CutStream(prs, eof, n);
    var d := Deliver(w, 0, 0, false, Context(begin.id, true, PARAMS as int, false));
    CutDelivers(begin, prs, eof, ps, n);
    AcceptIs(begin, w, id0);
    assert begin.padding + w == w;
    forall k | 0 <= k <= |ps| && d.content == EncodePairs(ps[..k]) ensures DecodePairs(d.content) == Decoded(ps[..k], true) {
      PairsRoundTrip(ps[..k]);
    }
    if DecodePairs(d.content).ok { var k := WholePairs(ps, d.content); }
  }
}
