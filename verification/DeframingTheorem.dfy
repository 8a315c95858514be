/** Deframing a wire that is a sequence of records: which records reach the client, and exactly
    when these are the records of the client's own stream. */
module DeframingTheorem {
  import opened Basics
  import opened Wire
  import opened Deframing

  function HeaderOf(r: Record): Header {
    Header(VERSION_1, r.rtype, r.id, |r.content|, |r.padding|)
  }

  /** The records of the stream, and of them those that a client is meant to read. */
  predicate OfStream(r: Record, ctx: Context) { IsOwn(r.rtype, r.id, ctx) }
  predicate Own(r: Record, ctx: Context) { OfStream(r, ctx) && r.content != [] }

  /** The other records, by type and id. */
  predicate OfOthers(r: Record, ctx: Context) { IsForeign(r.rtype, r.id, ctx) }
  predicate Manages(r: Record) { IsManagement(r.rtype, r.id) }
  predicate Begins(r: Record) { IsBegin(r.rtype, r.id, |r.content|) }

  /** A record at which delivery stops: the empty record that ends the stream, and one that is none of
      the others. */
  predicate Stops(r: Record, ctx: Context) {
    if OfStream(r, ctx) then r.content == []
    else !OfOthers(r, ctx) && !Manages(r) && !(Begins(r) && ctx.begun)
  }

  function StopEnd(r: Record, rest: seq<byte>, ctx: Context): End
    requires Stops(r, ctx) && ctx.begun
  {
    if OfStream(r, ctx) then Eof(r.padding + rest, |r.padding|)
    else if r.rtype == GET_VALUES && r.id == NULL_REQUEST_ID then Failed(GET_VALUES_SEEN)
    else Failed(PROTOCOL_ERROR)
  }

  predicate NoneStop(rs: seq<Record>, ctx: Context) {
    forall i :: 0 <= i < |rs| ==> !Stops(rs[i], ctx)
  }

  /** The skip flag after one more record. It is only ever cleared by content bytes. */
  function SkipAfter(r: Record, skip: bool, ctx: Context): bool {
    r.content == [] && (skip || OfOthers(r, ctx))
  }

  predicate Reaches(r: Record, skip: bool, ctx: Context) {
    r.content != [] && !skip && (OfStream(r, ctx) || Manages(r))
  }

  /** The records whose content the code hands to the client. */
  function Delivered(rs: seq<Record>, skip: bool, ctx: Context): (ds: seq<Record>)
    ensures forall d :: d in ds ==> d in rs
  {
    if rs == [] then []
    else (if Reaches(rs[0], skip, ctx) then [rs[0]] else [])
         + Delivered(rs[1..], SkipAfter(rs[0], skip, ctx), ctx)
  }

  /** The records of the client's own stream: the reference, a filter by id and type. */
  function OwnRecords(rs: seq<Record>, ctx: Context): (os: seq<Record>)
    ensures forall r :: r in os ==> r in rs && Own(r, ctx)
  {
    if rs == [] then []
    else (if Own(rs[0], ctx) then [rs[0]] else []) + OwnRecords(rs[1..], ctx)
  }

  function ReplyTo(r: Record, ctx: Context): seq<byte> {
    if Begins(r) && ctx.begun then CantMultiplex(r.id) else if Manages(r) then UnknownType(r.rtype) else []
  }

  function Replies(rs: seq<Record>, ctx: Context): seq<byte> {
    if rs == [] then [] else ReplyTo(rs[0], ctx) + Replies(rs[1..], ctx)
  }

  /******* One record *******/

  lemma BodyStep(c: seq<byte>, pad: seq<byte>, tail: seq<byte>, skip: bool, ctx: Context)
    requires !ctx.eorStop
    ensures Deliver(c + pad + tail, |c|, |pad|, skip, ctx)
         == if c == [] then Deliver(tail, 0, 0, skip, ctx)
            else if skip then Deliver(tail, 0, 0, false, ctx)
            else Prepend(c, Deliver(tail, 0, 0, false, ctx))
  {
    var w := c + pad + tail;
    assert w[|c|..] == pad + tail;
    assert w[..|c|] == c;
    assert (pad + tail)[|pad|..] == tail;
    PadBite(pad + tail, |pad|, skip, ctx, |pad|);
    PadBite(pad + tail, |pad|, false, ctx, |pad|);
    if c != [] {
      if skip { SkipBite(w, |c|, |pad|, ctx, |c|); } else { ContentBite(w, |c|, |pad|, ctx, |c|); }
    } else {
      assert w == pad + tail;
    }
  }

  lemma EncodedRecord(r: Record, tail: seq<byte>)
    requires r.Valid()
    ensures var w := EncodeRecord(r) + tail;
      |w| >= 8 && DecodeHeader(w[..8]) == HeaderOf(r) && w[8..] == r.content + r.padding + tail
  {
    hide MakeHeader, DecodeHeader;
    var w := EncodeRecord(r) + tail;
    var h := MakeHeader(r.rtype, r.id, |r.content|, |r.padding|);
    HeaderRoundTrip(r.rtype, r.id, |r.content|, |r.padding|);
    assert w == h + (r.content + r.padding + tail);
    assert w[..8] == h;
  }

  lemma RecordStep(r: Record, tail: seq<byte>, skip: bool, ctx: Context)
    requires r.Valid() && !ctx.eorStop && !Stops(r, ctx)
    ensures Deliver(EncodeRecord(r) + tail, 0, 0, skip, ctx)
         == Reply(ReplyTo(r, ctx),
                  Prepend(if Reaches(r, skip, ctx) then r.content else [],
                          Deliver(tail, 0, 0, SkipAfter(r, skip, ctx), ctx)))
  {
    hide EncodeRecord, DecodeHeader;
    EncodedRecord(r, tail);
    HeaderStep(EncodeRecord(r) + tail, HeaderOf(r), r.content + r.padding + tail, skip, ctx);
    ClassifyIs(HeaderOf(r), ctx);
    hide Classify;
    BodyStep(r.content, r.padding, tail, skip, ctx);
    BodyStep(r.content, r.padding, tail, true, ctx);
  }

  lemma Compose(r1: seq<byte>, c1: seq<byte>, r2: seq<byte>, c2: seq<byte>, d: Delivery)
    ensures Reply(r1, Prepend(c1, Reply(r2, Prepend(c2, d)))) == Reply(r1 + r2, Prepend(c1 + c2, d))
  {
    assert r1 + (r2 + d.replies) == r1 + r2 + d.replies;
    assert c1 + (c2 + d.content) == c1 + c2 + d.content;
  }

  lemma DeliveredContents(rs: seq<Record>, skip: bool, ctx: Context)
    requires rs != []
    ensures Contents(Delivered(rs, skip, ctx))
         == (if Reaches(rs[0], skip, ctx) then rs[0].content else [])
            + Contents(Delivered(rs[1..], SkipAfter(rs[0], skip, ctx), ctx))
  {
    var head := if Reaches(rs[0], skip, ctx) then [rs[0]] else [];
    ContentsConcat(head, Delivered(rs[1..], SkipAfter(rs[0], skip, ctx), ctx));
    assert Contents([rs[0]]) == rs[0].content;
  }

  /** The skip flag after these records. */
  function SkipAtEnd(rs: seq<Record>, skip: bool, ctx: Context): bool {
    if rs == [] then skip else SkipAtEnd(rs[1..], SkipAfter(rs[0], skip, ctx), ctx)
  }

  /** Any number of records, none of which stops the stream. */
  lemma {:induction false} RecordSteps(rs: seq<Record>, tail: seq<byte>, skip: bool, ctx: Context)
    requires AllValid(rs) && NoneStop(rs, ctx) && !ctx.eorStop
    ensures Deliver(EncodeRecords(rs) + tail, 0, 0, skip, ctx)
         == Reply(Replies(rs, ctx),
                  Prepend(Contents(Delivered(rs, skip, ctx)), Deliver(tail, 0, 0, SkipAtEnd(rs, skip, ctx), ctx)))
  {
    if rs == [] {
      assert EncodeRecords(rs) + tail == tail;
    } else {
      var r, more := rs[0], rs[1..];
      var skip1 := SkipAfter(r, skip, ctx);
      var w := EncodeRecords(more) + tail;
      assert EncodeRecords(rs) + tail == EncodeRecord(r) + w;
      RecordStep(r, w, skip, ctx);
      RecordSteps(more, tail, skip1, ctx);
      DeliveredContents(rs, skip, ctx);
      Compose(ReplyTo(r, ctx), if Reaches(r, skip, ctx) then r.content else [],
              Replies(more, ctx), Contents(Delivered(more, skip1, ctx)), Deliver(tail, 0, 0, SkipAtEnd(rs, skip, ctx), ctx));
    }
  }

  /******* The theorems *******/

  /** A wire made of records, up to the record that stops the stream: the client gets exactly the
      contents of the delivered records, whatever follows on the wire. */
  lemma WireDelivery(rs: seq<Record>, stop: Record, tail: seq<byte>, ctx: Context)
    requires AllValid(rs) && stop.Valid() && NoneStop(rs, ctx) && Stops(stop, ctx)
    requires ctx.begun && !ctx.eorStop
    ensures Deliver(EncodeRecords(rs + [stop]) + tail, 0, 0, false, ctx)
         == Delivery(Contents(Delivered(rs, false, ctx)), Replies(rs, ctx), StopEnd(stop, tail, ctx))
  {
    var last := EncodeRecord(stop) + tail;
    assert EncodeRecords(rs + [stop]) + tail == EncodeRecords(rs) + last by {
      EncodeRecordsConcat(rs, [stop]);
      assert EncodeRecords([stop]) == EncodeRecord(stop) + EncodeRecords([]);
    }
    RecordSteps(rs, last, false, ctx);
    StopStep(stop, tail, SkipAtEnd(rs, false, ctx), ctx);
  }

  lemma StopStep(stop: Record, tail: seq<byte>, skip: bool, ctx: Context)
    requires stop.Valid() && Stops(stop, ctx) && ctx.begun && !ctx.eorStop
    ensures Deliver(EncodeRecord(stop) + tail, 0, 0, skip, ctx) == Delivery([], [], StopEnd(stop, tail, ctx))
  {
    hide EncodeRecord, DecodeHeader;
    EncodedRecord(stop, tail);
    HeaderStep(EncodeRecord(stop) + tail, HeaderOf(stop), stop.content + stop.padding + tail, skip, ctx);
    ClassifyIs(HeaderOf(stop), ctx);
    hide Classify;
    assert stop.content == [] ==> stop.content + stop.padding + tail == stop.padding + tail;
  }

  /** A record of the request that belongs to another of its streams is an error, whatever follows. */
  lemma OtherStreamFails(r: Record, tail: seq<byte>, skip: bool, ctx: Context)
    requires r.Valid() && IsAstray(r.rtype, r.id, ctx) && ctx.begun && !ctx.eorStop
    ensures Deliver(EncodeRecord(r) + tail, 0, 0, skip, ctx) == Delivery([], [], Failed(PROTOCOL_ERROR))
  {
    hide EncodeRecord, Deliver;
    StopStep(r, tail, skip, ctx);
  }

  /** As the reader goes along: no own content arrives while an empty foreign record still has the
      skip flag set, and no management record carries content unless that content is skipped. */
  predicate Clean(rs: seq<Record>, skip: bool, ctx: Context) {
    if rs == [] then true
    else
      && (Own(rs[0], ctx) ==> !skip)
      && (Manages(rs[0]) && rs[0].content != [] ==> skip)
      && Clean(rs[1..], SkipAfter(rs[0], skip, ctx), ctx)
  }

  function CountOwn(rs: seq<Record>, ctx: Context): nat {
    if rs == [] then 0 else (if Own(rs[0], ctx) then 1 else 0) + CountOwn(rs[1..], ctx)
  }

  lemma {:induction false} DeliveredOwnBound(rs: seq<Record>, skip: bool, ctx: Context)
    ensures CountOwn(Delivered(rs, skip, ctx), ctx) <= |OwnRecords(rs, ctx)|
  {
    if rs != [] {
      var skip1 := SkipAfter(rs[0], skip, ctx);
      DeliveredOwnBound(rs[1..], skip1, ctx);
      if Reaches(rs[0], skip, ctx) {
        assert Delivered(rs, skip, ctx)[1..] == Delivered(rs[1..], skip1, ctx);
      } else {
        assert Delivered(rs, skip, ctx) == Delivered(rs[1..], skip1, ctx);
      }
    }
  }

  lemma {:induction false} AllOwnCount(rs: seq<Record>, ctx: Context)
    requires forall r :: r in rs ==> Own(r, ctx)
    ensures CountOwn(rs, ctx) == |rs|
  {
    if rs != [] { AllOwnCount(rs[1..], ctx); }
  }

  /** The client reads exactly its own records if and only if the wire is clean. */
  lemma {:induction false} DeliveredIsOwnIffClean(rs: seq<Record>, skip: bool, ctx: Context)
    ensures Delivered(rs, skip, ctx) == OwnRecords(rs, ctx) <==> Clean(rs, skip, ctx)
  {
    if rs == [] {
    } else {
      var r, more := rs[0], rs[1..];
      var skip1 := SkipAfter(r, skip, ctx);
      var d, o := Delivered(more, skip1, ctx), OwnRecords(more, ctx);
      DeliveredIsOwnIffClean(more, skip1, ctx);
      if Own(r, ctx) && skip {
        // Own content is lost: one record too few can arrive.
        DeliveredOwnBound(more, skip1, ctx);
        AllOwnCount([r] + o, ctx);
        assert [] + d == d;
        assert Delivered(rs, skip, ctx) != OwnRecords(rs, ctx);
      } else if Reaches(r, skip, ctx) && !Own(r, ctx) {
        // Content of a management record leaks.
        assert (([r] + d)[0]) == r;
        assert r !in OwnRecords(rs, ctx);
      } else if Own(r, ctx) {
        assert ([r] + d)[1..] == d && ([r] + o)[1..] == o;
      } else {
        assert [] + d == d && [] + o == o;
      }
    }
  }

  /** Only empty records separate record i from an empty foreign record before it, or from the start
      of the list if the skip flag was set there. */
  ghost predicate Masked(rs: seq<Record>, i: nat, skip: bool, ctx: Context)
    requires i <= |rs|
  {
    || (skip && forall k :: 0 <= k < i ==> rs[k].content == [])
    || exists j :: 0 <= j < i && OfOthers(rs[j], ctx) && forall k :: j <= k < i ==> rs[k].content == []
  }

  /** The condition on the records alone: no own content is masked, and all content of management
      records is. */
  ghost predicate Unmixed(rs: seq<Record>, skip: bool, ctx: Context) {
    forall i :: 0 <= i < |rs| ==> Unmixed1(rs, i, skip, ctx)
  }

  ghost predicate Unmixed1(rs: seq<Record>, i: nat, skip: bool, ctx: Context)
    requires i < |rs|
  {
    && (Own(rs[i], ctx) ==> !Masked(rs, i, skip, ctx))
    && (Manages(rs[i]) && rs[i].content != [] ==> Masked(rs, i, skip, ctx))
  }

  lemma MaskedNext(rs: seq<Record>, i: nat, skip: bool, ctx: Context)
    requires rs != [] && i < |rs|
    ensures Masked(rs, i + 1, skip, ctx) <==> Masked(rs[1..], i, SkipAfter(rs[0], skip, ctx), ctx)
  {
    hide OfOthers;
    var more, skip1 := rs[1..], SkipAfter(rs[0], skip, ctx);
    assert forall k :: 0 <= k < i ==> more[k] == rs[k + 1];
    if Masked(more, i, skip1, ctx) {
      if skip1 && forall k :: 0 <= k < i ==> more[k].content == [] {
        forall k | 0 <= k < i + 1 ensures rs[k].content == [] { if k > 0 { assert more[k - 1] == rs[k]; } }
      } else {
        var j :| 0 <= j < i && OfOthers(more[j], ctx) && forall k :: j <= k < i ==> more[k].content == [];
        assert OfOthers(rs[j + 1], ctx);
        forall k | j + 1 <= k < i + 1 ensures rs[k].content == [] { assert more[k - 1] == rs[k]; }
      }
    }
    if Masked(rs, i + 1, skip, ctx) && !(skip && forall k :: 0 <= k < i + 1 ==> rs[k].content == []) {
      var j :| 0 <= j < i + 1 && OfOthers(rs[j], ctx) && forall k :: j <= k < i + 1 ==> rs[k].content == [];
      if j > 0 { assert OfOthers(more[j - 1], ctx); }
    }
  }

  lemma {:induction false} MaskedAtEnd(rs: seq<Record>, skip: bool, ctx: Context)
    ensures SkipAtEnd(rs, skip, ctx) <==> Masked(rs, |rs|, skip, ctx)
  {
    if rs == [] {
      MaskedFirst(rs, skip, ctx);
    } else {
      hide Masked;
      MaskedAtEnd(rs[1..], SkipAfter(rs[0], skip, ctx), ctx);
      MaskedNext(rs, |rs| - 1, skip, ctx);
    }
  }

  lemma {:induction false} CleanIff(rs: seq<Record>, skip: bool, ctx: Context)
    ensures Clean(rs, skip, ctx) <==> Unmixed(rs, skip, ctx)
  {
    if rs != [] {
      hide OfOthers, Manages, Masked, Own;
      var more, skip1 := rs[1..], SkipAfter(rs[0], skip, ctx);
      CleanIff(more, skip1, ctx);
      forall i | 0 <= i < |more| ensures Unmixed1(rs, i + 1, skip, ctx) <==> Unmixed1(more, i, skip1, ctx) {
        MaskedNext(rs, i, skip, ctx);
      }
      assert Masked(rs, 0, skip, ctx) <==> skip by { MaskedFirst(rs, skip, ctx); }
      if Unmixed(more, skip1, ctx) && Unmixed1(rs, 0, skip, ctx) {
        forall i | 0 <= i < |rs| ensures Unmixed1(rs, i, skip, ctx) {
          if i > 0 { assert Unmixed1(more, i - 1, skip1, ctx); }
        }
      }
      if Unmixed(rs, skip, ctx) {
        forall i | 0 <= i < |more| ensures Unmixed1(more, i, skip1, ctx) { assert Unmixed1(rs, i + 1, skip, ctx); }
        assert Unmixed1(rs, 0, skip, ctx);
      }
    }
  }

  lemma MaskedFirst(rs: seq<Record>, skip: bool, ctx: Context)
    ensures Masked(rs, 0, skip, ctx) <==> skip
  {
  }

  /** The client reads exactly its own records if and only if no own content follows an empty foreign
      record with only empty records in between, and all content of management records does. */
  lemma DeliveredIsOwnIff(rs: seq<Record>, ctx: Context)
    ensures Delivered(rs, false, ctx) == OwnRecords(rs, ctx) <==> Unmixed(rs, false, ctx)
  {
    hide Delivered, OwnRecords, Clean, Unmixed;
    DeliveredIsOwnIffClean(rs, false, ctx);
    CleanIff(rs, false, ctx);
  }

  /** Deframing: on an unmixed wire the client reads the contents of its own records, to the first
      empty one, and nothing else. */
  lemma Deframed(rs: seq<Record>, stop: Record, tail: seq<byte>, ctx: Context)
    requires AllValid(rs) && stop.Valid() && NoneStop(rs, ctx)
    requires OfStream(stop, ctx) && stop.content == []
    requires ctx.begun && !ctx.eorStop && Unmixed(rs, false, ctx)
    ensures Deliver(EncodeRecords(rs + [stop]) + tail, 0, 0, false, ctx)
         == Delivery(Contents(OwnRecords(rs, ctx)), Replies(rs, ctx), Eof(stop.padding + tail, |stop.padding|))
  {
    hide Unmixed;
    WireDelivery(rs, stop, tail, ctx);
    DeliveredIsOwnIff(rs, ctx);
  }

  /** What a client is meant to read: content under the id and type of its stream. */
  lemma OwnIs(r: Record, ctx: Context)
    requires ctx.id != NULL_REQUEST_ID && ctx.rtype != BEGIN_REQUEST as int
    ensures Own(r, ctx) <==> r.id == ctx.id && r.rtype as int == ctx.rtype && r.content != []
  {
  }

  /** The records of a type and id. */
  function Matching(rs: seq<Record>, rtype: int, id: int): (ms: seq<Record>) {
    if rs == [] then []
    else (if rs[0].rtype as int == rtype && rs[0].id == id then [rs[0]] else []) + Matching(rs[1..], rtype, id)
  }

  /** The own records are those of the stream's type and id, but for empty ones. */
  lemma {:induction false} OwnAreMatching(rs: seq<Record>, ctx: Context)
    requires ctx.id != NULL_REQUEST_ID && ctx.rtype != BEGIN_REQUEST as int
    ensures Contents(OwnRecords(rs, ctx)) == Contents(Matching(rs, ctx.rtype, ctx.id))
  {
    if rs != [] {
      OwnAreMatching(rs[1..], ctx);
      OwnIs(rs[0], ctx);
      var r, own, all := rs[0], OwnRecords(rs[1..], ctx), Matching(rs[1..], ctx.rtype, ctx.id);
      assert [] + own == own && [] + all == all && [] + Contents(all) == Contents(all);
      assert ([r] + own)[1..] == own && ([r] + all)[1..] == all;
    }
  }

  /** An empty record of another request makes the reader drop the next record of its own. */
  lemma EmptyForeignRecordLosesContent(ctx: Context, a: byte)
    requires ctx.begun && !ctx.eorStop && ctx.rtype == STDIN as int && 1 < ctx.id <= 0xffff
    ensures
      var foreign := Record(STDIN, 1, [], []);
      var own := Record(STDIN, ctx.id, [a], []);
      Delivered([foreign, own], false, ctx) == [] && OwnRecords([foreign, own], ctx) == [own]
  {
    var foreign := Record(STDIN, 1, [], []);
    var own := Record(STDIN, ctx.id, [a], []);
    var rs := [foreign, own];
    assert rs[1..] == [own] && [own][1..] == [];
    assert Delivered([own], true, ctx) == [];
    assert OwnRecords([own], ctx) == [own];
  }

  /** The content of an unknown management record is handed to the client as its own. */
  lemma ManagementContentLeaks(ctx: Context, a: byte)
    requires ctx.begun && !ctx.eorStop
    ensures
      var unknown := Record(UNKNOWN_TYPE, NULL_REQUEST_ID, [a], []);
      Delivered([unknown], false, ctx) == [unknown] && OwnRecords([unknown], ctx) == []
  {
    var unknown := Record(UNKNOWN_TYPE, NULL_REQUEST_ID, [a], []);
    assert [unknown][1..] == [];
  }

  /** A stream cut short is never mistaken for a complete one: strictly before its end the client
      has a prefix of the content, and then an error. */
  lemma {:induction false} Truncated(w: seq<byte>, n: nat, c: nat, p: nat, skip: bool, ctx: Context)
    requires !ctx.eorStop && n <= |w|
    requires var d := Deliver(w, c, p, skip, ctx); d.end.Eof? && n < |w| - |d.end.rest|
    ensures CutShort(Deliver(w[..n], c, p, skip, ctx), Deliver(w, c, p, skip, ctx))
    decreases |w|, 1
  {
    if n == 0 || (c == 0 && p == 0 && n < 8) {
    } else if c > 0 {
      TruncatedContent(w, n, c, p, skip, ctx);
    } else if p > 0 {
      var k := Min(p, n);
      Slices(w, n, k);
      PadBite(w, p, skip, ctx, k);
      PadBite(w[..n], p, skip, ctx, k);
      Truncated(w[k..], n - k, 0, p - k, skip, ctx);
    } else {
      Slices(w, n, 8);
      TruncatedHeader(DecodeHeader(w[..8]), w[8..], n - 8, skip, ctx);
    }
  }

  lemma TakeBite(w: seq<byte>, n: nat, c: nat, p: nat, skip: bool, ctx: Context, k: nat)
    requires !ctx.eorStop && 0 < k <= n <= |w| && k <= c
    ensures Deliver(w, c, p, skip, ctx)
         == Prepend(if skip then [] else w[..k], Deliver(w[k..], c - k, p, skip && c - k > 0, ctx))
    ensures Deliver(w[..n], c, p, skip, ctx)
         == Prepend(if skip then [] else w[..k], Deliver(w[k..][..n - k], c - k, p, skip && c - k > 0, ctx))
  {
    Slices(w, n, k);
    if skip {
      SkipBite(w, c, p, ctx, k);
      SkipBite(w[..n], c, p, ctx, k);
    } else {
      ContentBite(w, c, p, ctx, k);
      ContentBite(w[..n], c, p, ctx, k);
    }
  }

  lemma Slices(w: seq<byte>, n: nat, k: nat)
    requires k <= n <= |w|
    ensures w[..n][k..] == w[k..][..n - k] && w[..n][..k] == w[..k]
  {
  }

  lemma PrefixOfPrepended(a: seq<byte>, t: seq<byte>, d: seq<byte>)
    requires t <= d
    ensures a + t <= a + d
  {
  }

  lemma {:induction false} TruncatedContent(w: seq<byte>, n: nat, c: nat, p: nat, skip: bool, ctx: Context)
    requires !ctx.eorStop && 0 < n <= |w| && c > 0
    requires var d := Deliver(w, c, p, skip, ctx); d.end.Eof? && n < |w| - |d.end.rest|
    ensures CutShort(Deliver(w[..n], c, p, skip, ctx), Deliver(w, c, p, skip, ctx))
    decreases |w|, 0
  {
    var k := Min(c, n);
    var skip1 := skip && c - k > 0;
    TakeBite(w, n, c, p, skip, ctx, k);
    Truncated(w[k..], n - k, c - k, p, skip1, ctx);
    PrefixOfPrepended(if skip then [] else w[..k], Deliver(w[k..][..n - k], c - k, p, skip1, ctx).content,
                      Deliver(w[k..], c - k, p, skip1, ctx).content);
  }

  lemma {:induction false} TruncatedHeader(h: Header, w: seq<byte>, n: nat, skip: bool, ctx: Context)
    requires !ctx.eorStop && n <= |w|
    requires var d := DeliverHeader(h, w, skip, ctx); d.end.Eof? && n < |w| - |d.end.rest|
    ensures CutShort(DeliverHeader(h, w[..n], skip, ctx), DeliverHeader(h, w, skip, ctx))
    decreases |w|, 2
  {
    var v := Classify(h, ctx);
    if v.Multiplexed? || v.Foreign? {
      Truncated(w, n, h.contentLength, h.paddingLength, true, ctx);
    } else {
      Truncated(w, n, h.contentLength, h.paddingLength, skip, ctx);
    }
  }

  predicate CutShort(t: Delivery, d: Delivery) {
    t.end == Failed(PROTOCOL_ERROR) && t.content <= d.content
  }
}
