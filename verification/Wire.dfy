/** The FastCGI record format: headers, records and their encoding as bytes
    (fcgi/include/fastcgi.h, sections 3.3, 5.1 and 5.5 of the FastCGI Specification 1.0). */
module Wire {
  import opened Basics

  const VERSION_1: byte := 1
  const HEADER_LEN: nat := 8
  const MAX_LENGTH: nat := 0xffff

  const BEGIN_REQUEST: byte := 1
  const END_REQUEST: byte := 3
  const PARAMS: byte := 4
  const STDIN: byte := 5
  const STDOUT: byte := 6
  const STDERR: byte := 7
  const DATA: byte := 8
  const GET_VALUES: byte := 9
  const UNKNOWN_TYPE: byte := 11

  const NULL_REQUEST_ID := 0
  const REQUEST_COMPLETE: byte := 0
  const CANT_MPX_CONN: byte := 1

  function Zeros(n: nat): (z: seq<byte>)
    ensures |z| == n && forall i :: 0 <= i < n ==> z[i] == 0
  {
    seq(n, i => 0)
  }

  /** The smallest multiple of 8 that is at least n. */
  function AlignInt8(n: nat): (r: nat)
    ensures r % 8 == 0 && n <= r < n + 8
  {
    (n + 7) / 8 * 8
  }

  /******* Headers *******/

  datatype Header = Header(version: byte, rtype: byte, requestId: nat, contentLength: nat, paddingLength: nat)

  function MakeHeader(rtype: int, requestId: int, contentLength: nat, paddingLength: nat): (h: seq<byte>)
    requires contentLength <= MAX_LENGTH && paddingLength <= 0xff
    ensures |h| == HEADER_LEN
  {
    [VERSION_1, rtype % 256,
     requestId / 256 % 256, requestId % 256,
     contentLength / 256 % 256, contentLength % 256,
     paddingLength, 0]
  }

  function Word(hi: byte, lo: byte): (n: nat)
    ensures n <= 0xffff
  {
    (hi as int) * 256 + lo as int
  }

  lemma WordIs(s: seq<byte>)
    requires |s| >= 2
    ensures Word(s[0], s[1]) == BigEndian(s[..2])
  {
    assert s[..2] == [s[0], s[1]];
    BigEndianOf2(s[0], s[1]);
  }

  function DecodeHeader(s: seq<byte>): (h: Header)
    requires |s| == HEADER_LEN
    ensures h.requestId <= 0xffff && h.contentLength <= MAX_LENGTH && h.paddingLength <= 0xff
  {
    Header(s[0], s[1], Word(s[2], s[3]), Word(s[4], s[5]), s[6])
  }

  /** What each byte of a header is. */
  lemma HeaderFields(rtype: int, requestId: int, contentLength: nat, paddingLength: nat)
    requires contentLength <= MAX_LENGTH && paddingLength <= 0xff
    ensures var h := MakeHeader(rtype, requestId, contentLength, paddingLength);
      && h[0] == 1 && h[1] == rtype % 256 && BigEndian(h[2..4]) == requestId % 0x1_0000
      && BigEndian(h[4..6]) == contentLength && h[6] == paddingLength && h[7] == 0
  {
    var h := MakeHeader(rtype, requestId, contentLength, paddingLength);
    assert h[2..4] == [h[2], h[3]] && h[4..6] == [h[4], h[5]];
    BigEndianOf2(h[2], h[3]);
    BigEndianOf2(h[4], h[5]);
    HeaderRoundTrip(rtype, requestId, contentLength, paddingLength);
  }

  /** And what a reader takes them for. */
  lemma HeaderReads(s: seq<byte>)
    requires |s| == HEADER_LEN
    ensures DecodeHeader(s) == Header(s[0], s[1], BigEndian(s[2..4]), BigEndian(s[4..6]), s[6])
  {
    assert s[2..4] == [s[2], s[3]] && s[4..6] == [s[4], s[5]];
    BigEndianOf2(s[2], s[3]);
    BigEndianOf2(s[4], s[5]);
  }

  /** Reading a header back gives what was put in, the type and id reduced to their field widths. */
  lemma HeaderRoundTrip(rtype: int, requestId: int, contentLength: nat, paddingLength: nat)
    requires contentLength <= MAX_LENGTH && paddingLength <= 0xff
    ensures DecodeHeader(MakeHeader(rtype, requestId, contentLength, paddingLength))
         == Header(VERSION_1, rtype % 256, requestId % 0x1_0000, contentLength, paddingLength)
  {
    assert requestId / 256 % 256 * 256 + requestId % 256 == requestId % 0x1_0000;
    assert contentLength / 256 % 256 * 256 + contentLength % 256 == contentLength;
  }

  function MakeEndRequestBody(appStatus: int, protocolStatus: byte): (b: seq<byte>)
    ensures |b| == 8
  {
    [appStatus / 0x100_0000 % 256, appStatus / 0x1_0000 % 256, appStatus / 0x100 % 256, appStatus % 256,
     protocolStatus, 0, 0, 0]
  }

  /** An exit status as a C int: its low 32 bits, in two's complement. */
  function CInt(n: int): (c: int)
    ensures -0x8000_0000 <= c < 0x8000_0000 && (-0x8000_0000 <= n < 0x8000_0000 ==> c == n)
  {
    (n + 0x8000_0000) % 0x1_0000_0000 - 0x8000_0000
  }

  /** The exit status in the body of an END_REQUEST record. */
  function ExitStatus(body: seq<byte>): int
    requires |body| == 8
  {
    var n := BigEndian(body[..4]);
    if n < 0x8000_0000 then n else n - 0x1_0000_0000
  }

  /** The body carries the exit status, most significant byte first, and the protocol status. */
  lemma EndBodyIs(appStatus: int, protocolStatus: byte)
    ensures var b := MakeEndRequestBody(appStatus, protocolStatus);
      && BigEndian(b[..4]) == appStatus % 0x1_0000_0000 && ExitStatus(b) == CInt(appStatus)
      && b[4] == protocolStatus && b[5..] == [0, 0, 0]
  {
    var b := MakeEndRequestBody(appStatus, protocolStatus);
    assert b[..4] == [b[0], b[1], b[2], b[3]];
    BigEndianOf4(b[0], b[1], b[2], b[3]);
    FourBytesOf(appStatus);
    hide BigEndian, CInt;
    TwosComplement(appStatus);
  }

  lemma TwosComplement(n: int)
    ensures var u := n % 0x1_0000_0000; CInt(n) == if u < 0x8000_0000 then u else u - 0x1_0000_0000
  {
  }

  function MakeUnknownTypeBody(rtype: byte): (b: seq<byte>)
    ensures |b| == 8
  {
    [rtype, 0, 0, 0, 0, 0, 0, 0]
  }

  /******* Records *******/

  datatype Record = Record(rtype: byte, id: nat, content: seq<byte>, padding: seq<byte>) {
    predicate Valid() {
      id <= 0xffff && |content| <= MAX_LENGTH && |padding| <= 0xff
    }
  }

  function EncodeRecord(r: Record): (w: seq<byte>)
    requires r.Valid()
    ensures |w| == HEADER_LEN + |r.content| + |r.padding|
  {
    MakeHeader(r.rtype, r.id, |r.content|, |r.padding|) + r.content + r.padding
  }

  predicate AllValid(rs: seq<Record>) {
    forall i :: 0 <= i < |rs| ==> rs[i].Valid()
  }

  function EncodeRecords(rs: seq<Record>): (w: seq<byte>)
    requires AllValid(rs)
  {
    if rs == [] then [] else EncodeRecord(rs[0]) + EncodeRecords(rs[1..])
  }

  lemma {:induction false} EncodeRecordsConcat(a: seq<Record>, b: seq<Record>)
    requires AllValid(a) && AllValid(b)
    ensures AllValid(a + b)
    ensures EncodeRecords(a + b) == EncodeRecords(a) + EncodeRecords(b)
  {
    hide EncodeRecord;
    if a == [] {
      assert a + b == b;
    } else {
      EncodeRecordsConcat(a[1..], b);
      assert (a + b)[0] == a[0] && (a + b)[1..] == a[1..] + b;
      assert EncodeRecord(a[0]) + (EncodeRecords(a[1..]) + EncodeRecords(b)) == EncodeRecords(a) + EncodeRecords(b);
    }
  }

  /** The contents of a list of records, in order. */
  function Contents(rs: seq<Record>): (c: seq<byte>) {
    if rs == [] then [] else rs[0].content + Contents(rs[1..])
  }

  lemma {:induction false} ContentsConcat(a: seq<Record>, b: seq<Record>)
    ensures Contents(a + b) == Contents(a) + Contents(b)
  {
    if a == [] {
      assert a + b == b;
    } else {
      ContentsConcat(a[1..], b);
      assert (a + b)[0] == a[0] && (a + b)[1..] == a[1..] + b;
      assert a[0].content + (Contents(a[1..]) + Contents(b)) == a[0].content + Contents(a[1..]) + Contents(b);
    }
  }
}
