/** Name-value pairs (section 3.4 of the FastCGI Specification 1.0): the encoding of
    fcgi/java/FCGIMessage.java and the decoding that ReadParams performs. */
module NameValues {
  import opened Basics

  datatype Pair = Pair(name: seq<byte>, value: seq<byte>)

  const MAX_LEN := 0x8000_0000

  /** Lengths of 128 and more take four bytes, the first with its top bit set. */
  function EncodeLen(n: nat): (b: seq<byte>)
    requires n < MAX_LEN
    ensures b != []
  {
    if n < 0x80 then [n]
    else [n / 0x100_0000 + 0x80, n / 0x1_0000 % 256, n / 0x100 % 256, n % 256]
  }

  predicate Encodable(p: Pair) {
    |p.name| < MAX_LEN && |p.value| < MAX_LEN
  }

  function EncodePair(p: Pair): (b: seq<byte>)
    requires Encodable(p)
  {
    EncodeLen(|p.name|) + EncodeLen(|p.value|) + p.name + p.value
  }

  function EncodePairs(ps: seq<Pair>): (b: seq<byte>)
    requires forall p :: p in ps ==> Encodable(p)
  {
    if ps == [] then [] else EncodePair(ps[0]) + EncodePairs(ps[1..])
  }

  /******* Decoding *******/

  /** A length and the bytes behind it, unless the bytes run out. */
  datatype Len = NoLen | Len(n: nat, rest: seq<byte>)

  function FourByteLen(first: byte, a: byte, b: byte, c: byte): nat {
    (first as int % 0x80) * 0x100_0000 + a as int * 0x1_0000 + b as int * 0x100 + c as int
  }

  function DecodeLen(s: seq<byte>): (l: Len)
    ensures l.Len? ==> |l.rest| < |s|
  {
    if s == [] then NoLen
    else if s[0] < 0x80 then Len(s[0], s[1..])
    else if |s| < 4 then NoLen
    else Len(FourByteLen(s[0], s[1], s[2], s[3]), s[4..])
  }

  /** The pairs that are complete, and whether nothing was left over. */
  datatype Decoded = Decoded(pairs: seq<Pair>, ok: bool)

  datatype Parsed = NoPair | Parsed(pair: Pair, rest: seq<byte>)

  function DecodePair(s: seq<byte>): (p: Parsed)
    ensures p.Parsed? ==> |p.rest| < |s|
  {
    var n := DecodeLen(s);
    if n.NoLen? then NoPair
    else
      var v := DecodeLen(n.rest);
      if v.NoLen? || |v.rest| < n.n + v.n then NoPair
      else Parsed(Pair(v.rest[..n.n], v.rest[n.n..n.n + v.n]), v.rest[n.n + v.n..])
  }

  function DecodePairs(s: seq<byte>): (d: Decoded)
  {
    if s == [] then Decoded([], true)
    else
      var p := DecodePair(s);
      if p.NoPair? then Decoded([], false)
      else
        var d := DecodePairs(p.rest);
        d.(pairs := [p.pair] + d.pairs)
  }

  lemma LenRoundTrip(n: nat, rest: seq<byte>)
    requires n < MAX_LEN
    ensures DecodeLen(EncodeLen(n) + rest) == Len(n, rest)
  {
    var s := EncodeLen(n) + rest;
    if n < 0x80 {
      assert s[1..] == rest;
    } else {
      assert s[4..] == rest;
      FourBytes(n);
    }
  }

  lemma FourBytes(n: nat)
    requires n < MAX_LEN
    ensures (n / 0x100_0000 + 0x80) % 0x80 == n / 0x100_0000
    ensures n / 0x100_0000 * 0x100_0000 + n / 0x1_0000 % 256 * 0x1_0000 + n / 0x100 % 256 * 0x100 + n % 256 == n
  {
    assert n / 0x100_0000 < 0x80;
    FourBytesOf(n);
  }

  /** b is n in the format of the specification: a byte below 128, or four bytes, most significant first,
      with the top bit set. */
  predicate LenIs(b: seq<byte>, n: nat) {
    (|b| == 1 && b[0] < 0x80 && n == b[0]) || (|b| == 4 && b[0] >= 0x80 && n + MAX_LEN == BigEndian(b))
  }

  lemma FourByteLenIs(a: byte, b: byte, c: byte, d: byte)
    requires a >= 0x80
    ensures FourByteLen(a, b, c, d) + MAX_LEN == BigEndian([a, b, c, d])
  {
    BigEndianOf4(a, b, c, d);
  }

  /** A length is encoded in that format, the shorter form where it can be. */
  lemma EncodeLenIs(n: nat)
    requires n < MAX_LEN
    ensures LenIs(EncodeLen(n), n) && (|EncodeLen(n)| == 1 <==> n < 0x80)
  {
    if n >= 0x80 {
      var b := EncodeLen(n);
      FourBytes(n);
      FourByteLenIs(b[0], b[1], b[2], b[3]);
    }
  }

  lemma LenDecodes(b: seq<byte>, n: nat, rest: seq<byte>)
    requires LenIs(b, n)
    ensures DecodeLen(b + rest) == Len(n, rest)
  {
    hide FourByteLen, BigEndian;
    var s := b + rest;
    assert s[|b|..] == rest && s[0] == b[0];
    if |b| == 4 {
      assert b == [b[0], b[1], b[2], b[3]] && s[1] == b[1] && s[2] == b[2] && s[3] == b[3];
      FourByteLenIs(b[0], b[1], b[2], b[3]);
    }
  }

  lemma DecodedLen(s: seq<byte>) returns (b: seq<byte>)
    requires DecodeLen(s).Len?
    ensures LenIs(b, DecodeLen(s).n) && s == b + DecodeLen(s).rest
  {
    hide FourByteLen, BigEndian;
    b := s[..if s[0] < 0x80 then 1 else 4];
    if s[0] >= 0x80 {
      assert b == [s[0], s[1], s[2], s[3]];
      FourByteLenIs(s[0], s[1], s[2], s[3]);
    }
  }

  /** And a length is read exactly where there is one. */
  lemma DecodeLenIff(s: seq<byte>, n: nat, rest: seq<byte>)
    ensures DecodeLen(s) == Len(n, rest) <==> exists b :: LenIs(b, n) && s == b + rest
  {
    hide DecodeLen, LenIs;
    if DecodeLen(s) == Len(n, rest) {
      var b := DecodedLen(s);
    }
    if b: seq<byte> :| LenIs(b, n) && s == b + rest {
      LenDecodes(b, n, rest);
    }
  }

  /** s holds the lengths of name and value, the name and the value, in this order, and then rest. */
  ghost predicate Layout(s: seq<byte>, p: Pair, rest: seq<byte>) {
    exists a, b :: LenIs(a, |p.name|) && LenIs(b, |p.value|) && s == a + (b + (p.name + p.value + rest))
  }

  /** A pair is read exactly where there is one. */
  lemma DecodePairIff(s: seq<byte>, p: Pair, rest: seq<byte>)
    ensures DecodePair(s) == Parsed(p, rest) <==> Layout(s, p, rest)
  {
    hide DecodeLen, LenIs;
    var body := p.name + p.value + rest;
    if DecodePair(s) == Parsed(p, rest) {
      var n := DecodeLen(s);
      var v := DecodeLen(n.rest);
      assert v.rest == body;
      DecodeLenIff(s, n.n, n.rest);
      DecodeLenIff(n.rest, v.n, v.rest);
      var a :| LenIs(a, n.n) && s == a + n.rest;
      var b :| LenIs(b, v.n) && n.rest == b + v.rest;
      assert s == a + (b + body);
    }
    if Layout(s, p, rest) {
      var a, b :| LenIs(a, |p.name|) && LenIs(b, |p.value|) && s == a + (b + body);
      DecodeLenIff(s, |p.name|, b + body);
      DecodeLenIff(b + body, |p.value|, body);
      assert body[..|p.name|] == p.name && body[|p.name|..|p.name| + |p.value|] == p.value;
      assert body[|p.name| + |p.value|..] == rest;
    }
  }

  lemma PairStep(p: Pair, rest: seq<byte>)
    requires Encodable(p)
    ensures var d := DecodePairs(rest); DecodePairs(EncodePair(p) + rest) == d.(pairs := [p] + d.pairs)
  {
    var body := p.name + p.value + rest;
    var s := EncodePair(p) + rest;
    assert s == EncodeLen(|p.name|) + (EncodeLen(|p.value|) + body);
    LenRoundTrip(|p.name|, EncodeLen(|p.value|) + body);
    LenRoundTrip(|p.value|, body);
    assert body[..|p.name|] == p.name && body[|p.name|..|p.name| + |p.value|] == p.value;
    assert body[|p.name| + |p.value|..] == rest;
  }

  /** Decoding inverts encoding, for every list of pairs and in order. */
  lemma {:induction false} PairsRoundTrip(ps: seq<Pair>)
    requires forall p :: p in ps ==> Encodable(p)
    ensures DecodePairs(EncodePairs(ps)) == Decoded(ps, true)
  {
    if ps != [] {
      PairsRoundTrip(ps[1..]);
      PairStep(ps[0], EncodePairs(ps[1..]));
      assert [ps[0]] + ps[1..] == ps;
    }
  }

  /******* Encodings that are cut off *******/

  /** More bytes do not change what has been decoded. */
  lemma LenExtends(s: seq<byte>, more: seq<byte>)
    requires DecodeLen(s).Len?
    ensures DecodeLen(s + more) == Len(DecodeLen(s).n, DecodeLen(s).rest + more)
  {
    assert (s + more)[1..] == s[1..] + more;
    if |s| >= 4 { assert (s + more)[4..] == s[4..] + more; }
  }

  lemma PairExtends(s: seq<byte>, more: seq<byte>)
    requires DecodePair(s).Parsed?
    ensures DecodePair(s + more) == Parsed(DecodePair(s).pair, DecodePair(s).rest + more)
  {
    hide DecodeLen;
    LenExtends(s, more);
    var n := DecodeLen(s);
    LenExtends(n.rest, more);
    var v := DecodeLen(n.rest);
    var k := n.n + v.n;
    assert (v.rest + more)[..n.n] == v.rest[..n.n] && (v.rest + more)[n.n..k] == v.rest[n.n..k];
    assert (v.rest + more)[k..] == v.rest[k..] + more;
  }

  lemma PairDecodes(p: Pair)
    requires Encodable(p)
    ensures EncodePair(p) != [] && DecodePair(EncodePair(p)) == Parsed(p, [])
  {
    hide EncodeLen, DecodeLen;
    var e := EncodePair(p);
    assert e == EncodeLen(|p.name|) + (EncodeLen(|p.value|) + (p.name + p.value));
    LenRoundTrip(|p.name|, EncodeLen(|p.value|) + (p.name + p.value));
    LenRoundTrip(|p.value|, p.name + p.value);
  }

  /** A part of a pair is no pair. */
  lemma PartIsNoPair(p: Pair, s: seq<byte>)
    requires Encodable(p) && s < EncodePair(p)
    ensures DecodePair(s).NoPair?
  {
    hide DecodePair, EncodePair;
    var more := EncodePair(p)[|s|..];
    assert s + more == EncodePair(p);
    PairDecodes(p);
    if DecodePair(s).Parsed? {
      PairExtends(s, more);
    }
  }

  /** A prefix of encoded pairs decodes without complaint only if it is cut between two pairs. */
  lemma {:induction false} WholePairs(ps: seq<Pair>, s: seq<byte>) returns (k: nat)
    requires (forall p :: p in ps ==> Encodable(p)) && s <= EncodePairs(ps) && DecodePairs(s).ok
    ensures k <= |ps| && s == EncodePairs(ps[..k])
  {
    hide DecodePair, EncodePair;
    if s == [] {
      k := 0;
    } else {
      var e, more := EncodePair(ps[0]), EncodePairs(ps[1..]);
      if |s| < |e| {
        assert s == (e + more)[..|s|] == e[..|s|];
        PartIsNoPair(ps[0], s);
        assert false;
      }
      var rest := s[|e|..];
      assert s == e + rest && rest == more[..|rest|] by { assert (e + more)[..|s|] == e + more[..|s| - |e|]; }
      PairStep(ps[0], rest);
      k := WholePairs(ps[1..], rest);
      assert ps[..k + 1][0] == ps[0] && ps[..k + 1][1..] == ps[1..][..k];
      k := k + 1;
    }
  }

  /******* The Java encoder *******/

  /** A char of a Java string. */
  type unit = u: int | 0 <= u < 0x1_0000

  predicate Surrogate(u: unit) { 0xD800 <= u < 0xE000 }

  /** The first two chars are one character. */
  predicate Paired(s: seq<unit>) {
    |s| >= 2 && 0xD800 <= s[0] < 0xDC00 && 0xDC00 <= s[1] < 0xE000
  }

  /** UTF-8 of one char; a surrogate without its partner becomes '?'. */
  function Utf8Char(u: unit): (b: seq<byte>)
    ensures |b| >= 1 && (|b| == 1 <==> u < 0x80 || Surrogate(u))
  {
    if u < 0x80 then [u]
    else if u < 0x800 then [0xC0 + u / 0x40, 0x80 + u % 0x40]
    else if Surrogate(u) then [0x3F]
    else [0xE0 + u / 0x1000, 0x80 + u / 0x40 % 0x40, 0x80 + u % 0x40]
  }

  /** The character of a surrogate pair. */
  function Combined(hi: unit, lo: unit): (c: nat)
    requires 0xD800 <= hi < 0xDC00 && 0xDC00 <= lo < 0xE000
    ensures 0x1_0000 <= c < 0x11_0000
  {
    0x1_0000 + (hi as int - 0xD800) * 0x400 + (lo as int - 0xDC00)
  }

  function Utf8Pair(hi: unit, lo: unit): (b: seq<byte>)
    requires 0xD800 <= hi < 0xDC00 && 0xDC00 <= lo < 0xE000
    ensures |b| == 4
  {
    var c := Combined(hi, lo);
    [0xF0 + c / 0x4_0000, 0x80 + c / 0x1000 % 0x40, 0x80 + c / 0x40 % 0x40, 0x80 + c % 0x40]
  }

  /** getBytes("UTF-8"). */
  function Utf8(s: seq<unit>): (b: seq<byte>)
    ensures |b| >= |s|
  {
    if s == [] then []
    else if Paired(s) then Utf8Pair(s[0], s[1]) + Utf8(s[2..])
    else Utf8Char(s[0]) + Utf8(s[1..])
  }

  /** A string of ASCII characters is sent as those. */
  lemma {:induction false} Utf8OfAscii(s: seq<unit>)
    requires forall i :: 0 <= i < |s| ==> s[i] < 0x80
    ensures Utf8(s) == s && Sent(s) == s
  {
    if s != [] {
      Utf8OfAscii(s[1..]);
      assert [s[0]] + s[1..] == s;
    }
  }

  /** The character that a sequence of UTF-8 stands for (section 3 of RFC 3629). */
  function CodePoint(b: seq<byte>): int {
    match |b|
    case 1 => b[0] as int
    case 2 => (b[0] as int - 0xC0) * 0x40 + (b[1] as int - 0x80)
    case 3 => (b[0] as int - 0xE0) * 0x1000 + (b[1] as int - 0x80) * 0x40 + (b[2] as int - 0x80)
    case 4 =>
      (b[0] as int - 0xF0) * 0x4_0000 + (b[1] as int - 0x80) * 0x1000 + (b[2] as int - 0x80) * 0x40 + (b[3] as int - 0x80)
    case _ => -1
  }

  /** The length of the sequence that starts with this byte. */
  function SequenceLength(lead: byte): nat {
    if lead < 0x80 then 1 else if lead < 0xE0 then 2 else if lead < 0xF0 then 3 else 4
  }

  /** The characters of a text in UTF-8. */
  function Characters(b: seq<byte>): seq<int> {
    if b == [] || |b| < SequenceLength(b[0]) then []
    else [CodePoint(b[..SequenceLength(b[0])])] + Characters(b[SequenceLength(b[0])..])
  }

  /** All bytes of a sequence but the first are continuation bytes. */
  predicate Continues(b: seq<byte>) {
    forall i :: 1 <= i < |b| ==> 0x80 <= b[i] < 0xC0
  }

  /** Every char is encoded as itself, but for surrogates: a pair is one character, and one without its
      partner becomes a question mark. */
  lemma Utf8CharIs(u: unit)
    ensures Continues(Utf8Char(u)) && |Utf8Char(u)| == SequenceLength(Utf8Char(u)[0])
    ensures CodePoint(Utf8Char(u)) == if Surrogate(u) then '?' as int else u
  {
  }

  lemma Utf8PairIs(hi: unit, lo: unit)
    requires 0xD800 <= hi < 0xDC00 && 0xDC00 <= lo < 0xE000
    ensures Continues(Utf8Pair(hi, lo)) && |Utf8Pair(hi, lo)| == SequenceLength(Utf8Pair(hi, lo)[0])
    ensures CodePoint(Utf8Pair(hi, lo)) == Combined(hi, lo)
    ensures (Combined(hi, lo) - 0x1_0000) / 0x400 == hi - 0xD800 && (Combined(hi, lo) - 0x1_0000) % 0x400 == lo - 0xDC00
  {
    SixBits(Combined(hi, lo));
  }

  lemma SixBits(c: nat)
    ensures c / 0x4_0000 * 0x4_0000 + c / 0x1000 % 0x40 * 0x1000 + c / 0x40 % 0x40 * 0x40 + c % 0x40 == c
  {
    ShiftedTwice(c);
    ShiftedTwice(c / 0x40);
  }

  lemma ShiftedTwice(c: nat)
    ensures c / 0x40 / 0x40 == c / 0x1000 && c / 0x40 / 0x1000 == c / 0x4_0000 && c == c / 0x40 * 0x40 + c % 0x40
  {
  }

  /** The characters of a Java string: a surrogate pair is one, and one without its partner is lost. */
  function CharactersOf(s: seq<unit>): seq<int> {
    if s == [] then []
    else if Paired(s) then [Combined(s[0], s[1]) as int] + CharactersOf(s[2..])
    else [if Surrogate(s[0]) then '?' as int else s[0]] + CharactersOf(s[1..])
  }

  lemma CharacterFirst(e: seq<byte>, rest: seq<byte>)
    requires e != [] && |e| == SequenceLength(e[0])
    ensures Characters(e + rest) == [CodePoint(e)] + Characters(rest)
  {
    assert (e + rest)[..|e|] == e && (e + rest)[|e|..] == rest;
  }

  /** The bytes of a string stand for its characters. */
  lemma {:induction false} Utf8Decodes(s: seq<unit>)
    ensures Characters(Utf8(s)) == CharactersOf(s)
  {
    if s == [] {
    } else {
      hide Utf8Char, Utf8Pair, Characters, CodePoint, Combined, SequenceLength;
      if Paired(s) {
        Utf8PairIs(s[0], s[1]);
        Utf8Decodes(s[2..]);
        CharacterFirst(Utf8Pair(s[0], s[1]), Utf8(s[2..]));
      } else {
        Utf8CharIs(s[0]);
        Utf8Decodes(s[1..]);
        CharacterFirst(Utf8Char(s[0]), Utf8(s[1..]));
      }
    }
  }

  /** Every char takes one byte. */
  predicate Narrow(s: seq<unit>) {
    s == [] || (!Paired(s) && |Utf8Char(s[0])| == 1 && Narrow(s[1..]))
  }

  lemma {:induction false} NarrowIff(s: seq<unit>)
    ensures |Utf8(s)| == |s| <==> Narrow(s)
  {
    if s != [] && !Paired(s) { NarrowIff(s[1..]); }
  }

  /** What is sent of a string: as many of its bytes as it has chars. */
  function Sent(s: seq<unit>): seq<byte> { Utf8(s)[..|s|] }

  /** The pair is read back with all bytes of its strings if and only if every char takes one byte. */
  lemma ReadsBackIffNarrow(name: seq<unit>, value: seq<unit>)
    requires Encodable(Pair(Sent(name), Sent(value)))
    ensures DecodePairs(EncodePair(Pair(Sent(name), Sent(value)))) == Decoded([Pair(Utf8(name), Utf8(value))], true)
      <==> Narrow(name) && Narrow(value)
  {
    hide EncodePair, DecodePairs, Utf8;
    var p := Pair(Sent(name), Sent(value));
    PairStep(p, []);
    assert EncodePair(p) + [] == EncodePair(p) && [p] + [] == [p];
    NoPairs();
    NarrowIff(name);
    NarrowIff(value);
    assert Sent(name) == Utf8(name) <==> |Utf8(name)| == |name|;
    assert Sent(value) == Utf8(value) <==> |Utf8(value)| == |value|;
  }

  lemma NoPairs()
    ensures DecodePairs([]) == Decoded([], true)
  {
  }

  /** makeNameVal: writes one pair into dest at pos. Its lengths count chars, its contents are bytes. */
  method MakeNameVal(name: seq<unit>, value: seq<unit>, dest: array<byte>, pos: nat)
    requires var p := Pair(Sent(name), Sent(value)); Encodable(p) && pos + |EncodePair(p)| <= dest.Length
    modifies dest
    ensures var p := Pair(Sent(name), Sent(value));
      var end := pos + |EncodePair(p)|;
      dest[..end] == old(dest[..pos]) + EncodePair(p) && dest[end..] == old(dest[end..])
  {
    hide EncodeLen, Utf8;
    var p := MakeLen(|name|, dest, pos);
    p := MakeLen(|value|, dest, p);
    p := CopyIn(Utf8(name)[..|name|], dest, p);
    p := CopyIn(Utf8(value)[..|value|], dest, p);
  }

  /** System.arraycopy of these bytes. */
  method CopyIn(bytes: seq<byte>, dest: array<byte>, pos: nat) returns (p: nat)
    requires pos + |bytes| <= dest.Length
    modifies dest
    ensures p == pos + |bytes| && dest[..p] == old(dest[..pos]) + bytes
    ensures forall e :: p <= e <= dest.Length ==> dest[e..] == old(dest[e..])
  {
    forall i | 0 <= i < |bytes| { dest[pos + i] := bytes[i]; }
    p := pos + |bytes|;
  }

  method MakeLen(n: nat, dest: array<byte>, pos: nat) returns (p: nat)
    requires n < MAX_LEN && pos + |EncodeLen(n)| <= dest.Length
    modifies dest
    ensures p == pos + |EncodeLen(n)| && dest[..p] == old(dest[..pos]) + EncodeLen(n)
    ensures forall e :: p <= e <= dest.Length ==> dest[e..] == old(dest[e..])
  {
    p := pos;
    if n < 0x80 {
      dest[p] := n;
      p := p + 1;
    } else {
      dest[p], dest[p + 1], dest[p + 2], dest[p + 3] := n / 0x100_0000 + 0x80, n / 0x1_0000 % 256, n / 0x100 % 256, n % 256;
      p := p + 4;
    }
  }
}
