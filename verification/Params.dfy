/** The environment of a request: the growing vector of "name=value" strings, the loop that fills it
    from the params stream, and the lookup (fcgi/libfcgi/fcgiapp.c). */
module Params {
  import opened Basics
  import opened Deframing
  import opened NameValues
  import R = Reader

  const EQUALS: byte := 61

  datatype Slot = Null | Str(chars: seq<byte>)

  /** A NULL-terminated vector; cur is the index of the terminating NULL. */
  class Params {
    var vec: array<Slot>
    var length: nat
    var cur: nat

    ghost predicate Valid()
      reads this, vec
    {
      && cur < length == vec.Length && vec[cur] == Null
      && forall i :: 0 <= i < cur ==> vec[i].Str?
    }

    ghost function Entries(): (es: seq<seq<byte>>)
      requires Valid()
      reads this, vec
    {
      seq(cur, i requires 0 <= i < cur reads this, vec requires Valid() => vec[i].chars)
    }

    /** NewParams. */
    constructor (length: nat)
      requires length > 0
      ensures Valid() && fresh(vec) && Entries() == []
    {
      vec := new Slot[length](i => Null);
      this.length, cur := length, 0;
    }

    /** PutParam: the vector doubles when the terminating NULL would not fit. */
    method PutParam(nameValue: seq<byte>)
      requires Valid()
      modifies this, vec
      ensures Valid() && (fresh(vec) || vec == old(vec))
      ensures Entries() == old(Entries()) + [nameValue]
    {
      vec[cur] := Str(nameValue);
      cur := cur + 1;
      var size := cur;
      if size >= length {
        length := length * 2;
        var old_vec := vec;
        vec := new Slot[length](i => Null);
        forall i | 0 <= i < size { vec[i] := old_vec[i]; }
      }
      vec[cur] := Null;
      assert forall i :: 0 <= i < size ==> vec[i].Str? && vec[i].chars == (old(Entries()) + [nameValue])[i];
    }
  }

  function Entry(p: Pair): seq<byte> {
    p.name + [EQUALS] + p.value
  }

  function EntriesOf(ps: seq<Pair>): (es: seq<seq<byte>>)
    ensures |es| == |ps| && forall i :: 0 <= i < |es| ==> es[i] == Entry(ps[i])
  {
    seq(|ps|, i requires 0 <= i < |ps| => Entry(ps[i]))
  }

  /******* Lookup *******/

  /** The C string that starts a block of bytes: up to the first NUL. */
  function CString(s: seq<byte>): (c: seq<byte>)
    ensures c <= s && 0 !in c
  {
    if s == [] || s[0] == 0 then [] else [s[0]] + CString(s[1..])
  }

  /** strncmp(name, entry, strlen(name)) == 0 and the next character is '='. */
  predicate Matches(name: seq<byte>, entry: seq<byte>) {
    var e := CString(entry);
    |name| < |e| && e[..|name|] == name && e[|name|] == EQUALS
  }

  /** The text after the name in the first matching entry. */
  function Lookup(name: seq<byte>, es: seq<seq<byte>>): Slot {
    if es == [] then Null
    else if Matches(name, es[0]) then Str(CString(es[0])[|name| + 1..])
    else Lookup(name, es[1..])
  }

  method GetParam(name: seq<byte>, env: Params) returns (r: Slot)
    requires env.Valid()
    ensures r == Lookup(CString(name), env.Entries())
  {
    var n := CString(name);
    ghost var es := env.Entries();
    var p := 0;
    assert es[0..] == es;
    while env.vec[p] != Null
      invariant p <= env.cur == |es| && Lookup(n, es[p..]) == Lookup(n, es)
      decreases env.cur - p
    {
      var e := env.vec[p].chars;
      assert e == es[p] && es[p..][1..] == es[p + 1..];
      if Matches(n, e) {
        return Str(CString(e)[|n| + 1..]);
      }
      p := p + 1;
    }
    return Null;
  }

  predicate PlainName(s: seq<byte>) {
    0 !in s && EQUALS !in s
  }

  lemma {:induction false} CStringOfPlain(s: seq<byte>)
    requires 0 !in s
    ensures CString(s) == s
  {
    if s != [] { CStringOfPlain(s[1..]); }
  }

  /** The entry of p answers for a name that is not its own. */
  predicate Misleads(name: seq<byte>, p: Pair) {
    p.name != name && name + [EQUALS] <= CString(Entry(p))
  }

  lemma CStringOfEntry(p: Pair)
    ensures CString(Entry(p)) == if 0 in p.name then CString(p.name) else p.name + [EQUALS] + CString(p.value)
  {
    CStringSplit(p.name, p.value);
  }

  lemma {:induction false} CStringSplit(a: seq<byte>, v: seq<byte>)
    ensures CString(a + [EQUALS] + v) == if 0 in a then CString(a) else a + [EQUALS] + CString(v)
  {
    var s := a + [EQUALS] + v;
    if a == [] {
      assert s[1..] == v;
    } else {
      CStringSplit(a[1..], v);
      assert s[1..] == a[1..] + [EQUALS] + v;
      assert a == [a[0]] + a[1..];
    }
  }

  lemma StartsWith(name: seq<byte>, e: seq<byte>)
    ensures name + [EQUALS] <= e <==> |name| < |e| && e[..|name|] == name && e[|name|] == EQUALS
  {
    if name + [EQUALS] <= e {
      assert e[..|name|] == (name + [EQUALS])[..|name|] && e[|name|] == (name + [EQUALS])[|name|];
    } else if |name| < |e| {
      assert e[..|name| + 1] == e[..|name|] + [e[|name|]];
    }
  }

  /** An entry matches its own name, if that has no NUL, and the names it misleads. */
  lemma MatchesIff(name: seq<byte>, p: Pair)
    requires 0 !in name
    ensures Matches(name, Entry(p)) <==> p.name == name || Misleads(name, p)
  {
    hide CString, Entry;
    CStringOfEntry(p);
    StartsWith(name, CString(Entry(p)));
    if p.name == name { assert name + [EQUALS] <= name + [EQUALS] + CString(p.value); }
  }

  /** A name without '=' is only misled by a name that contains one: the text before it is taken for
      the name. A NUL in the other name hides what follows it. */
  lemma MisleadsIff(name: seq<byte>, p: Pair)
    requires PlainName(name)
    ensures Misleads(name, p) <==> name + [EQUALS] <= CString(p.name)
  {
    hide CString, Entry;
    CStringOfEntry(p);
    if 0 in p.name {
      assert p.name != name;
    } else {
      CStringOfPlain(p.name);
      PrefixOfName(name, p.name, CString(p.value));
    }
  }

  lemma PrefixOfName(name: seq<byte>, other: seq<byte>, value: seq<byte>)
    requires EQUALS !in name
    ensures name + [EQUALS] <= other + [EQUALS] + value <==> name == other || name + [EQUALS] <= other
    ensures name + [EQUALS] <= other ==> name != other
  {
    var e := other + [EQUALS] + value;
    StartsWith(name, e);
    StartsWith(name, other);
    assert e[..|other|] == other && e[|other|] == EQUALS;
    if |name| < |other| {
      assert e[..|name|] == other[..|name|] && e[|name|] == other[|name|];
    }
  }

  /** The first entry that GetParam stops at, and the first pair of the name; the length of the list
      if there is none. */
  function Found(name: seq<byte>, es: seq<seq<byte>>): (i: nat)
    ensures i <= |es|
  {
    if es == [] || Matches(name, es[0]) then 0 else 1 + Found(name, es[1..])
  }

  function First(name: seq<byte>, ps: seq<Pair>): (i: nat)
    ensures i <= |ps|
    ensures i < |ps| ==> ps[i].name == name
    ensures forall j :: 0 <= j < i ==> ps[j].name != name
  {
    if ps == [] || ps[0].name == name then 0 else 1 + First(name, ps[1..])
  }

  /** GetParam stops at the first pair of the name if and only if no pair before it misleads. */
  lemma {:induction false} FoundIff(name: seq<byte>, ps: seq<Pair>)
    requires 0 !in name
    ensures Found(name, EntriesOf(ps)) == First(name, ps) <==> forall i :: 0 <= i < First(name, ps) ==> !Misleads(name, ps[i])
  {
    if ps != [] {
      MatchesIff(name, ps[0]);
      assert EntriesOf(ps)[0] == Entry(ps[0]) && EntriesOf(ps)[1..] == EntriesOf(ps[1..]);
      if ps[0].name != name {
        var k := First(name, ps[1..]);
        assert First(name, ps) == k + 1;
        FoundIff(name, ps[1..]);
        assert forall i :: 0 <= i < k ==> ps[1..][i] == ps[i + 1];
        if Misleads(name, ps[0]) {
          assert Found(name, EntriesOf(ps)) == 0;
        } else {
          assert (forall i :: 0 <= i < k ==> !Misleads(name, ps[1..][i])) <==> forall i :: 0 <= i < k + 1 ==> !Misleads(name, ps[i]) by {
            if forall i :: 0 <= i < k ==> !Misleads(name, ps[1..][i]) {
              forall i | 0 <= i < k + 1 ensures !Misleads(name, ps[i]) { if i > 0 { assert ps[1..][i - 1] == ps[i]; } }
            }
          }
        }
      }
    }
  }

  /** The value bound first to name. */
  function FirstValue(name: seq<byte>, ps: seq<Pair>): Slot {
    var i := First(name, ps);
    if i == |ps| then Null else Str(ps[i].value)
  }

  lemma {:induction false} LookupIsFound(name: seq<byte>, es: seq<seq<byte>>)
    ensures var i := Found(name, es); i < |es| ==> Matches(name, es[i])
    ensures var i := Found(name, es);
      Lookup(name, es) == if i == |es| then Null else Str(CString(es[i])[|name| + 1..])
  {
    if es != [] && !Matches(name, es[0]) { LookupIsFound(name, es[1..]); }
  }

  /** Unless a pair is misleading, the answer is the value bound first, if and only if that has no
      NUL; otherwise it is the value up to the NUL. */
  lemma LookupIff(name: seq<byte>, ps: seq<Pair>)
    requires 0 !in name && forall i :: 0 <= i < First(name, ps) ==> !Misleads(name, ps[i])
    ensures var i, r := First(name, ps), Lookup(name, EntriesOf(ps));
      && (i == |ps| ==> r == Null)
      && (i < |ps| ==> r == Str(CString(ps[i].value)))
      && (r == FirstValue(name, ps) <==> i == |ps| || 0 !in ps[i].value)
  {
    var i, es := First(name, ps), EntriesOf(ps);
    FoundIff(name, ps);
    LookupIsFound(name, es);
    if i < |ps| {
      CStringOfEntry(ps[i]);
      assert CString(es[i])[|name| + 1..] == CString(ps[i].value);
      if 0 !in ps[i].value { CStringOfPlain(ps[i].value); }
    }
  }

  /** In particular the answer is right when names and values have no NUL and names no '='. */
  lemma LookupFindsFirst(name: seq<byte>, ps: seq<Pair>)
    requires PlainName(name) && forall p :: p in ps ==> PlainName(p.name) && 0 !in p.value
    ensures Lookup(name, EntriesOf(ps)) == FirstValue(name, ps)
  {
    forall i | 0 <= i < First(name, ps) ensures !Misleads(name, ps[i]) {
      assert ps[i] in ps;
      MisleadsIff(name, ps[i]);
      CStringOfPlain(ps[i].name);
      StartsWith(name, ps[i].name);
    }
    LookupIff(name, ps);
  }

  /** A name that contains '=' is found under what precedes the '='. */
  lemma NameWithEqualsIsMisread()
    ensures var p := Pair([65, EQUALS, 66], [67]);
      Lookup([65], EntriesOf([p])) == Str([66, EQUALS, 67]) && FirstValue([65], [p]) == Null
  {
    var p := Pair([65, EQUALS, 66], [67]);
    var e := Entry(p);
    assert e == [65, 61, 66, 61, 67];
    CStringOfPlain(e);
    assert EntriesOf([p])[0] == e;
    assert [p][1..] == [];
  }

  /******* ReadParams *******/

  /** A client in the middle of a stream: rest is the content still to come, then comes end; owed is
      all that will have been written to the connection by then. */
  ghost predicate Reading(s: R.Stream, rest: seq<byte>, end: End, owed: seq<byte>, errno0: int)
    reads s, s.buff, s.request, s.request.socket
  {
    && s.Valid() && s.CanUnget() && !s.eorStop && s.request.isBeginProcessed && !s.isClosed && s.errno == errno0
    && s.Rest().content == rest && s.Rest().end == end
    && s.request.socket.outgoing + s.Rest().replies == owed
  }

  /** A client that has read the stream to its end. */
  ghost predicate Over(s: R.Stream, end: End, owed: seq<byte>, errno0: int)
    reads s, s.buff, s.request, s.request.socket
  {
    && s.Valid() && s.CanUnget() && !s.eorStop && s.isClosed && s.Ended(end, errno0)
    && s.request.socket.outgoing == owed
  }

  method NextByte(s: R.Stream, ghost rest: seq<byte>, ghost end: End, ghost owed: seq<byte>, ghost errno0: int) returns (c: int)
    requires Reading(s, rest, end, owed, errno0)
    modifies s, s.buff, s.request, s.request.socket
    ensures s.rtype == old(s.rtype) && unchanged(s.request)
    ensures rest == [] ==> c == R.EOF && Over(s, end, owed, errno0)
    ensures rest != [] ==> c == rest[0] && Reading(s, rest[1..], end, owed, errno0)
  {
    hide Deliver;
    c := s.GetChar();
  }

  method NextBytes(s: R.Stream, n: nat, ghost rest: seq<byte>, ghost end: End, ghost owed: seq<byte>, ghost errno0: int)
      returns (str: seq<byte>)
    requires Reading(s, rest, end, owed, errno0)
    modifies s, s.buff, s.request, s.request.socket
    ensures s.rtype == old(s.rtype) && unchanged(s.request)
    ensures |rest| < n ==> str == rest && Over(s, end, owed, errno0)
    ensures n <= |rest| ==> str == rest[..n] && Reading(s, rest[n..], end, owed, errno0)
  {
    hide Deliver;
    str := s.GetStr(n);
  }

  /** One length of a pair, of which the first byte has been read; -1 if the stream ends in it. */
  method ReadLen(s: R.Stream, first: byte, ghost rest: seq<byte>, ghost end: End, ghost owed: seq<byte>, ghost errno0: int)
      returns (n: int)
    requires Reading(s, rest, end, owed, errno0)
    modifies s, s.buff, s.request, s.request.socket
    ensures s.rtype == old(s.rtype) && unchanged(s.request)
    ensures var l := DecodeLen([first] + rest);
      if l.NoLen? then n == -1 && Over(s, end, owed, errno0) else n == l.n && Reading(s, l.rest, end, owed, errno0)
  {
    hide Reading, Over;
    ghost var w := [first] + rest;
    assert w[1..] == rest;
    if first < 0x80 { return first; }
    var b := NextBytes(s, 3, rest, end, owed, errno0);
    if |b| != 3 { return -1; }
    assert w[4..] == rest[3..] && b[0] == w[1] && b[1] == w[2] && b[2] == w[3];
    return FourByteLen(first, b[0], b[1], b[2]);
  }

  /** The body of ReadParams' loop: a pair whose first byte has been read. */
  method ReadPair(s: R.Stream, first: byte, ghost rest: seq<byte>, ghost end: End, ghost owed: seq<byte>, ghost errno0: int)
      returns (ok: bool, pair: Pair)
    requires Reading(s, rest, end, owed, errno0)
    modifies s, s.buff, s.request, s.request.socket
    ensures s.rtype == old(s.rtype) && unchanged(s.request)
    ensures var p := DecodePair([first] + rest);
      if p.NoPair? then !ok && Over(s, end, owed, errno0)
      else ok && pair == p.pair && Reading(s, p.rest, end, owed, errno0)
  {
    hide Reading, Over, DecodeLen;
    ok, pair := false, Pair([], []);
    ghost var l := DecodeLen([first] + rest);
    var nameLen := ReadLen(s, first, rest, end, owed, errno0);
    if nameLen < 0 { return; }
    ghost var more := l.rest;
    DecodeLenOfNothing();
    var c := NextByte(s, more, end, owed, errno0);
    if c == R.EOF { return; }
    assert more == [c] + more[1..];
    l := DecodeLen(more);
    var valueLen := ReadLen(s, c, more[1..], end, owed, errno0);
    if valueLen < 0 { return; }
    more := l.rest;
    var name := NextBytes(s, nameLen, more, end, owed, errno0);
    if |name| != nameLen { return; }
    var value := NextBytes(s, valueLen, more[nameLen..], end, owed, errno0);
    if |value| != valueLen { return; }
    assert more[nameLen..][..valueLen] == more[nameLen..nameLen + valueLen];
    assert more[nameLen..][valueLen..] == more[nameLen + valueLen..];
    return true, Pair(name, value);
  }

  lemma StartReading(s: R.Stream)
    requires s.Valid() && s.CanUnget() && !s.eorStop && s.request.isBeginProcessed && !s.isClosed
    ensures Reading(s, s.Rest().content, s.Rest().end, s.request.socket.outgoing + s.Rest().replies, s.errno)
  {
  }

  /** A params stream that ended inside a pair. */
  ghost predicate Broken(s: R.Stream, end: End, owed: seq<byte>, errno0: int)
    reads s, s.buff, s.request, s.request.socket
  {
    s.Valid() && s.isClosed && s.request.socket.outgoing == owed
    && (end.Eof? ==> s.errno == R.FirstError(errno0, PARAMS_ERROR))
  }

  method Break(s: R.Stream, ghost end: End, ghost owed: seq<byte>, ghost errno0: int)
    requires Over(s, end, owed, errno0)
    modifies s`errno, s`isClosed
    ensures Broken(s, end, owed, errno0)
  {
    s.SetError(PARAMS_ERROR);
  }

  lemma DecodeLenOfNothing()
    ensures DecodeLen([]) == NoLen
  {
  }

  /** ReadParams: adds every pair of the stream to params; -1 if the stream ends inside a pair. A
      stream that fails between two pairs is taken for a complete one. */
  method ReadParams(params: Params, s: R.Stream) returns (r: int)
    requires params.Valid()
    requires s.Valid() && s.CanUnget() && !s.eorStop && s.request.isBeginProcessed && !s.isClosed
    modifies params, params.vec, s, s.buff, s.request, s.request.socket
    ensures params.Valid() && (fresh(params.vec) || params.vec == old(params.vec)) && s.rtype == old(s.rtype)
    ensures unchanged(s.request)
    ensures
      var d := DecodePairs(old(s.Rest()).content);
      params.Entries() == old(params.Entries()) + EntriesOf(d.pairs) && r == (if d.ok then 0 else -1)
    ensures
      var d := old(s.Rest());
      var owed := old(s.request.socket.outgoing) + d.replies;
      if r == 0 then Over(s, d.end, owed, old(s.errno)) else Broken(s, d.end, owed, old(s.errno))
  {
    hide Reading, Over, Broken, DecodePair, DecodePairs, EntriesOf, Entry;
    ghost var d, errno0 := s.Rest(), s.errno;
    ghost var owed := s.request.socket.outgoing + d.replies;
    ghost var all := DecodePairs(d.content);
    ghost var rest, ps := d.content, [];
    StartReading(s);
    assert ps + all.pairs == all.pairs;
    NoEntries();
    assert old(params.Entries()) + [] == old(params.Entries());
    while true
      invariant params.Valid() && (fresh(params.vec) || params.vec == old(params.vec)) && s.rtype == old(s.rtype)
      invariant Reading(s, rest, d.end, owed, errno0) && unchanged(s.request)
      invariant all == Decoded(ps + DecodePairs(rest).pairs, DecodePairs(rest).ok)
      invariant params.Entries() == old(params.Entries()) + EntriesOf(ps)
      decreases |rest|
    {
      NextPair(ps, rest, all);
      var c := NextByte(s, rest, d.end, owed, errno0);
      if c == R.EOF {
        return 0;
      }
      assert rest == [c] + rest[1..];
      ghost var p := DecodePair(rest);
      var ok, pair := ReadPair(s, c, rest[1..], d.end, owed, errno0);
      if !ok {
        Break(s, d.end, owed, errno0);
        return -1;
      }
      params.PutParam(Entry(pair));
      MoreEntries(ps, pair);
      rest, ps := p.rest, ps + [pair];
    }
  }

  /** How the decoding of all goes on, after the pairs ps, with what DecodePair makes of the rest. */
  lemma NextPair(ps: seq<Pair>, rest: seq<byte>, all: Decoded)
    requires all == Decoded(ps + DecodePairs(rest).pairs, DecodePairs(rest).ok)
    ensures rest == [] ==> all == Decoded(ps, true)
    ensures rest != [] ==>
      var p := DecodePair(rest);
      if p.NoPair? then all == Decoded(ps, false)
      else all == Decoded(ps + [p.pair] + DecodePairs(p.rest).pairs, DecodePairs(p.rest).ok)
  {
    hide DecodePair;
    assert ps + [] == ps;
    if rest != [] && DecodePair(rest).Parsed? {
      var p := DecodePair(rest);
      assert ps + ([p.pair] + DecodePairs(p.rest).pairs) == ps + [p.pair] + DecodePairs(p.rest).pairs;
    }
  }

  lemma NoEntries()
    ensures EntriesOf([]) == []
  {
  }

  lemma MoreEntries(ps: seq<Pair>, pair: Pair)
    ensures EntriesOf(ps + [pair]) == EntriesOf(ps) + [Entry(pair)]
  {
  }
}
