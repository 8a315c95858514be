/** Splitting a colour profile into numbered JPEG markers (src/JPEGCompressor.cc, writeICCProfile)
    and joining it again (Annex B of the ICC.1 specification). */
module Icc {
  import opened Basics

  const ICC_MARKER := 0xE2
  const OVERHEAD := 14
  const MAX_DATA := 65533 - OVERHEAD
  const IDENTIFIER: seq<byte> := [0x49, 0x43, 0x43, 0x5F, 0x50, 0x52, 0x4F, 0x46, 0x49, 0x4C, 0x45, 0x0]

  /** A marker: its code, the length announced in its header, and the bytes that follow. */
  datatype Marker = Marker(code: int, length: nat, body: seq<byte>)

  /** A number as the writer stores it in one byte. */
  function Low(n: nat): byte { n % 256 }

  /** The number of markers for a profile of n bytes. */
  function Markers(n: nat): nat { n / MAX_DATA + if n / MAX_DATA * MAX_DATA != n then 1 else 0 }

  /** The part of the profile in marker k, counting from 0. */
  function Chunk(icc: seq<byte>, k: nat): seq<byte>
    requires k < Markers(|icc|)
  {
    icc[k * MAX_DATA..Min((k + 1) * MAX_DATA, |icc|)]
  }

  function NthMarker(icc: seq<byte>, k: nat): Marker
    requires k < Markers(|icc|)
  {
    var data := Chunk(icc, k);
    Marker(ICC_MARKER, |data| + OVERHEAD, IDENTIFIER + [Low(k + 1), Low(Markers(|icc|))] + data)
  }

  function AllMarkers(icc: seq<byte>): (ms: seq<Marker>)
    ensures |ms| == Markers(|icc|) && forall k :: 0 <= k < |ms| ==> ms[k] == NthMarker(icc, k)
  {
    seq(Markers(|icc|), k requires 0 <= k < Markers(|icc|) => NthMarker(icc, k))
  }

  /** Each marker holds at least one byte of the profile and no more than fit. */
  lemma ChunkSize(icc: seq<byte>, k: nat)
    requires k < Markers(|icc|)
    ensures 1 <= |Chunk(icc, k)| <= MAX_DATA
    ensures |Chunk(icc, k)| == Min((k + 1) * MAX_DATA, |icc|) - k * MAX_DATA
    ensures OVERHEAD < NthMarker(icc, k).length == |NthMarker(icc, k).body| <= 65533
  {
  }

  /** One marker: its header, the identifier, the numbers and length bytes from pos on. */
  method WriteMarker(icc: seq<byte>, pos: nat, length: nat, current: nat, markers: nat) returns (m: Marker, next: nat)
    requires pos + length <= |icc|
    ensures m == Marker(ICC_MARKER, length + OVERHEAD, IDENTIFIER + [Low(current), Low(markers)] + icc[pos..pos + length])
    ensures next == pos + length
  {
    hide Low;
    var head := IDENTIFIER + [Low(current), Low(markers)];
    var body := head;
    next := pos;
    for i := 0 to length
      invariant next == pos + i && body == head + icc[pos..next]
    {
      body := body + [icc[next]];
      next := next + 1;
    }
    m := Marker(ICC_MARKER, length + OVERHEAD, body);
  }

  method WriteICCProfile(icc: seq<byte>) returns (out: seq<Marker>)
    ensures out == AllMarkers(icc)
    ensures forall m :: m in out ==> OVERHEAD < m.length == |m.body| <= 65533
  {
    out := [];
    if |icc| == 0 { return; }
    var remaining, pos, current := |icc|, 0, 1;
    var markers := remaining / MAX_DATA;
    if markers * MAX_DATA != remaining {
      markers := markers + 1;
    }
    assert markers == Markers(|icc|);
    hide NthMarker, Markers, Low;
    while remaining > 0
      invariant 0 <= remaining && pos == |icc| - remaining == Min(|out| * MAX_DATA, |icc|)
      invariant current == |out| + 1 && |out| <= markers
      invariant forall k :: 0 <= k < |out| ==> out[k] == NthMarker(icc, k)
      invariant forall m :: m in out ==> OVERHEAD < m.length == |m.body| <= 65533
    {
      var length := remaining;
      if length > MAX_DATA {
        length := MAX_DATA;
      }
      remaining := remaining - length;
      NextMarker(icc, |out|, pos, length);
      var m;
      m, pos := WriteMarker(icc, pos, length, current, markers);
      out := out + [m];
      current := current + 1;
    }
    AllWritten(|icc|, |out|);
  }

  lemma NextMarker(icc: seq<byte>, k: nat, pos: nat, length: nat)
    requires pos == k * MAX_DATA < |icc| && length == Min(|icc| - pos, MAX_DATA)
    ensures k < Markers(|icc|) && OVERHEAD < length + OVERHEAD == |NthMarker(icc, k).body| <= 65533
    ensures Marker(ICC_MARKER, length + OVERHEAD, IDENTIFIER + [Low(k + 1), Low(Markers(|icc|))] + icc[pos..pos + length])
         == NthMarker(icc, k)
  {
    ChunkSize(icc, k);
  }

  lemma AllWritten(n: nat, k: nat)
    requires n <= k * MAX_DATA
    ensures Markers(n) <= k
  {
  }

  /******* Joining *******/

  predicate IsPart(m: Marker) {
    m.code == ICC_MARKER && |m.body| >= OVERHEAD && m.body[..12] == IDENTIFIER
  }

  /** The data of the first marker with number k; nothing if there is none. */
  function Numbered(ms: seq<Marker>, k: nat): seq<byte> {
    if ms == [] then []
    else if IsPart(ms[0]) && ms[0].body[12] == k then ms[0].body[OVERHEAD..]
    else Numbered(ms[1..], k)
  }

  function Joined(ms: seq<Marker>, n: nat): seq<byte> {
    if n == 0 then [] else Joined(ms, n - 1) + Numbered(ms, n)
  }

  /** What a decoder makes of the markers it has found, in whatever order. */
  function Reassemble(ms: seq<Marker>): seq<byte> {
    if ms == [] || !IsPart(ms[0]) then [] else Joined(ms, ms[0].body[13])
  }

  /** What the decoder reads in a marker of the profile. */
  lemma NthReads(icc: seq<byte>, k: nat)
    requires k < Markers(|icc|)
    ensures var m := NthMarker(icc, k);
      && IsPart(m) && |m.body| <= 65533
      && m.body[12] == Low(k + 1) && m.body[13] == Low(Markers(|icc|)) && m.body[OVERHEAD..] == Chunk(icc, k)
  {
    ChunkSize(icc, k);
    assert NthMarker(icc, k).body[..12] == IDENTIFIER;
  }

  lemma MarkerReads(icc: seq<byte>, m: Marker) returns (k: nat)
    requires m in AllMarkers(icc)
    ensures k < Markers(|icc|) && m == NthMarker(icc, k) && IsPart(m) && |m.body| <= 65533
    ensures m.body[12] == Low(k + 1) && m.body[13] == Low(Markers(|icc|)) && m.body[OVERHEAD..] == Chunk(icc, k)
  {
    k :| 0 <= k < Markers(|icc|) && m == NthMarker(icc, k);
    NthReads(icc, k);
  }

  lemma {:induction false} NumberedIs(ms: seq<Marker>, icc: seq<byte>, k: nat)
    requires k < Markers(|icc|) <= 255
    requires forall m :: m in ms ==> m in AllMarkers(icc)
    ensures NthMarker(icc, k) in ms ==> Numbered(ms, k + 1) == Chunk(icc, k)
    decreases |ms|
  {
    hide NthMarker, Chunk, Markers, IsPart, AllMarkers;
    if ms != [] {
      var j := MarkerReads(icc, ms[0]);
      NthReads(icc, k);
      NumberedIs(ms[1..], icc, k);
    }
  }

  lemma {:induction false} JoinedIs(ms: seq<Marker>, icc: seq<byte>, n: nat)
    requires n <= Markers(|icc|) <= 255 && multiset(ms) == multiset(AllMarkers(icc))
    ensures 0 <= n * MAX_DATA && Joined(ms, n) == icc[..Min(n * MAX_DATA, |icc|)]
  {
    if n > 0 {
      hide NthMarker, Numbered, Markers, Chunk, Min, AllMarkers;
      JoinedIs(ms, icc, n - 1);
      Present(ms, icc, n - 1);
      ChunkEnds(icc, n - 1);
    }
  }

  lemma Present(ms: seq<Marker>, icc: seq<byte>, k: nat)
    requires k < Markers(|icc|) <= 255 && multiset(ms) == multiset(AllMarkers(icc))
    ensures Numbered(ms, k + 1) == Chunk(icc, k)
  {
    hide NthMarker, Numbered, Markers, Chunk;
    SameMembers(ms, AllMarkers(icc));
    assert AllMarkers(icc)[k] in ms;
    NumberedIs(ms, icc, k);
  }

  lemma ChunkEnds(icc: seq<byte>, k: nat)
    requires k < Markers(|icc|)
    ensures 0 <= k * MAX_DATA && 0 <= (k + 1) * MAX_DATA
    ensures icc[..Min(k * MAX_DATA, |icc|)] + Chunk(icc, k) == icc[..Min((k + 1) * MAX_DATA, |icc|)]
  {
    ChunkSize(icc, k);
  }

  lemma SameMembers(a: seq<Marker>, b: seq<Marker>)
    requires multiset(a) == multiset(b)
    ensures |a| == |b| && forall m :: m in a <==> m in b
  {
    assert |multiset(a)| == |a| && |multiset(b)| == |b|;
    forall m ensures m in a <==> m in b {
      assert m in a <==> m in multiset(a);
      assert m in b <==> m in multiset(b);
    }
  }

  lemma {:induction false} JoinedShort(ms: seq<Marker>, n: nat)
    requires forall m :: m in ms ==> |m.body| <= 65533
    ensures |Joined(ms, n)| <= n * MAX_DATA
  {
    if n > 0 {
      JoinedShort(ms, n - 1);
      NumberedShort(ms, n);
    }
  }

  lemma {:induction false} NumberedShort(ms: seq<Marker>, k: nat)
    requires forall m :: m in ms ==> |m.body| <= 65533
    ensures |Numbered(ms, k)| <= MAX_DATA
    decreases |ms|
  {
    if ms != [] {
      NumberedShort(ms[1..], k);
    }
  }

  lemma MarkersFit(n: nat)
    ensures Markers(n) == 0 <==> n == 0
    ensures n <= Markers(n) * MAX_DATA
    ensures Markers(n) <= 255 <==> n <= 255 * MAX_DATA
  {
  }

  /** The markers of a profile, in any order, give the profile back if and only if their numbers fit
      into a byte. */
  lemma SplitIsLosslessIff(icc: seq<byte>, ms: seq<Marker>)
    requires multiset(ms) == multiset(AllMarkers(icc))
    ensures Reassemble(ms) == icc <==> |icc| <= 255 * MAX_DATA
  {
    hide NthMarker, Chunk, Markers, IsPart, AllMarkers, Joined;
    SameMembers(ms, AllMarkers(icc));
    MarkersFit(|icc|);
    if ms != [] {
      var j := MarkerReads(icc, ms[0]);
      if |icc| <= 255 * MAX_DATA {
        JoinedIs(ms, icc, Markers(|icc|));
      } else {
        forall m | m in ms ensures |m.body| <= 65533 { var i := MarkerReads(icc, m); }
        JoinedShort(ms, ms[0].body[13]);
      }
    }
  }
}
