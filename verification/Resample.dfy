/** Transforms that overwrite the buffer they read: stripping bands and nearest neighbour resizing
    (src/Transforms.cc, flatten and interpolate_nearestneighbour). */
module Resample {
  import opened Raster
  import G = Geometry

  /** Pixel p of a buffer with c samples for each pixel. */
  function Pixel(s: seq<int>, c: nat, p: nat): seq<int> {
    if 0 <= p * c && p * c + c <= |s| then s[p * c..p * c + c] else []
  }

  /** The first n pixels. */
  function Pixels(s: seq<int>, c: nat, n: nat): (ps: seq<seq<int>>)
    ensures |ps| == n
  {
    seq(n, p requires 0 <= p < n => Pixel(s, c, p))
  }

  lemma InBuffer(p: nat, c: nat, n: nat, len: nat)
    requires p < n && n * c <= len
    ensures 0 <= p * c <= p * c + c <= len
  {
    G.MulMono(p + 1, n, c);
    G.MulMono(0, p, c);
  }

  /******* Copying in the same buffer, for any map from targets to sources *******/

  /** Pixels 0 to n are overwritten in order, each with the pixel that then stands at its source. */
  function InPlace<T>(a: seq<T>, src: nat -> nat, n: nat): (b: seq<T>)
    requires n <= |a| && forall d :: 0 <= d < n ==> src(d) < |a|
    ensures |b| == |a|
  {
    if n == 0 then a else var b := InPlace(a, src, n - 1); b[n - 1 := b[src(n - 1)]]
  }

  /** A target whose source has been overwritten gets the wrong pixel, unless the source had been
      overwritten with itself. */
  predicate Safe(src: nat -> nat, d: nat) {
    src(d) >= d || src(src(d)) == src(d)
  }

  predicate AllSafe(src: nat -> nat, n: nat) {
    forall d :: 0 <= d < n ==> Safe(src, d)
  }

  ghost predicate Right<T(!new)>(a: seq<T>, b: seq<T>, src: nat -> nat, n: nat)
    requires n <= |a| == |b| && forall d :: 0 <= d < n ==> src(d) < |a|
  {
    (forall d :: 0 <= d < n ==> b[d] == a[src(d)]) && (forall d :: n <= d < |a| ==> b[d] == a[d])
  }

  lemma {:induction false} SafeIsRight<T(!new)>(a: seq<T>, src: nat -> nat, n: nat)
    requires n <= |a| && (forall d :: 0 <= d < n ==> src(d) < |a|) && AllSafe(src, n)
    ensures Right(a, InPlace(a, src, n), src, n)
  {
    if n > 0 {
      SafeIsRight(a, src, n - 1);
      assert Safe(src, n - 1);
    }
  }

  /** Counting the pixels: the image on which every wrong copy shows. */
  function Numbers(n: nat): (a: seq<nat>)
    ensures |a| == n && forall i :: 0 <= i < n ==> a[i] == i
  {
    seq(n, i => i)
  }

  lemma {:induction false} UnsafeIsWrong(total: nat, src: nat -> nat, n: nat)
    requires n <= total && (forall d :: 0 <= d < n ==> src(d) < total) && !AllSafe(src, n)
    ensures exists d :: 0 <= d < n && InPlace(Numbers(total), src, n)[d] != src(d)
  {
    var a := Numbers(total);
    if AllSafe(src, n - 1) {
      SafeIsRight(a, src, n - 1);
      assert !Safe(src, n - 1);
      assert InPlace(a, src, n)[n - 1] != src(n - 1);
    } else {
      UnsafeIsWrong(total, src, n - 1);
      var d :| 0 <= d < n - 1 && InPlace(a, src, n - 1)[d] != src(d);
      assert InPlace(a, src, n)[d] != src(d);
    }
  }

  ghost predicate CopiesWell(a: seq<nat>, src: nat -> nat, n: nat)
    requires n <= |a| && forall d :: 0 <= d < n ==> src(d) < |a|
  {
    forall d :: 0 <= d < n ==> InPlace(a, src, n)[d] == a[src(d)]
  }

  /** Working in the same buffer gives every image its proper result if and only if all targets are
      safe. */
  lemma InPlaceIff(total: nat, src: nat -> nat, n: nat)
    requires n <= total && forall d :: 0 <= d < n ==> src(d) < total
    ensures AllSafe(src, n) <==> forall a: seq<nat> :: |a| == total ==> CopiesWell(a, src, n)
  {
    hide InPlace, AllSafe, Numbers;
    if AllSafe(src, n) {
      forall a: seq<nat> | |a| == total ensures CopiesWell(a, src, n) {
        SafeIsRight(a, src, n);
      }
    } else {
      UnsafeIsWrong(total, src, n);
      assert !CopiesWell(Numbers(total), src, n);
    }
  }

  /******* Nearest neighbour *******/

  /** Position i of m positions, scaled to n positions: the scale factor n / m is an exact ratio. */
  function Scaled(i: nat, n: nat, m: nat): nat {
    if m == 0 then 0 else i * n / m
  }

  /** s is the position among n of position i among m: the floor of i * n / m. */
  predicate ScaledTo(s: int, i: int, n: int, m: int) {
    s * m <= i * n < (s + 1) * m
  }

  lemma ScaledToIff(s: nat, i: nat, n: nat, m: nat)
    requires m > 0
    ensures ScaledTo(s, i, n, m) <==> s == Scaled(i, n, m)
  {
    G.DivSandwich(i * n, m);
    if ScaledTo(s, i, n, m) { G.DivIs(i * n, m, s); }
  }

  lemma ScaledIs(i: nat, n: nat, m: nat)
    requires i < m
    ensures n > 0 ==> Scaled(i, n, m) < n
    ensures m <= n ==> i <= Scaled(i, n, m)
  {
    if n > 0 { QuotientBelow(i * n, m, n, i); }
    if m <= n { QuotientAbove(i * n, m, n, i); }
  }

  lemma QuotientBelow(x: nat, m: nat, n: nat, i: nat)
    requires x == i * n && i < m && n > 0
    ensures x / m < n
  {
    G.DivSandwich(x, m);
    G.MulMono(i + 1, m, n);
    if x / m >= n { G.MulMono(n, x / m, m); }
  }

  lemma QuotientAbove(x: nat, m: nat, n: nat, i: nat)
    requires x == i * n && 0 < m <= n
    ensures i <= x / m
  {
    G.DivSandwich(x, m);
    G.MulMono(m, n, i);
    if x / m < i { G.MulMono(x / m + 1, i, m); }
  }

  /** The pixel of a w by h image that pixel i of row j shows after resizing to nw by nh. */
  function Nearest(w: nat, h: nat, nw: nat, nh: nat, j: nat, i: nat): int {
    Scaled(i, w, nw) + Scaled(j, h, nh) * w
  }

  /** The same by the number of the target pixel. */
  function Sources(w: nat, h: nat, nw: nat, nh: nat): nat -> nat {
    (d: nat) => if nw == 0 || Nearest(w, h, nw, nh, d / nw, d % nw) < 0 then 0 else Nearest(w, h, nw, nh, d / nw, d % nw)
  }

  lemma SourceIs(w: nat, h: nat, nw: nat, nh: nat, j: nat, i: nat)
    requires i < nw
    ensures 0 <= j * nw + i && Sources(w, h, nw, nh)(j * nw + i) == Nearest(w, h, nw, nh, j, i) >= 0
  {
    hide Scaled;
    G.TileNumber(j, i, nw);
    G.MulMono(0, Scaled(j, h, nh), w);
    G.MulMono(0, j, nw);
  }

  /** The source of pixel i of row j is the pixel at the scaled column of the scaled row. */
  lemma SourceIsScaled(w: nat, h: nat, nw: nat, nh: nat, j: nat, i: nat, sj: nat, si: nat)
    requires i < nw && j < nh && ScaledTo(sj, j, h, nh) && ScaledTo(si, i, w, nw)
    ensures 0 <= j * nw + i && 0 <= sj * w + si && Sources(w, h, nw, nh)(j * nw + i) == sj * w + si
  {
    hide Scaled, Sources;
    ScaledToIff(sj, j, h, nh);
    ScaledToIff(si, i, w, nw);
    SourceIs(w, h, nw, nh, j, i);
    G.MulMono(0, j, nw);
  }

  lemma NearestInside(w: nat, h: nat, nw: nat, nh: nat, j: nat, i: nat)
    requires w > 0 && h > 0 && i < nw && j < nh
    ensures 0 <= Nearest(w, h, nw, nh, j, i) < w * h
  {
    hide Scaled;
    ScaledIs(i, w, nw);
    ScaledIs(j, h, nh);
    G.MulMono(Scaled(j, h, nh) + 1, h, w);
    G.MulMono(0, Scaled(j, h, nh), w);
  }

  lemma SourcesInside(w: nat, h: nat, nw: nat, nh: nat)
    requires w > 0 && h > 0
    ensures forall d :: 0 <= d < nw * nh ==> Sources(w, h, nw, nh)(d) < w * h
  {
    hide Sources, Nearest;
    forall d | 0 <= d < nw * nh ensures Sources(w, h, nw, nh)(d) < w * h {
      G.RowAndColumn(d, nw, nh);
      NearestInside(w, h, nw, nh, d / nw, d % nw);
      SourceIs(w, h, nw, nh, d / nw, d % nw);
    }
  }

  /** Resizing in place gives every image its proper result if and only if all targets are safe. */
  lemma ResizeInPlaceIff(w: nat, h: nat, nw: nat, nh: nat)
    requires w > 0 && h > 0 && nw * nh <= w * h
    ensures forall d :: 0 <= d < nw * nh ==> Sources(w, h, nw, nh)(d) < w * h
    ensures AllSafe(Sources(w, h, nw, nh), nw * nh)
      <==> forall a: seq<nat> :: |a| == w * h ==> CopiesWell(a, Sources(w, h, nw, nh), nw * nh)
  {
    hide Sources, AllSafe, CopiesWell;
    SourcesInside(w, h, nw, nh);
    InPlaceIff(w * h, Sources(w, h, nw, nh), nw * nh);
  }

  /** If neither side grows, no source is behind its target. */
  lemma ShrinkingIsSafe(w: nat, h: nat, nw: nat, nh: nat)
    requires nw <= w && nh <= h
    ensures AllSafe(Sources(w, h, nw, nh), nw * nh)
  {
    hide Sources, Scaled;
    forall d | 0 <= d < nw * nh ensures Safe(Sources(w, h, nw, nh), d) {
      G.RowAndColumn(d, nw, nh);
      var j, i := d / nw, d % nw;
      SourceIs(w, h, nw, nh, j, i);
      ScaledIs(i, w, nw);
      ScaledIs(j, h, nh);
      G.MulMono(j, Scaled(j, h, nh), w);
      G.MulMono(nw, w, j);
    }
  }

  lemma RoundUp(n: nat, w: nat) returns (d: nat)
    requires w > 0
    ensures n <= d * w < n + w
  {
    d := (n + w - 1) / w;
    G.DivSandwich(n + w - 1, w);
  }

  lemma SecondPixelAt(w: nat, nw: nat) returns (d: nat)
    requires 2 <= w < nw
    ensures 2 <= d < nw && Scaled(d, w, nw) == 1 && Scaled(1, w, nw) == 0
  {
    d := RoundUp(nw, w);
    if d < 2 { G.MulMono(d, 1, w); }
    if d >= nw {
      G.MulMono(nw, d, w);
      G.MulMono(2, w, nw);
    }
    G.DivIs(d * w, nw, 1);
    G.DivIs(1 * w, nw, 0);
  }

  lemma FirstRow(w: nat, h: nat, nw: nat, nh: nat, i: nat)
    requires i < nw
    ensures Sources(w, h, nw, nh)(i) == Scaled(i, w, nw)
  {
    hide Sources;
    SourceIs(w, h, nw, nh, 0, i);
    if nh > 0 { G.DivIs(0 * h, nh, 0); }
  }

  lemma TallerColumn(h: nat, nw: nat, nh: nat, j: nat)
    requires nw * nh <= h && nh > 0
    ensures j * nw <= Scaled(j, h, nh)
  {
    G.MulMono(nw * nh, h, j);
    G.DivSandwich(j * h, nh);
    if j * h / nh < j * nw { G.MulMono(j * h / nh + 1, j * nw, nh); }
  }

  /** In place and wider: proper only for an image one pixel wide. Otherwise a target in the first
      row shows the second pixel of the image after that has been overwritten. */
  lemma WideningIff(w: nat, h: nat, nw: nat, nh: nat)
    requires 0 < w < nw && 0 < nh && nw * nh <= w * h
    ensures AllSafe(Sources(w, h, nw, nh), nw * nh) <==> w == 1
  {
    hide Sources, Scaled;
    if w == 1 {
      forall d | 0 <= d < nw * nh ensures Safe(Sources(w, h, nw, nh), d) {
        G.RowAndColumn(d, nw, nh);
        OneColumn(h, nw, nh, d / nw, d % nw);
      }
    } else {
      var d := SecondPixelAt(w, nw);
      FirstRow(w, h, nw, nh, d);
      FirstRow(w, h, nw, nh, 1);
      G.MulMono(1, nh, nw);
      assert !Safe(Sources(w, h, nw, nh), d);
    }
  }

  /** The source of a target in row j of a one pixel wide image is behind the target, or earlier in
      the same row. */
  lemma OneColumn(h: nat, nw: nat, nh: nat, j: nat, i: nat)
    requires i < nw && 0 < nh && nw * nh <= h
    ensures 0 <= j * nw && Safe(Sources(1, h, nw, nh), j * nw + i)
  {
    hide Sources, Scaled;
    var src, q := Sources(1, h, nw, nh), Scaled(j, h, nh);
    G.MulMono(0, j, nw);
    OneWide(h, nw, nh, j, i);
    TallerColumn(h, nw, nh, j);
    if q < j * nw + i { OneWide(h, nw, nh, j, q - j * nw); }
  }

  lemma OneWide(h: nat, nw: nat, nh: nat, j: nat, i: nat)
    requires i < nw
    ensures 0 <= j * nw && Sources(1, h, nw, nh)(j * nw + i) == Scaled(j, h, nh)
  {
    hide Sources;
    G.MulMono(0, j, nw);
    SourceIs(1, h, nw, nh, j, i);
    ScaledIs(i, 1, nw);
  }

  lemma TwoByTwo(i: nat)
    requires i < 2
    ensures Sources(4, 1, 2, 2)(2 + i) == 2 * i
  {
    hide Sources;
    SourceIs(4, 1, 2, 2, 1, i);
  }

  /** Taller and narrower can go wrong too: four pixels in a row, resized to two rows of two. */
  lemma TallerCanFail()
    ensures !AllSafe(Sources(4, 1, 2, 2), 4)
  {
    hide Sources;
    TwoByTwo(1);
    TwoByTwo(0);
    assert !Safe(Sources(4, 1, 2, 2), 3);
  }

  /******* The loops *******/

  lemma SliceCopied(before: seq<int>, after: seq<int>, data: seq<int>, c: nat, to: nat, from: nat, at: nat)
    requires Copied(before, after, data, c, to, from) && at + c <= |after|
    requires at == to || at + c <= to || to + c <= at
    ensures after[at..at + c] == if at == to then data[from..from + c] else before[at..at + c]
  {
  }

  lemma Apart(p: nat, d: nat, c: nat)
    ensures p == d || p * c + c <= d * c || d * c + c <= p * c
  {
    if p < d { G.MulMono(p + 1, d, c); }
    if d < p { G.MulMono(d + 1, p, c); }
  }

  lemma PixelAt(s: seq<int>, c: nat, p: nat, at: nat)
    requires at == p * c && at + c <= |s|
    ensures Pixel(s, c, p) == s[at..at + c]
  {
  }

  lemma PixelCopied(before: seq<int>, after: seq<int>, data: seq<int>, c: nat, d: nat, to: nat, from: nat, p: nat, at: nat)
    requires to == d * c && Copied(before, after, data, c, to, from) && at == p * c && at + c <= |before|
    ensures from + c <= |data|
    ensures Pixel(after, c, p) == if p == d then data[from..from + c] else Pixel(before, c, p)
  {
    assert |before| == |after| && from + c <= |data|;
    hide Copied, Pixel;
    Apart(p, d, c);
    PixelAt(before, c, p, at);
    PixelAt(after, c, p, at);
    if c > 0 {
      SliceCopied(before, after, data, c, to, from, at);
    }
  }

  /** A whole pixel. */
  method CopyPixel(output: array<int>, d: nat, input: array<int>, s: nat, channels: nat, ghost n: nat, ghost m: nat)
    requires n * channels <= output.Length && m * channels <= input.Length && d < n && s < m
    modifies output
    ensures Pixels(output[..], channels, n)
         == old(Pixels(output[..], channels, n))[d := old(Pixels(input[..], channels, m))[s]]
  {
    InBuffer(d, channels, n, output.Length);
    InBuffer(s, channels, m, input.Length);
    hide Pixel, Copied;
    PixelAt(input[..], channels, s, s * channels);
    Apart(s, d, channels);
    ghost var before, data := output[..], input[..];
    CopySamples(output, d * channels, input, s * channels, channels);
    forall p | 0 <= p < n
      ensures Pixel(output[..], channels, p) == if p == d then Pixel(data, channels, s) else Pixel(before, channels, p)
    {
      InBuffer(p, channels, n, output.Length);
      PixelCopied(before, output[..], data, channels, d, d * channels, s * channels, p, p * channels);
    }
  }

  /******* Resizing *******/

  /** d pixels have been written: into the buffer they come from, or into another. */
  ghost predicate Progress(a: seq<seq<int>>, out: seq<seq<int>>, src: nat -> nat, d: nat, same: bool) {
    && d <= |out| && (forall e :: 0 <= e < d ==> src(e) < |a|)
    && if same then |out| == |a| && out == InPlace(a, src, d) else forall e :: 0 <= e < d ==> out[e] == a[src(e)]
  }

  lemma NoProgress(a: seq<seq<int>>, out: seq<seq<int>>, src: nat -> nat, same: bool)
    requires same ==> out == a
    ensures Progress(a, out, src, 0, same)
  {
  }

  lemma ProgressStep(a: seq<seq<int>>, out: seq<seq<int>>, src: nat -> nat, d: nat, same: bool)
    requires Progress(a, out, src, d, same) && d < |out| && src(d) < |a|
    ensures same ==> |out| == |a|
    ensures Progress(a, out[d := if same then out[src(d)] else a[src(d)]], src, d + 1, same)
  {
  }

  /** The image has m pixels; output has room for n, as many as the resized image needs. */
  predicate Room(output: nat, input: nat, c: nat, w: nat, h: nat, nw: nat, nh: nat, n: nat, m: nat) {
    m == w * h && nw * nh <= n && n * c <= output && m * c <= input && (nw > 0 && nh > 0 ==> w > 0 && h > 0)
  }

  /** Row j starts at pixel d. */
  predicate RowStart(j: nat, nw: nat, d: nat) {
    d == j * nw
  }

  method ResizePixel(output: array<int>, input: array<int>, channels: nat, w: nat, h: nat, nw: nat, nh: nat, j: nat, i: nat,
                     ghost n: nat, ghost m: nat, ghost d: nat, ghost a: seq<seq<int>>)
    requires Room(output.Length, input.Length, channels, w, h, nw, nh, n, m) && i < nw && j < nh && RowStart(j, nw, d)
    requires output == input ==> n == m
    requires |a| == m && (output != input ==> Pixels(input[..], channels, m) == a)
    requires Progress(a, Pixels(output[..], channels, n), Sources(w, h, nw, nh), d + i, output == input)
    modifies output
    ensures Progress(a, Pixels(output[..], channels, n), Sources(w, h, nw, nh), d + i + 1, output == input)
  {
    hide Pixels, Progress, Sources, Nearest;
    NearestInside(w, h, nw, nh, j, i);
    SourceIs(w, h, nw, nh, j, i);
    G.MulMono(j + 1, nh, nw);
    ghost var src := Sources(w, h, nw, nh);
    ProgressStep(a, Pixels(output[..], channels, n), src, d + i, output == input);
    CopyPixel(output, i + j * nw, input, Nearest(w, h, nw, nh, j, i), channels, n, m);
  }

  method ResizeRows(output: array<int>, input: array<int>, channels: nat, w: nat, h: nat, nw: nat, nh: nat,
                    ghost n: nat, ghost m: nat)
    requires Room(output.Length, input.Length, channels, w, h, nw, nh, n, m)
    requires output == input ==> n == m
    modifies output
    ensures Progress(old(Pixels(input[..], channels, m)), Pixels(output[..], channels, n), Sources(w, h, nw, nh), nw * nh, output == input)
  {
    ghost var a, d: nat := Pixels(input[..], channels, m), 0;
    NoProgress(a, Pixels(output[..], channels, n), Sources(w, h, nw, nh), output == input);
    assert RowStart(0, nw, 0);
    hide Pixels, Sources, Progress, Room, RowStart;
    for j := 0 to nh
      invariant output != input ==> Pixels(input[..], channels, m) == a
      invariant RowStart(j, nw, d) && Progress(a, Pixels(output[..], channels, n), Sources(w, h, nw, nh), d, output == input)
    {
      for i := 0 to nw
        invariant output != input ==> Pixels(input[..], channels, m) == a
        invariant Progress(a, Pixels(output[..], channels, n), Sources(w, h, nw, nh), d + i, output == input)
      {
        ResizePixel(output, input, channels, w, h, nw, nh, j, i, n, m, d, a);
      }
      NextRow(j, nw, d);
      d := d + nw;
    }
    LastRow(nh, nw, d);
  }

  lemma NextRow(j: nat, nw: nat, d: nat)
    requires RowStart(j, nw, d)
    ensures RowStart(j + 1, nw, d + nw)
  {
  }

  lemma LastRow(j: nat, nw: nat, d: nat)
    requires RowStart(j, nw, d)
    ensures d == nw * j
  {
  }

  /** The resized buffer, against the pixels before. */
  ghost predicate Resized(was: seq<seq<int>>, out: seq<int>, c: nat, src: nat -> nat, n: nat) {
    && (forall d :: 0 <= d < n ==> src(d) < |was|)
    && (n <= |was| ==> Pixels(out, c, |was|) == InPlace(was, src, n))
    && (n > |was| || AllSafe(src, n) ==> forall d :: 0 <= d < n ==> Pixels(out, c, n)[d] == was[src(d)])
  }

  lemma ResizeEnds(was: seq<seq<int>>, out: seq<int>, c: nat, src: nat -> nat, n: nat)
    requires Progress(was, Pixels(out, c, if n > |was| then n else |was|), src, n, n <= |was|)
    ensures Resized(was, out, c, src, n)
  {
    hide InPlace;
    if n <= |was| && AllSafe(src, n) { SafeIsRight(was, src, n); }
  }

  /** Every pixel shows the one at its scaled row and column. */
  ghost predicate Scales(was: seq<seq<int>>, out: seq<int>, c: nat, w: nat, h: nat, nw: nat, nh: nat) {
    forall j: nat, i: nat, sj: nat, si: nat :: j < nh && i < nw && ScaledTo(sj, j, h, nh) && ScaledTo(si, i, w, nw) ==>
      Shows(was, out, c, j * nw + i, sj * w + si)
  }

  predicate Shows(was: seq<seq<int>>, out: seq<int>, c: nat, d: int, s: int) {
    0 <= d && 0 <= s < |was| && Pixel(out, c, d) == was[s]
  }

  lemma PixelScales(was: seq<seq<int>>, out: seq<int>, c: nat, w: nat, h: nat, nw: nat, nh: nat, n: nat,
                    j: nat, i: nat, sj: nat, si: nat)
    requires n == nw * nh && Resized(was, out, c, Sources(w, h, nw, nh), n)
    requires n > |was| || AllSafe(Sources(w, h, nw, nh), n)
    requires i < nw && j < nh && ScaledTo(sj, j, h, nh) && ScaledTo(si, i, w, nw)
    ensures Shows(was, out, c, j * nw + i, sj * w + si)
  {
    hide Sources, AllSafe, ScaledTo, Pixel, InPlace;
    SourceIsScaled(w, h, nw, nh, j, i, sj, si);
    var d := j * nw + i;
    assert d < n by { G.MulMono(j + 1, nh, nw); }
    assert Pixels(out, c, n)[d] == was[Sources(w, h, nw, nh)(d)];
  }

  lemma ResizedScales(was: seq<seq<int>>, out: seq<int>, c: nat, w: nat, h: nat, nw: nat, nh: nat, n: nat)
    requires n == nw * nh && Resized(was, out, c, Sources(w, h, nw, nh), n)
    ensures n > |was| || AllSafe(Sources(w, h, nw, nh), n) ==> Scales(was, out, c, w, h, nw, nh)
  {
    hide Sources, AllSafe, ScaledTo, Shows, Resized;
    if n > |was| || AllSafe(Sources(w, h, nw, nh), n) {
      forall j: nat, i: nat, sj: nat, si: nat | j < nh && i < nw && ScaledTo(sj, j, h, nh) && ScaledTo(si, i, w, nw)
        ensures Shows(was, out, c, j * nw + i, sj * w + si)
      {
        PixelScales(was, out, c, w, h, nw, nh, n, j, i, sj, si);
      }
    }
  }

  method InterpolateNearestNeighbour(tile: Tile, resampledWidth: nat, resampledHeight: nat)
    requires tile.Valid() && (resampledWidth > 0 && resampledHeight > 0 ==> tile.width > 0 && tile.height > 0)
    modifies tile, tile.data
    ensures tile.Valid() && tile.width == resampledWidth && tile.height == resampledHeight
    ensures unchanged(tile`channels, tile`bpc) && tile.dataLength == Bytes(tile.width * tile.height * tile.channels, tile.bpc)
    ensures if tile.width * tile.height > old(tile.width * tile.height) then fresh(tile.data) else tile.data == old(tile.data)
    ensures Resized(old(Pixels(tile.data[..], tile.channels, tile.width * tile.height)), tile.data[..], tile.channels,
                    Sources(old(tile.width), old(tile.height), tile.width, tile.height), tile.width * tile.height)
    ensures tile.width * tile.height > old(tile.width * tile.height)
            || AllSafe(Sources(old(tile.width), old(tile.height), tile.width, tile.height), tile.width * tile.height) ==>
      Scales(old(Pixels(tile.data[..], tile.channels, tile.width * tile.height)), tile.data[..], tile.channels,
             old(tile.width), old(tile.height), tile.width, tile.height)
  {
    hide Pixels, Sources, Resized, Bytes, AllSafe, Scales;
    var output := ResizeData(tile.data, tile.channels, tile.width, tile.height, resampledWidth, resampledHeight);
    ResizedScales(old(Pixels(tile.data[..], tile.channels, tile.width * tile.height)), output[..], tile.channels,
                  tile.width, tile.height, resampledWidth, resampledHeight, resampledWidth * resampledHeight);
    tile.width, tile.height := resampledWidth, resampledHeight;
    tile.dataLength := Bytes(resampledWidth * resampledHeight * tile.channels, tile.bpc);
    tile.data := output;
  }

  /** Into a new buffer if the image grows, else into the same. */
  method ResizeData(data: array<int>, c: nat, w: nat, h: nat, nw: nat, nh: nat) returns (output: array<int>)
    requires w * h * c <= data.Length && (nw > 0 && nh > 0 ==> w > 0 && h > 0)
    modifies data
    ensures nw * nh * c <= output.Length && if nw * nh > w * h then fresh(output) else output == data
    ensures Resized(old(Pixels(data[..], c, w * h)), output[..], c, Sources(w, h, nw, nh), nw * nh)
  {
    hide Pixels, Sources, Progress, Resized;
    ghost var n, m := nw * nh, w * h;
    output := data;
    if nw * nh > w * h {
      output := new int[nw * nh * c];
    } else {
      G.MulMono(n, m, c);
    }
    ResizeRows(output, data, c, w, h, nw, nh, if n > m then n else m, m);
    ResizeEnds(old(Pixels(data[..], c, m)), output[..], c, Sources(w, h, nw, nh), n);
  }

  /** Keeps the first bands samples of every pixel. */
  method Flatten(tile: Tile, bands: nat)
    requires tile.Valid()
    modifies tile, tile.data
    ensures tile.Valid() && unchanged(tile`data, tile`width, tile`height, tile`bpc)
    ensures bands >= old(tile.channels) ==> unchanged(tile) && unchanged(tile.data)
    ensures bands < old(tile.channels) ==>
      && tile.channels == bands && tile.dataLength == Bytes(tile.width * tile.height * bands, tile.bpc)
      && forall p :: 0 <= p < tile.width * tile.height ==>
           |old(Pixel(tile.data[..], tile.channels, p))| == old(tile.channels)
           && Pixel(tile.data[..], bands, p) == old(Pixel(tile.data[..], tile.channels, p))[..bands]
  {
    if bands >= tile.channels { return; }
    hide Pixel;
    var ni := StripBands(tile.data, tile.width * tile.height, tile.channels, bands);
    tile.channels := bands;
    tile.dataLength := Bytes(ni, tile.bpc);
  }

  /** The loop of flatten: ni samples are kept. */
  method StripBands(data: array<int>, np: nat, channels: nat, bands: nat) returns (ni: nat)
    requires bands < channels && np * channels <= data.Length
    modifies data
    ensures ni == np * bands <= data.Length
    ensures forall p :: 0 <= p < np ==>
      |old(Pixel(data[..], channels, p))| == channels
      && Pixel(data[..], bands, p) == old(Pixel(data[..], channels, p))[..bands]
  {
    hide Pixel, Stripped, Copied, RowStart;
    var no: nat, gap := 0, channels - bands;
    ni := 0;
    NothingStripped(data[..], channels, bands);
    for i := 0 to np
      invariant RowStart(i, bands, ni) && RowStart(i, channels, no)
      invariant Stripped(old(data[..]), data[..], channels, bands, i)
    {
      StrippedStep(old(data[..]), data[..], channels, bands, i, ni, no, np);
      CopySamples(data, ni, data, no, bands);
      ni, no := ni + bands, no + bands;
      no := no + gap;
    }
    AllStripped(old(data[..]), data[..], channels, bands, np, ni);
  }

  lemma NothingStripped(s: seq<int>, c: nat, bands: nat)
    requires bands <= c
    ensures Stripped(s, s, c, bands, 0) && RowStart(0, bands, 0) && RowStart(0, c, 0)
  {
  }

  lemma AllStripped(was: seq<int>, now: seq<int>, c: nat, bands: nat, n: nat, ni: nat)
    requires Stripped(was, now, c, bands, n) && RowStart(n, bands, ni)
    ensures ni == n * bands <= |now|
    ensures forall p :: 0 <= p < n ==> |Pixel(was, c, p)| == c && Pixel(now, bands, p) == Pixel(was, c, p)[..bands]
  {
    hide Pixel;
    G.MulMono(bands, c, n);
  }

  /** The first i pixels have been stripped, and the rest of the buffer is as it was. */
  ghost predicate Stripped(was: seq<int>, now: seq<int>, c: nat, bands: nat, i: nat) {
    && |now| == |was| && bands <= c && 0 <= i * c <= |was| && now[i * c..] == was[i * c..]
    && forall p :: 0 <= p < i ==> |Pixel(was, c, p)| == c && Pixel(now, bands, p) == Pixel(was, c, p)[..bands]
  }

  lemma StrippedStep(was: seq<int>, now: seq<int>, c: nat, bands: nat, i: nat, ni: nat, no: nat, np: nat)
    requires Stripped(was, now, c, bands, i) && RowStart(i, bands, ni) && RowStart(i, c, no) && i < np && np * c <= |was|
    ensures ni <= no <= no + c <= |was| == |now|
    ensures RowStart(i + 1, bands, ni + bands) && RowStart(i + 1, c, no + c)
    ensures forall next :: Copied(now, next, now, bands, ni, no) ==> Stripped(was, next, c, bands, i + 1)
  {
    InBuffer(i, c, np, |was|);
    G.MulMono(bands, c, i);
    forall next | Copied(now, next, now, bands, ni, no) ensures Stripped(was, next, c, bands, i + 1) {
      assert (i + 1) * c == no + c;
      assert next[no + c..] == now[no + c..] == now[no..][c..];
      forall p | 0 <= p < i + 1 ensures |Pixel(was, c, p)| == c && Pixel(next, bands, p) == Pixel(was, c, p)[..bands] {
        G.MulMono(0, p, bands);
        G.MulMono(p + 1, i + 1, bands);
        StrippedPixel(was, now, next, c, bands, i, p);
      }
    }
  }

  lemma StrippedPixel(was: seq<int>, now: seq<int>, next: seq<int>, c: nat, bands: nat, i: nat, p: nat)
    requires Stripped(was, now, c, bands, i) && i * c + c <= |was| && p <= i && 0 <= i * bands
    requires Copied(now, next, now, bands, i * bands, i * c) && 0 <= p * bands && p * bands + bands <= |now|
    ensures |Pixel(was, c, p)| == c && Pixel(next, bands, p) == Pixel(was, c, p)[..bands]
  {
    hide Copied;
    PixelCopied(now, next, now, bands, i, i * bands, i * c, p, p * bands);
    if p == i {
      SameTail(was, now, i * c, bands);
      PixelAt(was, c, i, i * c);
      assert was[i * c..i * c + c][..bands] == was[i * c..i * c + bands];
    } else {
      hide Pixel;
    }
  }

  lemma SameTail(was: seq<int>, now: seq<int>, at: nat, n: nat)
    requires |now| == |was| && at + n <= |was| && now[at..] == was[at..]
    ensures now[at..at + n] == was[at..at + n]
  {
    assert now[at..at + n] == now[at..][..n];
  }
}
