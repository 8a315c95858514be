/** The resolution pyramid: the levels of an image (src/OpenJPEGImage.cc, loadImageInfo) and the choice
    of a level for a requested size (src/View.cc). */
module Pyramid {
  import G = Geometry

  /** x halved k times, rounding down each time. */
  function Halved(x: nat, k: nat): nat {
    if k == 0 then x else Halved(x, k - 1) / 2
  }

  function Power(k: nat): (p: nat)
    ensures p > 0
  {
    if k == 0 then 1 else 2 * Power(k - 1)
  }

  /** Rounding each time loses no more than rounding once. */
  lemma {:induction false} HalvedIsQuotient(x: nat, k: nat)
    ensures Halved(x, k) == x / Power(k)
  {
    if k > 0 {
      HalvedIsQuotient(x, k - 1);
      Nested(x, Power(k - 1));
    }
  }

  lemma Nested(x: nat, p: nat)
    requires p > 0
    ensures x / p / 2 == x / (2 * p)
  {
    var q := x / p;
    G.DivSandwich(x, p);
    G.MulMono(q / 2 * 2, q, p);
    G.MulMono(q + 1, (q / 2 + 1) * 2, p);
    G.DivIs(x, 2 * p, q / 2);
  }

  lemma {:induction false} HalvedShrinks(x: nat, j: nat, k: nat)
    requires j <= k
    ensures Halved(x, k) <= Halved(x, j)
    decreases k
  {
    if j < k { HalvedShrinks(x, j, k - 1); }
  }

  /** Level k of a w by h image fits into one tile. */
  predicate Fits(w: nat, h: nat, tw: nat, th: nat, k: nat) {
    Halved(w, k) <= tw && Halved(h, k) <= th
  }

  /** ws and hs are the dimensions of a w by h image, halved again and again. */
  predicate Tables(ws: seq<nat>, hs: seq<nat>, w: nat, h: nat) {
    |ws| == |hs| && forall k :: 0 <= k < |ws| ==> ws[k] == Halved(w, k) && hs[k] == Halved(h, k)
  }

  lemma TablesGrow(ws: seq<nat>, hs: seq<nat>, w: nat, h: nat)
    requires Tables(ws, hs, w, h)
    ensures Tables(ws + [Halved(w, |ws|)], hs + [Halved(h, |ws|)], w, h)
  {
  }

  /** The dimensions of an image at all its levels, the largest first. */
  class Image {
    var tileWidth: nat
    var tileHeight: nat
    var widths: seq<nat>
    var heights: seq<nat>
    var numResolutions: nat
    var virtualLevels: nat

    constructor (tileWidth: nat, tileHeight: nat)
      ensures this.tileWidth == tileWidth && this.tileHeight == tileHeight
      ensures widths == heights == [] && numResolutions == virtualLevels == 0
    {
      this.tileWidth, this.tileHeight := tileWidth, tileHeight;
      widths, heights, numResolutions, virtualLevels := [], [], 0, 0;
    }

    /** Enters the levels of a fullWidth by fullHeight image whose stream has streamLevels of them. */
    method LoadImageInfo(fullWidth: nat, fullHeight: nat, streamLevels: nat)
      requires widths == heights == []
      modifies this
      ensures unchanged(`tileWidth, `tileHeight)
      ensures numResolutions > 0 && Fits(fullWidth, fullHeight, tileWidth, tileHeight, numResolutions - 1)
      ensures forall k :: 0 <= k < numResolutions - 1 ==> !Fits(fullWidth, fullHeight, tileWidth, tileHeight, k)
      ensures |widths| == if streamLevels > numResolutions then streamLevels else numResolutions
      ensures Tables(widths, heights, fullWidth, fullHeight)
      ensures virtualLevels == if numResolutions > streamLevels then numResolutions - streamLevels - 1 else old(virtualLevels)
    {
      hide Tables;
      numResolutions := streamLevels;
      var w, h := fullWidth, fullHeight;
      FirstLevel(w, h);
      widths, heights := widths + [w], heights + [h];
      var c := 1;
      while c < numResolutions
        invariant |widths| == c && 1 <= c <= (if streamLevels > 1 then streamLevels else 1)
        invariant w == Halved(fullWidth, c - 1) && h == Halved(fullHeight, c - 1)
        invariant Tables(widths, heights, fullWidth, fullHeight)
        invariant unchanged(`tileWidth, `tileHeight, `virtualLevels) && numResolutions == streamLevels
      {
        w, h := w / 2, h / 2;
        TablesGrow(widths, heights, fullWidth, fullHeight);
        widths, heights := widths + [w], heights + [h];
        c := c + 1;
      }
      var n := 1;
      FirstIs(widths, heights, fullWidth, fullHeight);
      w, h := widths[0], heights[0];
      while w > tileWidth || h > tileHeight
        invariant n >= 1 && |widths| == (if streamLevels > n then streamLevels else n)
        invariant w == Halved(fullWidth, n - 1) && h == Halved(fullHeight, n - 1)
        invariant Tables(widths, heights, fullWidth, fullHeight)
        invariant forall k :: 0 <= k < n - 1 ==> !Fits(fullWidth, fullHeight, tileWidth, tileHeight, k)
        invariant unchanged(`tileWidth, `tileHeight, `virtualLevels) && numResolutions == streamLevels
        decreases w + h
      {
        n := n + 1;
        w, h := w / 2, h / 2;
        if n > numResolutions {
          TablesGrow(widths, heights, fullWidth, fullHeight);
          widths, heights := widths + [w], heights + [h];
        }
      }
      if n > numResolutions {
        virtualLevels := n - numResolutions - 1;
      }
      numResolutions := n;
    }
  }

  lemma FirstLevel(w: nat, h: nat)
    ensures Tables([] + [w], [] + [h], w, h)
  {
  }

  lemma FirstIs(ws: seq<nat>, hs: seq<nat>, w: nat, h: nat)
    requires Tables(ws, hs, w, h) && |ws| > 0
    ensures |hs| == |ws| && ws[0] == w && hs[0] == h
  {
  }

  /** The size of level r of levels, 0 being the smallest. */
  function LevelSize(dimension: nat, levels: nat, r: nat): nat
    requires r < levels
  {
    Halved(dimension, levels - 1 - r)
  }

  /** r is the lowest level of at least the given size; the highest level if none is. */
  predicate Lowest(dimension: nat, levels: nat, size: nat, r: nat) {
    && r < levels
    && (forall s :: 0 <= s < r ==> LevelSize(dimension, levels, s) < size)
    && (LevelSize(dimension, levels, r) >= size || r == levels - 1)
  }

  lemma LowestUnique(dimension: nat, levels: nat, size: nat, r: nat, s: nat)
    requires Lowest(dimension, levels, size, r) && Lowest(dimension, levels, size, s)
    ensures r == s
  {
  }

  /** A requested view of an image. */
  class View {
    var resolution: int
    var maxResolutions: nat
    var minSize: nat
    var width: nat
    var height: nat

    constructor ()
      ensures resolution == maxResolutions == width == height == 0 && minSize == 1
    {
      resolution, maxResolutions, minSize, width, height := 0, 0, 1, 0, 0;
    }

    method CalculateResolution(dimension: nat, requestedSize: nat)
      requires minSize > 0
      modifies this`resolution
      ensures maxResolutions == 0 ==> resolution == 0
      ensures maxResolutions > 0 ==>
        && resolution >= 0
        && Lowest(dimension, maxResolutions, if requestedSize < minSize then minSize else requestedSize, resolution)
    {
      resolution := 0;
      var j: int := maxResolutions - 1;
      var d := dimension;
      var rs := if requestedSize < minSize then minSize else requestedSize;
      ghost var k := 0;
      while true
        invariant d == Halved(dimension, k) && j == maxResolutions - 1 - k
        invariant k > 0 ==> d >= rs
        decreases d
      {
        d := d / 2;
        if d < rs { break; }
        j := j - 1;
        k := k + 1;
      }
      Chosen(dimension, maxResolutions, rs, k);
      if j < 0 { j := 0; }
      if j > maxResolutions - 1 { j := maxResolutions - 1; }
      if j > resolution { resolution := j; }
    }

    /** The dimensions of the chosen level. */
    method ResolutionSize() returns (resWidth: nat, resHeight: nat)
      requires 0 <= resolution < maxResolutions
      ensures resWidth == LevelSize(width, maxResolutions, resolution)
      ensures resHeight == LevelSize(height, maxResolutions, resolution)
    {
      resWidth, resHeight := width, height;
      var i := 1;
      while i < maxResolutions - resolution
        invariant 1 <= i <= maxResolutions - resolution
        invariant resWidth == Halved(width, i - 1) && resHeight == Halved(height, i - 1)
      {
        resWidth, resHeight := resWidth / 2, resHeight / 2;
        i := i + 1;
      }
    }
  }

  /** The first k halvings keep the size, and the next one does not. */
  lemma Chosen(dimension: nat, levels: nat, size: nat, k: nat)
    requires size > 0 && (k > 0 ==> Halved(dimension, k) >= size) && Halved(dimension, k + 1) < size
    ensures levels > 0 ==> Lowest(dimension, levels, size, if k < levels then levels - 1 - k else 0)
  {
    if levels > 0 {
      var r := if k < levels then levels - 1 - k else 0;
      forall s | 0 <= s < r ensures LevelSize(dimension, levels, s) < size {
        HalvedShrinks(dimension, k + 1, levels - 1 - s);
      }
      if r < levels - 1 { HalvedShrinks(dimension, levels - 1 - r, k); }
    }
  }

  /** The chosen level, in the tables of an image of n levels: it is wide enough and all smaller levels
      are not. Tables run from the largest level to the smallest, level numbers the other way. */
  lemma ChosenInTables(ws: seq<nat>, hs: seq<nat>, w: nat, h: nat, n: nat, size: nat, r: nat)
    requires Tables(ws, hs, w, h) && n <= |ws| && Lowest(w, n, size, r)
    ensures ws[n - 1 - r] >= size || r == n - 1
    ensures forall k :: n - 1 - r < k < n ==> ws[k] < size
  {
    forall k | n - 1 - r < k < n ensures ws[k] < size {
      assert LevelSize(w, n, n - 1 - k) < size;
    }
  }
}
