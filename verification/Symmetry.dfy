/** Rotations and flips (src/Transforms.cc, rotate and flip): the loops realise the symmetries of the
    rectangle. */
module Symmetry {
  import opened Raster
  import G = Geometry

  datatype Sym = Same | Rot90 | Rot180 | Rot270 | FlipH | FlipV | Transpose | Transverse

  predicate Swaps(s: Sym) { s in {Rot90, Rot270, Transpose, Transverse} }

  function NewWidth(s: Sym, w: nat, h: nat): nat { if Swaps(s) then h else w }
  function NewHeight(s: Sym, w: nat, h: nat): nat { if Swaps(s) then w else h }

  /** Where the pixel that ends up in row and col comes from. */
  function SrcRow(s: Sym, w: nat, h: nat, row: int, col: int): int {
    match s
    case Same => row
    case Rot90 => h - 1 - col
    case Rot180 => h - 1 - row
    case Rot270 => col
    case FlipH => row
    case FlipV => h - 1 - row
    case Transpose => col
    case Transverse => h - 1 - col
  }

  function SrcCol(s: Sym, w: nat, h: nat, row: int, col: int): int {
    match s
    case Same => col
    case Rot90 => row
    case Rot180 => w - 1 - col
    case Rot270 => w - 1 - row
    case FlipH => w - 1 - col
    case FlipV => col
    case Transpose => row
    case Transverse => w - 1 - row
  }

  /** The same for pixel numbers, counted along the rows. */
  function Source(s: Sym, w: nat, h: nat, p: nat): int
    requires NewWidth(s, w, h) > 0
  {
    var n := NewWidth(s, w, h);
    SrcRow(s, w, h, p / n, p % n) * w + SrcCol(s, w, h, p / n, p % n)
  }

  /** Sample k of pixel p. */
  function SampleOf(samples: seq<int>, channels: nat, p: int, k: int): int {
    if 0 <= p * channels + k < |samples| then samples[p * channels + k] else 0
  }

  /** The first n pixels of b are those of a turned by s. */
  ghost predicate TurnedTo(a: Image, b: seq<int>, s: Sym, n: nat)
    requires NewWidth(s, a.width, a.height) > 0 || n == 0
  {
    forall p, k :: 0 <= p < n && 0 <= k < a.channels ==>
      SampleOf(b, a.channels, p, k) == SampleOf(a.samples, a.channels, Source(s, a.width, a.height, p), k)
  }

  /** b is a turned by s. */
  ghost predicate Turned(a: Image, b: Image, s: Sym) {
    && a.Valid() && b.Valid() && b.channels == a.channels
    && b.width == NewWidth(s, a.width, a.height) && b.height == NewHeight(s, a.width, a.height)
    && (b.width > 0 ==> TurnedTo(a, b.samples, s, b.width * b.height))
  }

  /******* Where pixels go *******/

  /** Sample k of the pixel in row and col. */
  function SampleAt(a: Image, row: int, col: int, k: int): int {
    SampleOf(a.samples, a.channels, row * a.width + col, k)
  }

  /** The row and column that the pixel in row and col of a w by h image moves to. Turns are clockwise. */
  function DstRow(s: Sym, w: nat, h: nat, row: int, col: int): int {
    match s
    case Same | FlipH => row
    case Rot180 | FlipV => h - 1 - row
    case Rot90 | Transpose => col
    case Rot270 | Transverse => w - 1 - col
  }

  function DstCol(s: Sym, w: nat, h: nat, row: int, col: int): int {
    match s
    case Same | FlipV => col
    case Rot180 | FlipH => w - 1 - col
    case Rot270 | Transpose => row
    case Rot90 | Transverse => h - 1 - row
  }

  lemma Moves(a: Image, b: Image, s: Sym, row: nat, col: nat, k: nat)
    requires Turned(a, b, s) && row < a.height && col < a.width && k < a.channels
    ensures var r, c := DstRow(s, a.width, a.height, row, col), DstCol(s, a.width, a.height, row, col);
      0 <= r < b.height && 0 <= c < b.width && SampleAt(b, r, c, k) == SampleAt(a, row, col, k)
  {
    var r, c := DstRow(s, a.width, a.height, row, col), DstCol(s, a.width, a.height, row, col);
    assert SrcRow(s, a.width, a.height, r, c) == row && SrcCol(s, a.width, a.height, r, c) == col;
    hide SampleOf, Source, DstRow, DstCol, SrcRow, SrcCol;
    NextSource(s, a.width, a.height, r, c);
    SameArea(s, a.width, a.height);
    assert TurnedTo(a, b.samples, s, b.width * b.height);
  }

  /** A quarter turn takes the corner at the top left to the top right, a half turn to the bottom right and
      three quarters to the bottom left. A horizontal flip takes it to the right, a vertical one down. */
  lemma TopLeftCorner(a: Image, b: Image, s: Sym, k: nat)
    requires Turned(a, b, s) && a.width > 0 && a.height > 0 && k < a.channels
    ensures b.width > 0 && b.height > 0
    ensures s in {Rot90, FlipH} ==> SampleAt(b, 0, b.width - 1, k) == SampleAt(a, 0, 0, k)
    ensures s in {Rot180, Transverse} ==> SampleAt(b, b.height - 1, b.width - 1, k) == SampleAt(a, 0, 0, k)
    ensures s in {Rot270, FlipV} ==> SampleAt(b, b.height - 1, 0, k) == SampleAt(a, 0, 0, k)
    ensures s in {Same, Transpose} ==> SampleAt(b, 0, 0, k) == SampleAt(a, 0, 0, k)
  {
    hide SampleOf, TurnedTo;
    Moves(a, b, s, 0, 0, k);
  }

  /******* Composition *******/

  /** Every symmetry is a number of quarter turns, after a horizontal flip or without. */
  predicate Mirrors(s: Sym) { s in {FlipH, FlipV, Transpose, Transverse} }

  function Quarters(s: Sym): nat {
    match s
    case Same => 0
    case Rot90 => 1
    case Rot180 => 2
    case Rot270 => 3
    case FlipH => 0
    case Transverse => 1
    case FlipV => 2
    case Transpose => 3
  }

  function Of(mirrors: bool, quarters: nat): (s: Sym)
    requires quarters < 8
    ensures Mirrors(s) == mirrors && Quarters(s) == if quarters < 4 then quarters else quarters - 4
  {
    match if quarters < 4 then quarters else quarters - 4
    case 0 => if mirrors then FlipH else Same
    case 1 => if mirrors then Transverse else Rot90
    case 2 => if mirrors then FlipV else Rot180
    case _ => if mirrors then Transpose else Rot270
  }

  /** s first, then t: a flip turns the quarters before it around. */
  function Then(s: Sym, t: Sym): Sym {
    Of(Mirrors(s) != Mirrors(t), (if Mirrors(t) then 4 - Quarters(s) else Quarters(s)) + Quarters(t))
  }

  lemma Bounds(s: Sym, w: nat, h: nat, p: nat)
    requires p < NewWidth(s, w, h) * NewHeight(s, w, h)
    ensures NewWidth(s, w, h) > 0
    ensures var n := NewWidth(s, w, h);
      p / n < NewHeight(s, w, h) && p % n < n
      && 0 <= SrcRow(s, w, h, p / n, p % n) < h && 0 <= SrcCol(s, w, h, p / n, p % n) < w
      && 0 <= Source(s, w, h, p) < w * h
      && Source(s, w, h, p) / w == SrcRow(s, w, h, p / n, p % n) && Source(s, w, h, p) % w == SrcCol(s, w, h, p / n, p % n)
  {
    var n, m := NewWidth(s, w, h), NewHeight(s, w, h);
    G.RowAndColumn(p, n, m);
    SourceIn(s, w, h, p / n, p % n);
    InImage(SrcRow(s, w, h, p / n, p % n), SrcCol(s, w, h, p / n, p % n), w, h);
  }

  lemma SourceIn(s: Sym, w: nat, h: nat, row: nat, col: nat)
    requires row < NewHeight(s, w, h) && col < NewWidth(s, w, h)
    ensures 0 <= SrcRow(s, w, h, row, col) < h && 0 <= SrcCol(s, w, h, row, col) < w
  {
  }

  lemma InImage(row: nat, col: nat, w: nat, h: nat)
    requires row < h && col < w
    ensures 0 <= row * w + col < w * h && (row * w + col) / w == row && (row * w + col) % w == col
  {
    G.TileNumber(row, col, w);
    G.MulMono(row + 1, h, w);
  }

  lemma SourceThen(s: Sym, t: Sym, w: nat, h: nat, p: nat)
    requires var w1, h1 := NewWidth(s, w, h), NewHeight(s, w, h); p < NewWidth(t, w1, h1) * NewHeight(t, w1, h1)
    ensures var w1, h1 := NewWidth(s, w, h), NewHeight(s, w, h);
      && NewWidth(t, w1, h1) == NewWidth(Then(s, t), w, h) > 0 && NewHeight(t, w1, h1) == NewHeight(Then(s, t), w, h)
      && 0 <= Source(t, w1, h1, p) < w1 * h1 && w1 > 0
      && Source(s, w, h, Source(t, w1, h1, p)) == Source(Then(s, t), w, h, p)
  {
    hide SrcRow, SrcCol, Then;
    var w1, h1 := NewWidth(s, w, h), NewHeight(s, w, h);
    Bounds(t, w1, h1, p);
    SrcThen(s, t, w, h, p / NewWidth(t, w1, h1), p % NewWidth(t, w1, h1));
  }

  ghost predicate SrcComposes(s: Sym, t: Sym, w: nat, h: nat, row: int, col: int) {
    var w1, h1 := NewWidth(s, w, h), NewHeight(s, w, h);
    var r1, c1 := SrcRow(t, w1, h1, row, col), SrcCol(t, w1, h1, row, col);
    && NewWidth(t, w1, h1) == NewWidth(Then(s, t), w, h) && NewHeight(t, w1, h1) == NewHeight(Then(s, t), w, h)
    && SrcRow(s, w, h, r1, c1) == SrcRow(Then(s, t), w, h, row, col)
    && SrcCol(s, w, h, r1, c1) == SrcCol(Then(s, t), w, h, row, col)
  }

  lemma SrcThen(s: Sym, t: Sym, w: nat, h: nat, row: int, col: int)
    ensures SrcComposes(s, t, w, h, row, col)
  {
    hide SrcComposes, Mirrors;
    if Mirrors(t) { SrcThenMirror(s, t, w, h, row, col); } else { SrcThenTurn(s, t, w, h, row, col); }
  }

  lemma SrcThenTurn(s: Sym, t: Sym, w: nat, h: nat, row: int, col: int)
    requires !Mirrors(t)
    ensures SrcComposes(s, t, w, h, row, col)
  {
  }

  lemma SrcThenMirror(s: Sym, t: Sym, w: nat, h: nat, row: int, col: int)
    requires Mirrors(t)
    ensures SrcComposes(s, t, w, h, row, col)
  {
  }

  /** Turning by s and then by t is turning by their composition. */
  lemma TurnTwice(a: Image, b: Image, c: Image, s: Sym, t: Sym)
    requires Turned(a, b, s) && Turned(b, c, t)
    ensures Turned(a, c, Then(s, t))
  {
    hide Source, SampleOf, Then, NewWidth, NewHeight, SrcRow, SrcCol;
    SrcThen(s, t, a.width, a.height, 0, 0);
    if c.width > 0 {
      forall p, k | 0 <= p < c.width * c.height && 0 <= k < a.channels
        ensures SampleOf(c.samples, a.channels, p, k) == SampleOf(a.samples, a.channels, Source(Then(s, t), a.width, a.height, p), k)
      {
        SourceThen(s, t, a.width, a.height, p);
        assert SampleOf(c.samples, a.channels, p, k) == SampleOf(b.samples, a.channels, Source(t, b.width, b.height, p), k);
      }
    }
  }

  lemma SourceSame(w: nat, h: nat, p: nat)
    requires w > 0
    ensures Source(Same, w, h, p) == p
  {
    G.DivSandwich(p, w);
  }

  /** Turned by nothing is equal. */
  lemma TurnedSameIsEqual(a: Image, b: Image)
    requires Turned(a, b, Same)
    ensures a == b
  {
    var c := a.channels;
    forall i | 0 <= i < |b.samples| ensures b.samples[i] == a.samples[i] {
      G.DivSandwich(i, c);
      var p, k := i / c, i % c;
      if p >= a.width * a.height { G.MulMono(a.width * a.height, p, c); }
      SourceSame(a.width, a.height, p);
      assert SampleOf(b.samples, c, p, k) == SampleOf(a.samples, c, p, k);
    }
  }

  /******* The loops *******/

  /** The innermost loop: pixel src of data becomes pixel p of buffer; n runs on. */
  method CopyPixel(buffer: array<int>, n: nat, data: array<int>, index: nat, channels: nat, ghost total: nat, ghost p: nat, ghost src: nat)
      returns (n': nat)
    requires buffer != data && buffer.Length == total * channels <= data.Length && p < total && src < total
    requires n == p * channels && index == src * channels
    modifies buffer
    ensures n' == (p + 1) * channels
    ensures forall q, k :: 0 <= q && 0 <= k < channels ==>
      SampleOf(buffer[..], channels, q, k)
      == if q == p then SampleOf(data[..], channels, src, k) else SampleOf(old(buffer[..]), channels, q, k)
  {
    G.MulMono(p + 1, total, channels);
    G.MulMono(src + 1, total, channels);
    assert (p + 1) * channels == n + channels && (src + 1) * channels == index + channels;
    ghost var before := buffer[..];
    CopySamples(buffer, n, data, index, channels);
    n' := n + channels;
    forall q, k | 0 <= q && 0 <= k < channels
      ensures SampleOf(buffer[..], channels, q, k)
           == if q == p then SampleOf(data[..], channels, src, k) else SampleOf(before, channels, q, k)
    {
      PixelMoved(before, buffer[..], data[..], channels, p, src, q, k);
    }
  }

  lemma PixelMoved(before: seq<int>, after: seq<int>, data: seq<int>, c: nat, p: nat, src: nat, q: nat, k: nat)
    requires k < c && 0 <= p * c && 0 <= src * c && Copied(before, after, data, c, p * c, src * c)
    ensures SampleOf(after, c, q, k) == if q == p then SampleOf(data, c, src, k) else SampleOf(before, c, q, k)
  {
    var i := q * c + k;
    if p * c <= i < p * c + c { G.RowIndex(q, k, p, i - p * c, c); }
  }

  lemma SameArea(s: Sym, w: nat, h: nat)
    ensures NewWidth(s, w, h) * NewHeight(s, w, h) == w * h
  {
  }

  lemma NextSource(s: Sym, w: nat, h: nat, row: nat, col: nat)
    requires row < NewHeight(s, w, h) && col < NewWidth(s, w, h)
    ensures var p := row * NewWidth(s, w, h) + col;
      && 0 <= p < w * h && 0 <= Source(s, w, h, p) < w * h
      && Source(s, w, h, p) == SrcRow(s, w, h, row, col) * w + SrcCol(s, w, h, row, col)
  {
    SameArea(s, w, h);
    hide SrcRow, SrcCol, NewWidth, NewHeight;
    SourceIn(s, w, h, row, col);
    InImage(row, col, NewWidth(s, w, h), NewHeight(s, w, h));
    InImage(SrcRow(s, w, h, row, col), SrcCol(s, w, h, row, col), w, h);
  }

  /** data holds the image a, and buffer has room for as many samples. */
  ghost predicate Holds(data: array<int>, buffer: array<int>, width: nat, height: nat, channels: nat, a: Image)
    reads data
  {
    && a.Valid() && a.width == width && a.height == height && a.channels == channels
    && buffer != data && buffer.Length == |a.samples| <= data.Length && data[..|a.samples|] == a.samples
  }

  /** CopyPixel for the next pixel of a turned image, the one in row and col. */
  method NextPixel(data: array<int>, buffer: array<int>, n: nat, index: nat, channels: nat,
                   ghost a: Image, ghost s: Sym, ghost row: nat, ghost col: nat) returns (n': nat)
    requires Holds(data, buffer, a.width, a.height, channels, a)
    requires row < NewHeight(s, a.width, a.height) && col < NewWidth(s, a.width, a.height)
    requires TurnedTo(a, buffer[..], s, row * NewWidth(s, a.width, a.height) + col)
    requires n == (row * NewWidth(s, a.width, a.height) + col) * channels
    requires index == (SrcRow(s, a.width, a.height, row, col) * a.width + SrcCol(s, a.width, a.height, row, col)) * channels
    modifies buffer
    ensures n' == (row * NewWidth(s, a.width, a.height) + col + 1) * channels
    ensures TurnedTo(a, buffer[..], s, row * NewWidth(s, a.width, a.height) + col + 1)
  {
    hide SampleOf, Source;
    NextSource(s, a.width, a.height, row, col);
    ghost var p := row * NewWidth(s, a.width, a.height) + col;
    ghost var src := Source(s, a.width, a.height, p);
    n' := CopyPixel(buffer, n, data, index, channels, a.width * a.height, p, src);
    forall k | 0 <= k < channels ensures SampleOf(data[..], channels, src, k) == SampleOf(a.samples, channels, src, k) {
      InFront(data[..], a.samples, channels, a.width * a.height, src, k);
    }
  }

  lemma InFront(data: seq<int>, samples: seq<int>, channels: nat, total: nat, p: nat, k: nat)
    requires samples <= data && |samples| == total * channels && p < total && k < channels
    ensures SampleOf(data, channels, p, k) == SampleOf(samples, channels, p, k)
  {
    G.MulMono(p + 1, total, channels);
  }

  /** Rotate 90: column i of the tile becomes row i, read from the bottom up. */
  method Rotate90Row(data: array<int>, buffer: array<int>, width: nat, height: nat, channels: nat, i: nat, ghost a: Image)
    requires Holds(data, buffer, width, height, channels, a) && i < width && height > 0
    requires TurnedTo(a, buffer[..], Rot90, i * height)
    modifies buffer
    ensures TurnedTo(a, buffer[..], Rot90, (i + 1) * height)
  {
    hide TurnedTo;
    var n := i * height * channels;
    var j := height;
    while j > 0
      invariant 0 <= j <= height && n == (i * height + (height - j)) * channels
      invariant TurnedTo(a, buffer[..], Rot90, i * height + (height - j))
    {
      j := j - 1;
      var index := (j * width + i) * channels;
      n := NextPixel(data, buffer, n, index, channels, a, Rot90, i, height - 1 - j);
    }
    assert (i + 1) * height == i * height + height;
  }

  /** Rotate 270: column i becomes row width - 1 - i, read from the top down. */
  method Rotate270Row(data: array<int>, buffer: array<int>, width: nat, height: nat, channels: nat, i: nat, ghost a: Image)
    requires Holds(data, buffer, width, height, channels, a) && i < width && height > 0
    requires TurnedTo(a, buffer[..], Rot270, (width - 1 - i) * height)
    modifies buffer
    ensures TurnedTo(a, buffer[..], Rot270, (width - 1 - i) * height + height)
  {
    hide TurnedTo;
    var row := width - 1 - i;
    var n := row * height * channels;
    for j := 0 to height
      invariant n == (row * height + j) * channels
      invariant TurnedTo(a, buffer[..], Rot270, row * height + j)
    {
      var index := (j * width + i) * channels;
      n := NextPixel(data, buffer, n, index, channels, a, Rot270, row, j);
    }
  }

  /** Flip, vertical: row j becomes row height - 1 - j. */
  method FlipVRow(data: array<int>, buffer: array<int>, width: nat, height: nat, channels: nat, j: nat, ghost a: Image)
    requires Holds(data, buffer, width, height, channels, a) && j < height && width > 0
    requires TurnedTo(a, buffer[..], FlipV, (height - 1 - j) * width)
    modifies buffer
    ensures TurnedTo(a, buffer[..], FlipV, (height - 1 - j) * width + width)
  {
    hide TurnedTo;
    var row := height - 1 - j;
    var n := row * width * channels;
    for i := 0 to width
      invariant n == (row * width + i) * channels
      invariant TurnedTo(a, buffer[..], FlipV, row * width + i)
    {
      var index := (j * width + i) * channels;
      n := NextPixel(data, buffer, n, index, channels, a, FlipV, row, i);
    }
  }

  /** Flip, horizontal: row j is read from the right to the left. */
  method FlipHRow(data: array<int>, buffer: array<int>, width: nat, height: nat, channels: nat, j: nat, ghost a: Image)
    requires Holds(data, buffer, width, height, channels, a) && j < height && width > 0
    requires TurnedTo(a, buffer[..], FlipH, j * width)
    modifies buffer
    ensures TurnedTo(a, buffer[..], FlipH, (j + 1) * width)
  {
    hide TurnedTo;
    var n := j * width * channels;
    var i := width;
    while i > 0
      invariant 0 <= i <= width && n == (j * width + (width - i)) * channels
      invariant TurnedTo(a, buffer[..], FlipH, j * width + (width - i))
    {
      i := i - 1;
      var index := (j * width + i) * channels;
      n := NextPixel(data, buffer, n, index, channels, a, FlipH, j, width - 1 - i);
    }
    assert (j + 1) * width == j * width + width;
  }

  /** Rotate 180: all pixels, last to first. */
  method Rotate180All(data: array<int>, buffer: array<int>, width: nat, height: nat, channels: nat, ghost a: Image)
    requires Holds(data, buffer, width, height, channels, a) && width > 0
    modifies buffer
    ensures TurnedTo(a, buffer[..], Rot180, width * height)
  {
    hide TurnedTo;
    NothingTurned(a, buffer[..], Rot180);
    var n := 0;
    var i := width * height;
    while i > 0
      invariant 0 <= i <= width * height && n == (width * height - i) * channels
      invariant TurnedTo(a, buffer[..], Rot180, width * height - i)
    {
      i := i - 1;
      var index := i * channels;
      ghost var p := width * height - 1 - i;
      Opposite(width, height, p);
      n := NextPixel(data, buffer, n, index, channels, a, Rot180, p / width, p % width);
    }
  }

  method Rotate90(data: array<int>, buffer: array<int>, width: nat, height: nat, channels: nat, ghost a: Image)
    requires Holds(data, buffer, width, height, channels, a) && height > 0
    modifies buffer
    ensures TurnedTo(a, buffer[..], Rot90, width * height)
  {
    hide TurnedTo;
    NothingTurned(a, buffer[..], Rot90);
    for i := 0 to width
      invariant TurnedTo(a, buffer[..], Rot90, i * height)
    {
      Rotate90Row(data, buffer, width, height, channels, i, a);
    }
  }

  method Rotate270(data: array<int>, buffer: array<int>, width: nat, height: nat, channels: nat, ghost a: Image)
    requires Holds(data, buffer, width, height, channels, a) && height > 0
    modifies buffer
    ensures TurnedTo(a, buffer[..], Rot270, width * height)
  {
    hide TurnedTo;
    NothingTurned(a, buffer[..], Rot270);
    var i := width;
    while i > 0
      invariant 0 <= i <= width && TurnedTo(a, buffer[..], Rot270, (width - i) * height)
    {
      i := i - 1;
      Rotate270Row(data, buffer, width, height, channels, i, a);
      assert (width - i) * height == (width - 1 - i) * height + height;
    }
  }

  method FlipVertical(data: array<int>, buffer: array<int>, width: nat, height: nat, channels: nat, ghost a: Image)
    requires Holds(data, buffer, width, height, channels, a) && width > 0
    modifies buffer
    ensures TurnedTo(a, buffer[..], FlipV, height * width)
  {
    hide TurnedTo;
    NothingTurned(a, buffer[..], FlipV);
    var j := height;
    while j > 0
      invariant 0 <= j <= height && TurnedTo(a, buffer[..], FlipV, (height - j) * width)
    {
      j := j - 1;
      FlipVRow(data, buffer, width, height, channels, j, a);
      assert (height - j) * width == (height - 1 - j) * width + width;
    }
  }

  method FlipHorizontal(data: array<int>, buffer: array<int>, width: nat, height: nat, channels: nat, ghost a: Image)
    requires Holds(data, buffer, width, height, channels, a) && width > 0
    modifies buffer
    ensures TurnedTo(a, buffer[..], FlipH, height * width)
  {
    hide TurnedTo;
    NothingTurned(a, buffer[..], FlipH);
    for j := 0 to height
      invariant TurnedTo(a, buffer[..], FlipH, j * width)
    {
      FlipHRow(data, buffer, width, height, channels, j, a);
    }
  }

  /** A multiple of 90, but not of 360, below 0: no branch of rotate copies a sample for it. */
  predicate Uncopied(angle: int) {
    angle < 0 && angle % 90 == 0 && angle % 360 != 0
  }

  /** A new buffer of n samples that nothing was written to. */
  function Leftover(n: nat, stale: nat -> int): (s: seq<int>)
    ensures |s| == n && forall i :: 0 <= i < n ==> s[i] == stale(i)
  {
    seq(n, i requires i >= 0 => stale(i))
  }

  /** What rotate makes of a; stale is what happens to be in a new buffer. */
  ghost predicate Rotated(a: Image, b: Image, angle: int, stale: nat -> int) {
    if angle % 90 != 0 || angle % 360 == 0 then b == a
    else if Uncopied(angle) then b == Image(a.width, a.height, a.channels, Leftover(|a.samples|, stale))
    else Turned(a, b, Meant(angle))
  }

  /** rotate; angle is the requested angle cut to an integer. */
  method Rotate(tile: Tile, angle: int, stale: nat -> int)
    requires tile.Valid()
    modifies tile
    ensures tile.Valid() && Rotated(old(tile.Img()), tile.Img(), angle, stale)
    ensures angle % 90 != 0 || angle % 360 == 0 ==> unchanged(tile)
    ensures unchanged(tile`channels, tile`bpc, tile`dataLength)
  {
    hide TurnedTo, CRem, Meant;
    RightAngles(angle);
    if angle < 0 { Negated(angle); } else { TurningIsMeant(angle); }
    if CRem(angle, 90) == 0 && CRem(angle, 360) != 0 {
      if angle >= 0 { Remainders(angle); }
      var data, w, h, c := tile.data, tile.width, tile.height, tile.channels;
      ghost var a := tile.Img();
      var buffer := new int[w * h * c](i requires i >= 0 => stale(i));
      assert forall i :: 0 <= i < buffer.Length ==> buffer[i] == stale(i);
      if CRem(angle, 360) == 90 {
        if h > 0 { Rotate90(data, buffer, w, h, c, a); }
      } else if CRem(angle, 360) == 270 {
        if h > 0 { Rotate270(data, buffer, w, h, c, a); }
      } else if CRem(angle, 360) == 180 {
        if w > 0 { Rotate180All(data, buffer, w, h, c, a); }
      }
      assert w * h == h * w;
      tile.data := buffer;
      if CRem(angle, 180) == 90 {
        tile.width, tile.height := tile.height, tile.width;
      }
      WholeBuffer(tile);
      if angle < 0 { assert buffer[..] == Leftover(w * h * c, stale); }
    }
  }

  lemma WholeBuffer(tile: Tile)
    requires tile.Valid() && tile.data.Length == tile.width * tile.height * tile.channels
    ensures tile.Img() == Image(tile.width, tile.height, tile.channels, tile.data[..])
  {
  }

  /** flip: 2 is vertical, everything else horizontal. */
  method Flip(tile: Tile, orientation: int)
    requires tile.Valid()
    modifies tile
    ensures tile.Valid() && Turned(old(tile.Img()), tile.Img(), if orientation == 2 then FlipV else FlipH)
  {
    hide TurnedTo;
    var data, w, h, c := tile.data, tile.width, tile.height, tile.channels;
    ghost var a := tile.Img();
    var buffer := new int[w * h * c];
    if w > 0 {
      if orientation == 2 { FlipVertical(data, buffer, w, h, c, a); } else { FlipHorizontal(data, buffer, w, h, c, a); }
    }
    assert w * h == h * w;
    tile.data := buffer;
    WholeBuffer(tile);
  }

  /** The remainder of C, which has the sign of the dividend. */
  function CRem(a: int, b: int): int
    requires b > 0
  {
    if a >= 0 then a % b else -((-a) % b)
  }

  lemma RightAngles(angle: int)
    ensures var r := CRem(angle, 360);
      && (r in {90, 180, 270} ==> CRem(angle, 90) == 0)
      && (r in {90, 270} ==> CRem(angle, 180) == 90) && (r == 180 ==> CRem(angle, 180) == 0)
      && (angle < 0 ==> CRem(angle, 180) <= 0 && r <= 0)
  {
    if angle >= 0 && angle % 360 in {90, 180, 270} { Residues(angle, angle / 360, angle % 360); }
  }

  lemma Residues(m: nat, q: nat, r: nat)
    requires m == 360 * q + r && r in {90, 180, 270}
    ensures m % 90 == 0 && m % 180 == r % 180
  {
    var t := r / 90;
    G.DivIs(m, 90, 4 * q + t);
    G.DivIs(m, 180, 2 * q + t / 2);
  }

  /** Counted from the end, a pixel is in the opposite row and column. */
  lemma Opposite(w: nat, h: nat, p: nat)
    requires p < w * h
    ensures w > 0 && p / w < h && p % w < w && p / w * w + p % w == p
    ensures (h - 1 - p / w) * w + (w - 1 - p % w) == w * h - 1 - p
  {
    G.RowAndColumn(p, w, h);
    G.DivSandwich(p, w);
  }

  lemma NothingTurned(a: Image, b: seq<int>, s: Sym)
    ensures TurnedTo(a, b, s, 0)
  {
  }

  /** An image has one result of being turned by s. */
  lemma TurnedUnique(a: Image, b: Image, c: Image, s: Sym)
    requires Turned(a, b, s) && Turned(a, c, s)
    ensures b == c
  {
    hide SampleOf, Source;
    var n := a.channels;
    forall i | 0 <= i < |b.samples| ensures b.samples[i] == c.samples[i] {
      G.DivSandwich(i, n);
      var p, k := i / n, i % n;
      if p >= b.width * b.height { G.MulMono(b.width * b.height, p, n); }
      PixelIs(b.samples, n, i, p, k);
      PixelIs(c.samples, n, i, p, k);
      assert SampleOf(b.samples, n, p, k) == SampleOf(c.samples, n, p, k);
    }
  }

  lemma PixelIs(samples: seq<int>, channels: nat, i: nat, p: nat, k: nat)
    requires i < |samples| && i == p * channels + k
    ensures SampleOf(samples, channels, p, k) == samples[i]
  {
  }

  /** A '!180' request: a horizontal flip followed by half a turn is a vertical flip. */
  lemma FlippedHalfTurn(a: Image, b: Image, c: Image, d: Image)
    requires Turned(a, b, FlipH) && Turned(b, c, Rot180) && Turned(a, d, FlipV)
    ensures c == d
  {
    TurnTwice(a, b, c, FlipH, Rot180);
    TurnedUnique(a, c, d, FlipV);
  }

  /** A turn and its inverse leave the image as it was. */
  lemma ThereAndBack(a: Image, b: Image, c: Image, s: Sym)
    requires Turned(a, b, s) && Turned(b, c, Inverse(s))
    ensures c == a
  {
    hide Then, Inverse, Turned;
    Inverses(s);
    TurnTwice(a, b, c, s, Inverse(s));
    TurnedSameIsEqual(a, c);
  }

  lemma SymIs(s: Sym, t: Sym)
    requires Mirrors(s) == Mirrors(t) && Quarters(s) == Quarters(t)
    ensures s == t
  {
  }

  lemma ThenIs(s: Sym, t: Sym)
    ensures Mirrors(Then(s, t)) == (Mirrors(s) != Mirrors(t)) && Quarters(s) < 4
    ensures var q := (if Mirrors(t) then 4 - Quarters(s) else Quarters(s)) + Quarters(t);
      Quarters(Then(s, t)) == if q < 4 then q else q - 4
  {
  }

  function Inverse(s: Sym): Sym {
    if Mirrors(s) then s else Of(false, 4 - Quarters(s))
  }

  lemma Inverses(s: Sym)
    ensures Then(s, Inverse(s)) == Same && Then(Inverse(s), s) == Same
  {
  }

  lemma Identity(s: Sym)
    ensures Then(s, Same) == s && Then(Same, s) == s
  {
  }

  /** The eight symmetries are a group. */
  lemma Group(s: Sym, t: Sym, u: Sym)
    ensures Then(Then(s, t), u) == Then(s, Then(t, u)) && Then(s, Same) == Then(Same, s) == s
    ensures Then(s, Inverse(s)) == Same && Then(Inverse(s), s) == Same
  {
    hide Then;
    Associative(s, t, u);
    Identity(s);
    Inverses(s);
  }

  lemma Associative(s: Sym, t: Sym, u: Sym)
    ensures Then(Then(s, t), u) == Then(s, Then(t, u))
  {
    hide Then, Of, Mirrors, Quarters;
    ThenIs(s, t);
    ThenIs(t, u);
    ThenIs(u, s);
    ThenIs(Then(s, t), u);
    ThenIs(s, Then(t, u));
    SymIs(Then(Then(s, t), u), Then(s, Then(t, u)));
  }

  lemma TurnedSelf(a: Image)
    requires a.Valid()
    ensures Turned(a, a, Same)
  {
    if a.width > 0 {
      forall p, k | 0 <= p < a.width * a.height && 0 <= k < a.channels
        ensures SampleOf(a.samples, a.channels, p, k) == SampleOf(a.samples, a.channels, Source(Same, a.width, a.height, p), k)
      {
        SourceSame(a.width, a.height, p);
      }
    }
  }

  /** What a view asks for: 1 or 2 for a horizontal or vertical flip, then an angle. */
  function Flipping(flip: int): Sym {
    if flip == 0 then Same else if flip == 2 then FlipV else FlipH
  }

  /** The turn an angle asks for: right angles count clockwise, also below 0. */
  function Meant(angle: int): Sym {
    if angle % 90 != 0 then Same else Of(false, angle % 360 / 90)
  }

  lemma TurningIsMeant(angle: int)
    requires angle >= 0
    ensures CRem(angle, 90) == angle % 90 && CRem(angle, 360) == angle % 360
    ensures angle % 90 == 0 ==>
      Meant(angle) == match angle % 360 case 90 => Rot90 case 180 => Rot180 case 270 => Rot270 case _ => Same
  {
    Remainders(angle);
  }

  lemma Negated(angle: int)
    requires angle < 0
    ensures CRem(angle, 90) == 0 <==> angle % 90 == 0
    ensures CRem(angle, 360) == 0 <==> angle % 360 == 0
  {
    var m := -angle;
    NegatedMod(m, m / 90, m % 90, 90);
    NegatedMod(m, m / 360, m % 360, 360);
  }

  lemma NegatedMod(m: int, q: int, r: int, d: nat)
    requires d > 0 && m == q * d + r && 0 <= r < d
    ensures -m % d == 0 <==> r == 0
  {
    var k, s := if r == 0 then -q else -q - 1, if r == 0 then 0 else d - r;
    assert -m == k * d + s;
    ModIs(-m, k, s, d);
  }

  lemma ModIs(n: int, k: int, s: int, d: nat)
    requires d > 0 && n == k * d + s && 0 <= s < d
    ensures n % d == s
  {
    var q := n / d;
    assert n == q * d + n % d;
    if q < k { G.MulMono(q + 1, k, d); }
    if q > k { G.MulMono(k + 1, q, d); }
  }

  /** rotate turns an image as its angle asks, whatever is in a new buffer, if and only if the angle is
      not a multiple of 90 below 0, multiples of 360 aside. */
  lemma RotatesIff(a: Image, angle: int)
    requires a.Valid() && a.samples != []
    ensures (forall b, stale :: Rotated(a, b, angle, stale) ==> Turned(a, b, Meant(angle))) <==> !Uncopied(angle)
  {
    hide Turned, Meant;
    if Uncopied(angle) {
      var zeros, ones := (i: nat) => 0, (i: nat) => 1;
      var b := Image(a.width, a.height, a.channels, Leftover(|a.samples|, zeros));
      var c := Image(a.width, a.height, a.channels, Leftover(|a.samples|, ones));
      assert Rotated(a, b, angle, zeros) && Rotated(a, c, angle, ones);
      assert b.samples[0] != c.samples[0];
      if Turned(a, b, Meant(angle)) && Turned(a, c, Meant(angle)) { TurnedUnique(a, b, c, Meant(angle)); }
    } else {
      TurnedSelf(a);
      if angle % 90 != 0 || angle % 360 == 0 { NoTurnMeant(angle); }
    }
  }

  lemma NoTurnMeant(angle: int)
    requires angle % 90 != 0 || angle % 360 == 0
    ensures Meant(angle) == Same
  {
  }

  /** The last steps of a view: flip, then rotate. */
  method FlipAndRotate(tile: Tile, flip: int, angle: int, stale: nat -> int)
    requires tile.Valid()
    modifies tile
    ensures tile.Valid()
    ensures !Uncopied(angle) ==> Turned(old(tile.Img()), tile.Img(), Then(Flipping(flip), Meant(angle)))
    ensures Uncopied(angle) ==> tile.Img().samples == Leftover(|old(tile.Img()).samples|, stale)
  {
    hide Turned, Then, Meant;
    ghost var a := tile.Img();
    TurnedSelf(a);
    if flip != 0 { Flip(tile, flip); }
    ghost var b := tile.Img();
    SameCount(a, b, Flipping(flip));
    TurnedSelf(b);
    Rotate(tile, angle, stale);
    if !Uncopied(angle) {
      if angle % 90 != 0 || angle % 360 == 0 { NoTurnMeant(angle); }
      TurnTwice(a, b, tile.Img(), Flipping(flip), Meant(angle));
    }
  }

  lemma SameCount(a: Image, b: Image, s: Sym)
    requires Turned(a, b, s)
    ensures |a.samples| == |b.samples|
  {
    SameArea(s, a.width, a.height);
  }

  lemma Remainders(angle: int)
    requires angle >= 0
    ensures CRem(angle, 360) in {0, 90, 180, 270} || CRem(angle, 90) != 0
  {
    G.DivSandwich(angle, 90);
    if angle % 90 == 0 {
      var k := angle / 90;
      G.DivIs(angle, 360, k / 4);
    }
  }
}
