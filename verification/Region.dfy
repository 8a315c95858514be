/** Stitching a region out of tiles (src/TileManager.cc, getRegion): the result is the slice of the
    image that was asked for. */
module Region {
  import opened CacheKey
  import opened TileCache
  import opened Tiles
  import opened TileManager
  import G = Geometry

  /** One resolution of an image: height rows of width pixels of channels samples. */
  datatype Level = Level(width: nat, height: nat, channels: nat, samples: seq<int>) {
    predicate Valid() {
      |samples| == height * (width * channels)
    }
  }

  /** Sample t of row r in rows of the given stride. */
  function At(s: seq<int>, stride: int, r: int, t: int): int {
    if 0 <= r * stride + t < |s| then s[r * stride + t] else 0
  }

  /** Sample i of row r of data, for rows rows and len samples each, is sample t0 + i of row r0 + r
      of samples. */
  ghost predicate Copies(data: seq<int>, stride: int, rows: int, len: int, samples: seq<int>, width: int, r0: int, t0: int) {
    forall r, i :: 0 <= r < rows && 0 <= i < len ==> At(data, stride, r, i) == At(samples, width, r0 + r, t0 + i)
  }

  /** d shows the tile in column col and row row of the level, in rows of a whole tile when it is
      padded, else in rows of its own width. */
  ghost predicate Shows(d: Decoded, level: Level, row: nat, col: nat, tw: nat, th: nat)
    requires tw > 0 && th > 0
  {
    && d.width == G.TileSize(col, level.width, tw) && d.height == G.TileSize(row, level.height, th)
    && d.channels == level.channels
    && (var stride := (if d.padded then tw else d.width) * d.channels;
        |d.data| == (if d.padded then th else d.height) * stride
        && Copies(d.data, stride, d.height, d.width * d.channels,
                  level.samples, level.width * level.channels, row * th, col * tw * level.channels))
  }

  /** The decoder shows the level, tile by tile. */
  ghost predicate Depicts(k: Codec, q: Request, level: Level) {
    var tw, th := k.tileWidth(q.filename), k.tileHeight(q.filename);
    && tw > 0 && th > 0
    && forall row, col :: 0 <= row < G.TileCount(level.height, th) && 0 <= col < G.TileCount(level.width, tw) ==>
         Shows(k.decode(q.filename, q.timestamp, q.resolution, TileNo(row, col, level.width, tw), q.x, q.y),
               level, row, col, tw, th)
  }

  function TileNo(row: nat, col: nat, width: nat, tw: nat): nat
    requires tw > 0
  {
    row * G.TileCount(width, tw) + col
  }

  /** The row and column that a decoder finds for the number are the ones it was made of. */
  lemma TileNoIs(row: nat, col: nat, width: nat, tw: nat)
    requires tw > 0 && col < G.TileCount(width, tw)
    ensures var ntlx, n := G.TileCount(width, tw), TileNo(row, col, width, tw);
      n / ntlx == row && n % ntlx == col
  {
    G.TileNumber(row, col, G.TileCount(width, tw));
  }

  /** Cropping keeps what a padded tile shows. */
  lemma CropCopies(data: seq<int>, stride: nat, len: nat, rows: nat, samples: seq<int>, width: nat, r0: int, t0: int)
    requires len <= stride && rows * stride <= |data| && Copies(data, stride, rows, len, samples, width, r0, t0)
    ensures Copies(Scanlines(data, stride, len, rows), len, rows, len, samples, width, r0, t0)
  {
    hide Scanlines;
    forall r, i | 0 <= r < rows && 0 <= i < len
      ensures At(Scanlines(data, stride, len, rows), len, r, i) == At(data, stride, r, i)
    {
      ScanlineAt(data, stride, len, rows, r, i);
    }
  }

  /** A tile served uncompressed has no padding left: rows of its own width. */
  lemma ServedTile(k: Codec, q: Request, level: Level, row: nat, col: nat)
    requires Depicts(k, q, level) && q.compression == UNCOMPRESSED
    requires var tw, th := k.tileWidth(q.filename), k.tileHeight(q.filename);
      row < G.TileCount(level.height, th) && col < G.TileCount(level.width, tw) && q.tile == TileNo(row, col, level.width, tw)
    ensures
      var t, tw, th := Fresh(k, q), k.tileWidth(q.filename), k.tileHeight(q.filename);
      && t.width == G.TileSize(col, level.width, tw) && t.height == G.TileSize(row, level.height, th)
      && |t.data| == t.height * (t.width * level.channels)
      && Copies(t.data, t.width * level.channels, t.height, t.width * level.channels,
                level.samples, level.width * level.channels, row * th, col * tw * level.channels)
  {
    hide Scanlines, Copies, G.TileSize, At;
    var tw, th, c := k.tileWidth(q.filename), k.tileHeight(q.filename), level.channels;
    var d := k.decode(q.filename, q.timestamp, q.resolution, q.tile, q.x, q.y);
    assert Shows(d, level, row, col, tw, th);
    G.TileSizeIs(col, level.width, tw);
    G.TileSizeIs(row, level.height, th);
    G.TileEnds(col, level.width, tw);
    G.TileEnds(row, level.height, th);
    if NeedsCrop(Raw(k, q), tw, th) {
      G.MulMono(d.width, tw, c);
      G.MulMono(d.height, th, tw * c);
      CropCopies(d.data, tw * c, d.width * c, d.height, level.samples, level.width * c, row * th, col * tw * c);
    }
  }

  /******* Copying *******/

  lemma InRows(r: int, t: int, rows: int, stride: int)
    requires 0 <= r < rows && 0 <= t <= stride
    ensures 0 <= r * stride + t <= rows * stride
  {
    G.MulMono(r + 1, rows, stride);
    G.MulMono(0, r, stride);
  }

  /** How often each sample of the region has been written. */
  type Tally = (int, int) -> nat

  /** From n0 to n, the samples in rows r0 to r1 and from t0 to t1 have been written once more. */
  ghost predicate Bumped(n0: Tally, n: Tally, r0: int, r1: int, t0: int, t1: int) {
    forall r, t :: n(r, t) == n0(r, t) + if r0 <= r < r1 && t0 <= t < t1 then 1 else 0
  }

  /** All samples of the rows before r1 have been written once, of the rows from r1 to r2 those
      before t1, and no others. */
  ghost predicate WrittenOnce(n: Tally, rows: int, stride: int, r1: int, r2: int, t1: int) {
    forall r, t :: 0 <= r < rows && 0 <= t < stride ==>
      n(r, t) == if r < r1 || (r < r2 && t < t1) then 1 else 0
  }

  /** memcpy of one line: row r of region, from t0 on, len samples. */
  method CopyRow(region: array<int>, stride: nat, rows: nat, r: nat, t0: nat, src: seq<int>, s0: nat, len: nat, ghost n0: Tally)
      returns (ghost n: Tally)
    requires region.Length == rows * stride && r < rows && t0 + len <= stride && s0 + len <= |src|
    modifies region
    ensures Bumped(n0, n, r, r + 1, t0, t0 + len)
    ensures forall r', t :: 0 <= r' < rows && 0 <= t < stride ==>
      At(region[..], stride, r', t)
      == if r' == r && t0 <= t < t0 + len then src[s0 + t - t0] else At(old(region[..]), stride, r', t)
  {
    InRows(r, t0 + len, rows, stride);
    var d := r * stride + t0;
    assert d + len <= region.Length;
    forall j | 0 <= j < len { region[d + j] := src[s0 + j]; }
    n := (r', t) => n0(r', t) + if r <= r' < r + 1 && t0 <= t < t0 + len then 1 else 0;
    forall r', t | 0 <= r' < rows && 0 <= t < stride
      ensures At(region[..], stride, r', t)
           == if r' == r && t0 <= t < t0 + len then src[s0 + t - t0] else At(old(region[..]), stride, r', t)
    {
      InRows(r', t, rows, stride);
      var i := r' * stride + t;
      if d <= i < d + len {
        G.RowIndex(r', t, r, i - r * stride, stride);
      }
    }
  }

  /** A part of the region, rows r0 to r1 and samples t0 to t1, holds the image from row y and sample x0 on. */
  ghost predicate Painted(region: seq<int>, stride: int, samples: seq<int>, width: int, y: int, x0: int,
                          r0: int, r1: int, t0: int, t1: int) {
    forall r, t :: r0 <= r < r1 && t0 <= t < t1 ==> At(region, stride, r, t) == At(samples, width, y + r, x0 + t)
  }

  /** Only the part from r0 to r1 and t0 to t1 has changed. */
  ghost predicate Kept(region: seq<int>, before: seq<int>, rows: int, stride: int, r0: int, r1: int, t0: int, t1: int) {
    forall r, t :: 0 <= r < rows && 0 <= t < stride && !(r0 <= r < r1 && t0 <= t < t1) ==>
      At(region, stride, r, t) == At(before, stride, r, t)
  }

  /** The lines of one tile, rows of them, into the region at row ch and sample ct. */
  method CopyTile(region: array<int>, stride: nat, rows: nat, ch: nat, ct: nat, n: nat, len: nat,
                  tile: seq<int>, tstride: nat, theight: nat, yf: nat, xf: nat,
                  ghost samples: seq<int>, ghost width: int, ghost y: int, ghost x0: int, ghost t0: Tally)
      returns (ghost tally: Tally)
    requires region.Length == rows * stride && ch + n <= rows && ct + len <= stride
    requires |tile| == theight * tstride && yf + n <= theight && xf + len <= tstride
    requires Copies(tile, tstride, theight, tstride, samples, width, y + ch - yf, x0 + ct - xf)
    modifies region
    ensures Painted(region[..], stride, samples, width, y, x0, ch, ch + n, ct, ct + len)
    ensures Kept(region[..], old(region[..]), rows, stride, ch, ch + n, ct, ct + len)
    ensures Bumped(t0, tally, ch, ch + n, ct, ct + len)
  {
    hide At, Bumped;
    tally := t0;
    NotBumped(t0, ch, ct, ct + len);
    for k := 0 to n
      invariant Painted(region[..], stride, samples, width, y, x0, ch, ch + k, ct, ct + len)
      invariant Kept(region[..], old(region[..]), rows, stride, ch, ch + k, ct, ct + len)
      invariant Bumped(t0, tally, ch, ch + k, ct, ct + len)
    {
      InRows(k + yf, xf + len, theight, tstride);
      ghost var before := tally;
      tally := CopyRow(region, stride, rows, k + ch, ct, tile, (k + yf) * tstride + xf, len, before);
      BumpedRow(t0, before, tally, ch, ch + k, ct, ct + len);
      ghost var now, row := region[..], k + ch;
      forall t | ct <= t < ct + len
        ensures At(now, stride, row, t) == At(samples, width, y + row, x0 + t)
      {
        TileLine(tile, tstride, theight, samples, width, y + ch - yf, x0 + ct - xf, k + yf, xf + (t - ct));
      }
    }
  }

  lemma TileLine(tile: seq<int>, tstride: nat, theight: nat, samples: seq<int>, width: int, r0: int, t0: int, r: nat, i: nat)
    requires Copies(tile, tstride, theight, tstride, samples, width, r0, t0)
    requires r < theight && i < tstride && |tile| == theight * tstride
    ensures 0 <= r * tstride + i < |tile| && tile[r * tstride + i] == At(samples, width, r0 + r, t0 + i)
  {
    InRows(r, i + 1, theight, tstride);
    assert At(tile, tstride, r, i) == At(samples, width, r0 + r, t0 + i);
  }

  /******* The region *******/

  lemma NotBumped(n: Tally, r: int, t0: int, t1: int)
    ensures Bumped(n, n, r, r, t0, t1)
  {
  }

  lemma BumpedRow(n0: Tally, n1: Tally, n2: Tally, r0: int, r: int, t0: int, t1: int)
    requires r0 <= r && Bumped(n0, n1, r0, r, t0, t1) && Bumped(n1, n2, r, r + 1, t0, t1)
    ensures Bumped(n0, n2, r0, r + 1, t0, t1)
  {
  }

  lemma TallyStep(n0: Tally, n: Tally, rows: int, stride: int, r1: int, r2: int, t1: int, t2: int)
    requires WrittenOnce(n0, rows, stride, r1, r2, t1) && t1 <= t2 && r1 <= r2 && Bumped(n0, n, r1, r2, t1, t2)
    ensures WrittenOnce(n, rows, stride, r1, r2, t2)
  {
  }

  lemma PaintMore(region: seq<int>, before: seq<int>, rows: int, stride: int, samples: seq<int>, width: int, y: int, x0: int,
                  r1: int, r2: int, t1: int, t2: int)
    requires 0 <= r1 <= r2 <= rows && 0 <= t1 <= t2 <= stride
    requires Painted(before, stride, samples, width, y, x0, 0, r1, 0, stride)
    requires Painted(before, stride, samples, width, y, x0, r1, r2, 0, t1)
    requires Painted(region, stride, samples, width, y, x0, r1, r2, t1, t2)
    requires Kept(region, before, rows, stride, r1, r2, t1, t2)
    ensures Painted(region, stride, samples, width, y, x0, 0, r1, 0, stride)
    ensures Painted(region, stride, samples, width, y, x0, r1, r2, 0, t2)
  {
    hide At;
  }

  /** The region asked for: in the level, and not empty. */
  predicate Inside(level: Level, x: nat, y: nat, width: nat, height: nat) {
    width > 0 && height > 0 && x + width <= level.width && y + height <= level.height
  }

  /** What the requests of a region need: see Manager.GetTile. */
  ghost predicate Ready(m: Manager, q: Request, level: Level, now: string -> int)
    reads m.cache
  {
    && m.cache.Valid() && SoundCodec(m.codec) && Sound(m.cache.Entries(), m.codec, now)
    && q.compression == UNCOMPRESSED && q.timestamp == now(q.filename)
    && Depicts(m.codec, q, level) && TilesPlain(m.codec, q, level)
  }

  /** The keys of all tiles of the level identify them. */
  ghost predicate TilesPlain(k: Codec, q: Request, level: Level) {
    var tw, th := k.tileWidth(q.filename), k.tileHeight(q.filename);
    && tw > 0 && th > 0
    && forall row, col :: 0 <= row < G.TileCount(level.height, th) && 0 <= col < G.TileCount(level.width, tw) ==>
         PlainRequest(q.(tile := TileNo(row, col, level.width, tw)))
  }

  /** The tile in row i and column j of the level. */
  method FetchTile(m: Manager, q: Request, i: nat, j: nat, ntlx: nat, ghost level: Level, ghost now: string -> int) returns (t: RawTile)
    requires Ready(m, q, level, now)
    requires var tw, th := m.codec.tileWidth(q.filename), m.codec.tileHeight(q.filename);
      ntlx == G.TileCount(level.width, tw) && j < ntlx && i < G.TileCount(level.height, th)
    modifies m.cache
    ensures Ready(m, q, level, now)
    ensures
      var tw, th := m.codec.tileWidth(q.filename), m.codec.tileHeight(q.filename);
      && t.width == G.TileSize(j, level.width, tw) && t.height == G.TileSize(i, level.height, th)
      && |t.data| == t.height * (t.width * level.channels)
      && Copies(t.data, t.width * level.channels, t.height, t.width * level.channels,
                level.samples, level.width * level.channels, i * th, j * tw * level.channels)
  {
    hide Sound, SoundCodec, PlainRequest, Fresh, Copies, G.TileSize, G.TileCount, Shows;
    var q1 := q.(tile := i * ntlx + j);
    assert q1.tile == TileNo(i, j, level.width, m.codec.tileWidth(q.filename));
    ValidIsOk(m.cache);
    HitIsSound(m.cache.Entries(), m.cache.maxSize, m.codec, now, q1);
    t := m.GetTile(q1, now);
    assert Depicts(m.codec, q1, level);
    ServedTile(m.codec, q1, level, i, j);
  }

  /** The same places counted in samples instead of pixels. */
  lemma InSamples(cw: nat, dw: nat, width: nat, xf: nat, tw1: nat, x: nat, jtw: nat, c: nat)
    requires cw + dw <= width && xf + dw <= tw1 && x + cw == jtw + xf
    ensures 0 <= cw * c && 0 <= dw * c && 0 <= xf * c && 0 <= tw1 * c
    ensures cw * c + dw * c == (cw + dw) * c <= width * c
    ensures xf * c + dw * c <= tw1 * c && x * c + cw * c - xf * c == jtw * c
  {
    G.MulMono(0, cw, c);
    G.MulMono(0, dw, c);
    G.MulMono(0, xf, c);
    G.MulMono(cw + dw, width, c);
    G.MulMono(xf + dw, tw1, c);
    assert (x + cw) * c == (jtw + xf) * c;
  }

  /** One tile: the body of getRegion's inner loop. */
  method StitchTile(m: Manager, q: Request, region: array<int>, i: nat, j: nat, ch: nat, cw: nat,
                    x: nat, y: nat, width: nat, height: nat, imWidth: nat, imHeight: nat, channels: nat,
                    ghost level: Level, ghost now: string -> int, ghost n0: Tally)
      returns (dstWidth: nat, dstHeight: nat, ghost n: Tally)
    requires Ready(m, q, level, now) && Inside(level, x, y, width, height)
    requires imWidth == level.width && imHeight == level.height && channels == level.channels
    requires region.Length == height * (width * channels)
    requires var tw, th := m.codec.tileWidth(q.filename), m.codec.tileHeight(q.filename);
      && tw > 0 && th > 0
      && G.FirstTile(x, tw) <= j < G.EndTile(x, width, tw) && cw == G.Edge(j, x, width, tw)
      && G.FirstTile(y, th) <= i < G.EndTile(y, height, th) && ch == G.Edge(i, y, height, th)
    requires var r2 := G.Edge(i + 1, y, height, m.codec.tileHeight(q.filename));
      && PaintedTo(region[..], width * channels, level, x, y, ch, r2, cw * channels)
      && WrittenOnce(n0, height, width * channels, ch, r2, cw * channels)
    modifies m.cache, region
    ensures Ready(m, q, level, now)
    ensures var tw, th := m.codec.tileWidth(q.filename), m.codec.tileHeight(q.filename);
      && cw + dstWidth == G.Edge(j + 1, x, width, tw) && ch + dstHeight == G.Edge(i + 1, y, height, th)
      && PaintedTo(region[..], width * channels, level, x, y, ch, ch + dstHeight, (cw + dstWidth) * channels)
      && WrittenOnce(n, height, width * channels, ch, ch + dstHeight, (cw + dstWidth) * channels)
  {
    hide Painted, Ready, WrittenOnce, G.Edge, Copies;
    var t, xf, yf;
    t, dstWidth, dstHeight, xf, yf := TilePart(m, q, i, j, ch, cw, x, y, width, height, imWidth, imHeight, level, now);
    ghost var tw := m.codec.tileWidth(q.filename);
    InSamples(cw, dstWidth, width, xf, t.width, x, j * tw, channels);
    n := PlaceTile(region, width * channels, height, ch, cw * channels, dstHeight, dstWidth * channels,
                   t.data, t.width * channels, t.height, yf, xf * channels,
                   level.samples, level.width * channels, y, x * channels, n0);
  }

  /** The tile in row i and column j, and which part of it the region takes. */
  method TilePart(m: Manager, q: Request, i: nat, j: nat, ch: nat, cw: nat, x: nat, y: nat, width: nat, height: nat,
                  imWidth: nat, imHeight: nat, ghost level: Level, ghost now: string -> int)
      returns (t: RawTile, dstWidth: nat, dstHeight: nat, xf: nat, yf: nat)
    requires Ready(m, q, level, now) && Inside(level, x, y, width, height)
    requires imWidth == level.width && imHeight == level.height
    requires var tw, th := m.codec.tileWidth(q.filename), m.codec.tileHeight(q.filename);
      && tw > 0 && th > 0
      && G.FirstTile(x, tw) <= j < G.EndTile(x, width, tw) && cw == G.Edge(j, x, width, tw)
      && G.FirstTile(y, th) <= i < G.EndTile(y, height, th) && ch == G.Edge(i, y, height, th)
    modifies m.cache
    ensures Ready(m, q, level, now)
    ensures var tw, th := m.codec.tileWidth(q.filename), m.codec.tileHeight(q.filename);
      && cw + dstWidth == G.Edge(j + 1, x, width, tw) <= width && ch + dstHeight == G.Edge(i + 1, y, height, th) <= height
      && xf + dstWidth <= t.width && yf + dstHeight <= t.height && x + cw == j * tw + xf && y + ch == i * th + yf
      && |t.data| == t.height * (t.width * level.channels)
      && Copies(t.data, t.width * level.channels, t.height, t.width * level.channels,
                level.samples, level.width * level.channels, i * th, j * tw * level.channels)
  {
    hide Ready, G.Edge, Copies, G.TileSize, G.CopySize, G.CopyOffset, G.TileCount;
    var tw, th := m.codec.tileWidth(q.filename), m.codec.tileHeight(q.filename);
    var whole := x == 0 && y == 0 && width == imWidth && height == imHeight;
    if whole { G.WholeRange(imWidth, tw); G.WholeRange(imHeight, th); }
    var startx := if whole then 0 else G.FirstTile(x, tw);
    var endx := if whole then G.TileCount(imWidth, tw) else G.EndTile(x, width, tw);
    var starty := if whole then 0 else G.FirstTile(y, th);
    var endy := if whole then G.TileCount(imHeight, th) else G.EndTile(y, height, th);
    G.EdgeStep(i, y, height, imHeight, th, whole);
    G.EdgeStep(j, x, width, imWidth, tw, whole);
    t := FetchTile(m, q, i, j, G.TileCount(imWidth, tw), level, now);
    dstWidth := G.CopySize(j, startx, endx, t.width, x, width, tw, whole);
    dstHeight := G.CopySize(i, starty, endy, t.height, y, height, th, whole);
    xf, yf := G.CopyOffset(j, startx, x, tw, whole), G.CopyOffset(i, starty, y, th, whole);
  }

  /** CopyTile to the right of what has been painted of the rows from ch on. */
  method PlaceTile(region: array<int>, stride: nat, rows: nat, ch: nat, ct: nat, n: nat, len: nat,
                   tile: seq<int>, tstride: nat, theight: nat, yf: nat, xf: nat,
                   ghost samples: seq<int>, ghost width: int, ghost y: int, ghost x0: int, ghost t0: Tally)
      returns (ghost tally: Tally)
    requires region.Length == rows * stride && ch + n <= rows && ct + len <= stride
    requires |tile| == theight * tstride && yf + n <= theight && xf + len <= tstride
    requires Copies(tile, tstride, theight, tstride, samples, width, y + ch - yf, x0 + ct - xf)
    requires Painted(region[..], stride, samples, width, y, x0, 0, ch, 0, stride)
    requires Painted(region[..], stride, samples, width, y, x0, ch, ch + n, 0, ct)
    requires WrittenOnce(t0, rows, stride, ch, ch + n, ct)
    modifies region
    ensures Painted(region[..], stride, samples, width, y, x0, 0, ch, 0, stride)
    ensures Painted(region[..], stride, samples, width, y, x0, ch, ch + n, 0, ct + len)
    ensures WrittenOnce(tally, rows, stride, ch, ch + n, ct + len)
  {
    hide Painted, WrittenOnce, Bumped, Kept, Copies;
    ghost var before := region[..];
    tally := CopyTile(region, stride, rows, ch, ct, n, len, tile, tstride, theight, yf, xf, samples, width, y, x0, t0);
    PaintMore(region[..], before, rows, stride, samples, width, y, x0, ch, ch + n, ct, ct + len);
    TallyStep(t0, tally, rows, stride, ch, ch + n, ct, ct + len);
  }

  /** Painted: the rows before ch, and of the rows from ch to r2 the first t1 samples. */
  ghost predicate PaintedTo(region: seq<int>, stride: int, level: Level, x: int, y: int, ch: int, r2: int, t1: int) {
    && Painted(region, stride, level.samples, level.width * level.channels, y, x * level.channels, 0, ch, 0, stride)
    && Painted(region, stride, level.samples, level.width * level.channels, y, x * level.channels, ch, r2, 0, t1)
  }

  /** One row of tiles: the body of getRegion's outer loop. */
  method StitchRow(m: Manager, q: Request, region: array<int>, i: nat, ch: nat, x: nat, y: nat, width: nat, height: nat,
                   imWidth: nat, imHeight: nat, channels: nat, ghost level: Level, ghost now: string -> int, ghost n0: Tally)
      returns (dstHeight: nat, ghost n: Tally)
    requires Ready(m, q, level, now) && Inside(level, x, y, width, height)
    requires imWidth == level.width && imHeight == level.height && channels == level.channels
    requires region.Length == height * (width * channels)
    requires var th := m.codec.tileHeight(q.filename);
      G.FirstTile(y, th) <= i < G.EndTile(y, height, th) && ch == G.Edge(i, y, height, th)
    requires Painted(region[..], width * channels, level.samples, level.width * channels, y, x * channels, 0, ch, 0, width * channels)
    requires WrittenOnce(n0, height, width * channels, ch, ch, 0)
    modifies m.cache, region
    ensures Ready(m, q, level, now) && ch + dstHeight == G.Edge(i + 1, y, height, m.codec.tileHeight(q.filename)) <= height
    ensures Painted(region[..], width * channels, level.samples, level.width * channels, y, x * channels,
                    0, ch + dstHeight, 0, width * channels)
    ensures WrittenOnce(n, height, width * channels, ch + dstHeight, ch + dstHeight, 0)
  {
    hide Painted, Ready, WrittenOnce, G.Edge, Kept, Copies, G.TileSize, G.CopySize, G.CopyOffset, G.TileCount;
    var tw, th := m.codec.tileWidth(q.filename), m.codec.tileHeight(q.filename);
    HeightPositive(m, q, level, now);
    var whole := x == 0 && y == 0 && width == imWidth && height == imHeight;
    if whole { G.WholeRange(imWidth, tw); G.WholeRange(imHeight, th); }
    var startx := if whole then 0 else G.FirstTile(x, tw);
    var endx := if whole then G.TileCount(imWidth, tw) else G.EndTile(x, width, tw);
    G.EdgeStep(i, y, height, imHeight, th, whole);
    G.EdgeEnds(x, width, imWidth, tw);
    ghost var rows := G.Edge(i + 1, y, height, th) - ch;
    n := n0;
    StartRow(region[..], n, height, width * channels, level.samples, level.width * channels, y, x * channels, ch, ch + rows);
    dstHeight := 0;
    var currentWidth := 0;
    for j := startx to endx
      invariant Ready(m, q, level, now) && currentWidth == G.Edge(j, x, width, tw) <= width
      invariant j > startx ==> dstHeight == rows
      invariant PaintedTo(region[..], width * channels, level, x, y, ch, ch + rows, currentWidth * channels)
      invariant WrittenOnce(n, height, width * channels, ch, ch + rows, currentWidth * channels)
    {
      G.EdgeStep(j, x, width, imWidth, tw, whole);
      var dstWidth;
      dstWidth, dstHeight, n := StitchTile(m, q, region, i, j, ch, currentWidth, x, y, width, height, imWidth, imHeight, channels,
                                           level, now, n);
      currentWidth := currentWidth + dstWidth;
    }
    EndRow(region[..], n, height, width * channels, level.samples, level.width * channels, y, x * channels, ch, ch + rows);
  }

  lemma StartRow(region: seq<int>, n: Tally, rows: int, stride: int, samples: seq<int>, width: int, y: int, x0: int, r1: int, r2: int)
    requires WrittenOnce(n, rows, stride, r1, r1, 0)
    ensures Painted(region, stride, samples, width, y, x0, r1, r2, 0, 0) && WrittenOnce(n, rows, stride, r1, r2, 0)
  {
  }

  lemma EndRow(region: seq<int>, n: Tally, rows: int, stride: int, samples: seq<int>, width: int, y: int, x0: int, r1: int, r2: int)
    requires Painted(region, stride, samples, width, y, x0, 0, r1, 0, stride)
    requires Painted(region, stride, samples, width, y, x0, r1, r2, 0, stride)
    requires WrittenOnce(n, rows, stride, r1, r2, stride) && r1 <= r2
    ensures Painted(region, stride, samples, width, y, x0, 0, r2, 0, stride) && WrittenOnce(n, rows, stride, r2, r2, 0)
  {
  }

  /** getRegion for an image type that does not decode regions itself. */
  method GetRegion(m: Manager, q: Request, x: nat, y: nat, width: nat, height: nat,
                   imWidth: nat, imHeight: nat, channels: nat, ghost level: Level, ghost now: string -> int)
      returns (region: array<int>, ghost n: Tally)
    requires Ready(m, q, level, now) && Inside(level, x, y, width, height)
    requires imWidth == level.width && imHeight == level.height && channels == level.channels
    modifies m.cache
    ensures Ready(m, q, level, now) && region.Length == height * (width * channels)
    ensures Painted(region[..], width * channels, level.samples, level.width * channels, y, x * channels, 0, height, 0, width * channels)
    ensures forall r, t :: 0 <= r < height && 0 <= t < width * channels ==> n(r, t) == 1
    ensures forall r, c, k :: 0 <= r < height && 0 <= c < width && 0 <= k < channels ==>
      Sample(region[..], width, channels, r, c, k) == Sample(level.samples, level.width, channels, y + r, x + c, k)
  {
    hide Painted, Ready, WrittenOnce, G.Edge, Sample;
    var th := m.codec.tileHeight(q.filename);
    HeightPositive(m, q, level, now);
    region := new int[height * (width * channels)];
    n := (r, t) => 0;
    StartRegion(region[..], n, height, width * channels, level.samples, level.width * channels, y, x * channels);
    G.EdgeEnds(y, height, imHeight, th);
    var whole := x == 0 && y == 0 && width == imWidth && height == imHeight;
    if whole { G.WholeRange(imHeight, th); }
    var starty := if whole then 0 else G.FirstTile(y, th);
    var endy := if whole then G.TileCount(imHeight, th) else G.EndTile(y, height, th);
    var currentHeight := 0;
    for i := starty to endy
      invariant Ready(m, q, level, now) && currentHeight == G.Edge(i, y, height, th)
      invariant Painted(region[..], width * channels, level.samples, level.width * channels, y, x * channels,
                        0, currentHeight, 0, width * channels)
      invariant WrittenOnce(n, height, width * channels, currentHeight, currentHeight, 0)
    {
      var dstHeight;
      dstHeight, n := StitchRow(m, q, region, i, currentHeight, x, y, width, height, imWidth, imHeight, channels, level, now, n);
      currentHeight := currentHeight + dstHeight;
    }
    AllWritten(n, height, width * channels);
    forall r, c, k | 0 <= r < height && 0 <= c < width && 0 <= k < channels
      ensures Sample(region[..], width, channels, r, c, k) == Sample(level.samples, level.width, channels, y + r, x + c, k)
    {
      RegionIsSlice(region[..], level, x, y, width, height, r, c, k);
    }
  }

  lemma HeightPositive(m: Manager, q: Request, level: Level, now: string -> int)
    requires Ready(m, q, level, now)
    ensures m.codec.tileHeight(q.filename) > 0 && m.codec.tileWidth(q.filename) > 0
  {
  }

  lemma StartRegion(region: seq<int>, n: Tally, rows: int, stride: int, samples: seq<int>, width: int, y: int, x0: int)
    requires forall r, t :: n(r, t) == 0
    ensures Painted(region, stride, samples, width, y, x0, 0, 0, 0, stride) && WrittenOnce(n, rows, stride, 0, 0, 0)
  {
  }

  lemma AllWritten(n: Tally, rows: int, stride: int)
    requires WrittenOnce(n, rows, stride, rows, rows, 0)
    ensures forall r, t :: 0 <= r < rows && 0 <= t < stride ==> n(r, t) == 1
  {
  }

  /** Sample k of the pixel in column c and row r. */
  function Sample(s: seq<int>, width: nat, channels: nat, r: nat, c: nat, k: nat): int {
    At(s, 1, 0, (r * width + c) * channels + k)
  }

  /** The region is the slice: pixel by pixel, channel by channel. */
  lemma RegionIsSlice(region: seq<int>, level: Level, x: nat, y: nat, width: nat, height: nat, r: nat, c: nat, k: nat)
    requires Inside(level, x, y, width, height) && r < height && c < width && k < level.channels
    requires Painted(region, width * level.channels, level.samples, level.width * level.channels, y, x * level.channels,
                     0, height, 0, width * level.channels)
    ensures Sample(region, width, level.channels, r, c, k) == Sample(level.samples, level.width, level.channels, y + r, x + c, k)
  {
    hide At, Sample;
    var n := level.channels;
    G.MulMono(c + 1, width, n);
    assert (c + 1) * n == c * n + n && c * n >= 0;
    SampleIsAt(region, width, n, r, c, k);
    SampleIsAt(level.samples, level.width, n, y + r, x + c, k);
    assert (x + c) * n + k == x * n + (c * n + k);
    var t := c * n + k;
    assert At(region, width * n, r, t) == At(level.samples, level.width * n, y + r, x * n + t);
  }

  lemma SampleIsAt(s: seq<int>, width: nat, n: nat, r: nat, c: nat, k: nat)
    ensures Sample(s, width, n, r, c, k) == At(s, width * n, r, c * n + k)
  {
    assert (r * width + c) * n == r * (width * n) + c * n;
  }

  /******* There is an image for every level *******/

  /** The tile in row row and column col of the level, in rows of its own width. */
  function TileOf(level: Level, row: nat, col: nat, tw: nat, th: nat): (d: Decoded)
    requires tw > 0 && th > 0
  {
    var w, h := G.TileSize(col, level.width, tw), G.TileSize(row, level.height, th);
    Decoded(Block(level.samples, level.width * level.channels, row * th, col * tw * level.channels, h, w * level.channels),
            w, h, level.channels, 8, false)
  }

  /** h rows of len samples, from row r0 and sample t0 on. */
  function Block(samples: seq<int>, width: int, r0: int, t0: int, h: nat, len: nat): (b: seq<int>)
    ensures |b| == h * len
  {
    if len == 0 then [] else seq(h * len, i requires i >= 0 => At(samples, width, r0 + i / len, t0 + i % len))
  }

  lemma BlockCopies(samples: seq<int>, width: int, r0: int, t0: int, h: nat, len: nat)
    ensures Copies(Block(samples, width, r0, t0, h, len), len, h, len, samples, width, r0, t0)
  {
    var b := Block(samples, width, r0, t0, h, len);
    forall r, i | 0 <= r < h && 0 <= i < len ensures At(b, len, r, i) == At(samples, width, r0 + r, t0 + i) {
      InRows(r, i, h, len);
      G.TileNumber(r, i, len);
      G.MulMono(r + 1, h, len);
    }
  }

  /** A codec whose only image is the level. */
  function CodecOf(level: Level, tw: nat, th: nat): Codec
    requires tw > 0 && th > 0
  {
    var n := G.TileCount(level.width, tw);
    Codec((f: string, ts: int, res: int, tile: int, x: int, y: int) =>
            if n == 0 || tile < 0 then Decoded([], 0, 0, 0, 8, false) else TileOf(level, tile / n, tile % n, tw, th),
          (c: CompressionType, quality: int, t: RawTile) => t.data,
          (f: string) => tw, (f: string) => th)
  }

  lemma CodecDepicts(level: Level, tw: nat, th: nat, q: Request)
    requires tw > 0 && th > 0
    ensures SoundCodec(CodecOf(level, tw, th)) && Depicts(CodecOf(level, tw, th), q, level)
  {
    hide G.TileSize, G.TileCount, Copies, Block;
    var k := CodecOf(level, tw, th);
    forall row, col | 0 <= row < G.TileCount(level.height, th) && 0 <= col < G.TileCount(level.width, tw)
      ensures Shows(k.decode(q.filename, q.timestamp, q.resolution, TileNo(row, col, level.width, tw), q.x, q.y),
                    level, row, col, tw, th)
    {
      G.TileNumber(row, col, G.TileCount(level.width, tw));
      BlockCopies(level.samples, level.width * level.channels, row * th, col * tw * level.channels,
                  G.TileSize(row, level.height, th), G.TileSize(col, level.width, tw) * level.channels);
    }
  }

  /** With a name of up to 971 characters and no more tiles than a C int can number, all tiles are plain. */
  lemma TilesArePlain(k: Codec, q: Request, level: Level)
    requires var tw, th := k.tileWidth(q.filename), k.tileHeight(q.filename);
      tw > 0 && th > 0 && G.TileCount(level.height, th) * G.TileCount(level.width, tw) <= 0x8000_0000
    requires q.compression == UNCOMPRESSED && q.quality == 0 && |q.filename| <= LONGEST_NAME
    requires Askable(TileIdOf(q.(tile := 0), UNCOMPRESSED, 0))
    ensures TilesPlain(k, q, level)
  {
    var tw, th := k.tileWidth(q.filename), k.tileHeight(q.filename);
    hide PlainRequest, G.TileCount, Askable, TileNo;
    forall row, col | 0 <= row < G.TileCount(level.height, th) && 0 <= col < G.TileCount(level.width, tw)
      ensures PlainRequest(q.(tile := TileNo(row, col, level.width, tw)))
    {
      TileNoBound(row, col, level, tw, th);
      PlainTile(q, TileNo(row, col, level.width, tw));
    }
  }

  lemma TileNoBound(row: nat, col: nat, level: Level, tw: nat, th: nat)
    requires tw > 0 && th > 0 && row < G.TileCount(level.height, th) && col < G.TileCount(level.width, tw)
    ensures TileNo(row, col, level.width, tw) < G.TileCount(level.height, th) * G.TileCount(level.width, tw)
  {
    hide G.TileCount;
    G.MulMono(row + 1, G.TileCount(level.height, th), G.TileCount(level.width, tw));
  }

  lemma PlainTile(q: Request, n: int)
    requires q.compression == UNCOMPRESSED && q.quality == 0 && |q.filename| <= LONGEST_NAME && 0 <= n < 0x8000_0000
    requires Askable(TileIdOf(q.(tile := 0), UNCOMPRESSED, 0))
    ensures PlainRequest(q.(tile := n))
  {
    hide PlainRequest;
    ShortNamesArePlain(q.(tile := n));
  }

  /** A manager with an empty cache, for a request and an image that shows the level, cuts any region
      out of it. */
  method CutOut(level: Level, tw: nat, th: nat, q: Request, maxSize: nat, x: nat, y: nat, width: nat, height: nat)
      returns (region: array<int>)
    requires tw > 0 && th > 0 && Inside(level, x, y, width, height)
    requires G.TileCount(level.height, th) * G.TileCount(level.width, tw) <= 0x8000_0000
    requires q.compression == UNCOMPRESSED && q.quality == 0 && |q.filename| <= LONGEST_NAME
    requires Askable(TileIdOf(q.(tile := 0), UNCOMPRESSED, 0))
    ensures forall r, c, k :: 0 <= r < height && 0 <= c < width && 0 <= k < level.channels ==>
      Sample(region[..], width, level.channels, r, c, k) == Sample(level.samples, level.width, level.channels, y + r, x + c, k)
  {
    hide Depicts, TilesPlain, SoundCodec, Sample, Askable, G.TileCount;
    var cache := new Cache(maxSize, (key: string, t: RawTile) => 1);
    var m := new Manager(cache, CodecOf(level, tw, th));
    CodecDepicts(level, tw, th, q);
    TilesArePlain(m.codec, q, level);
    ghost var now := (f: string) => q.timestamp;
    ghost var n;
    region, n := GetRegion(m, q, x, y, width, height, level.width, level.height, level.channels, level, now);
  }
}
