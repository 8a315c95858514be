/** Tile geometry: how a level of an image is cut into tiles (src/TPTImage.cc, src/OpenJPEGImage.cc)
    and which part of each tile a region takes (src/TileManager.cc, getRegion). Rows and columns
    follow the same rules, so they are stated once, for one direction. */
module Geometry {
  import opened Basics

  /** The number of tiles of size tw that cover size. */
  function TileCount(size: nat, tw: nat): (n: nat)
    requires tw > 0
    ensures (n - 1) * tw < size <= n * tw || (size == 0 && n == 0)
  {
    size / tw + (if size % tw == 0 then 0 else 1)
  }

  /** The size of tile i: the last one is cut when the tiles do not fit evenly. */
  function TileSize(i: nat, size: nat, tw: nat): nat
    requires tw > 0
  {
    if i == TileCount(size, tw) - 1 && size % tw != 0 then size % tw else tw
  }

  /** A tile covers the image from its offset to the next tile or to the edge. */
  lemma TileSizeIs(i: nat, size: nat, tw: nat)
    requires tw > 0 && i < TileCount(size, tw)
    ensures TileSize(i, size, tw) == Min((i + 1) * tw, size) - i * tw > 0
  {
    var n := TileCount(size, tw);
    assert (i + 1) * tw == i * tw + tw;
    assert size == size / tw * tw + size % tw;
    if i < n - 1 {
      assert (n - 1) * tw == (i + 1) * tw + (n - 2 - i) * tw;
      assert (n - 2 - i) * tw >= 0;
    } else {
      assert (n - 1) * tw + tw == n * tw;
    }
  }

  lemma TileEnds(i: nat, size: nat, tw: nat)
    requires tw > 0 && i < TileCount(size, tw)
    ensures 0 < TileSize(i, size, tw) <= tw
  {
  }

  /** The first tile a region from pos on meets, and the offset in it. */
  function FirstTile(pos: nat, tw: nat): nat requires tw > 0 { pos / tw }

  /** One past the last tile: the exact value of the ceil in getRegion. */
  function EndTile(pos: nat, size: nat, tw: nat): nat requires tw > 0 { (pos + size + tw - 1) / tw }

  /** The part of the region in tile i, as a range of image coordinates: the reference. */
  function Lo(i: nat, pos: nat, tw: nat): nat { Max(i * tw, pos) }
  function Hi(i: nat, pos: nat, size: nat, tw: nat): int { Min((i + 1) * tw, pos + size) }

  /** The width (or height) that getRegion copies out of tile i, of size src, with its own case
      distinctions: whole says that the region is the whole level. */
  function CopySize(i: nat, start: nat, end: nat, src: nat, pos: nat, size: nat, tw: nat, whole: bool): int
    requires tw > 0
  {
    if whole then src
    else if i == start then (if i < end - 1 then src - pos % tw else size)
    else if i == end - 1 then (if (size + pos) % tw != 0 then (size + pos) % tw else src)
    else src
  }

  function CopyOffset(i: nat, start: nat, pos: nat, tw: nat, whole: bool): nat
    requires tw > 0
  {
    if !whole && i == start then pos % tw else 0
  }

  lemma MulMono(a: int, b: int, c: nat)
    requires a <= b
    ensures a * c <= b * c
  {
    assert b * c == a * c + (b - a) * c;
  }

  lemma DivSandwich(n: nat, d: nat)
    requires d > 0
    ensures n / d * d <= n < (n / d + 1) * d && n == n / d * d + n % d
  {
  }

  lemma DivIs(n: nat, d: nat, q: nat)
    requires q * d <= n < (q + 1) * d
    ensures d > 0 && n / d == q
  {
    DivSandwich(n, d);
    if n / d < q { MulMono(n / d + 1, q, d); }
    if n / d > q { MulMono(q + 1, n / d, d); }
  }

  /** Number d of w by h numbers, counted along the rows. */
  lemma RowAndColumn(d: nat, w: nat, h: nat)
    requires d < w * h
    ensures w > 0 && d == d / w * w + d % w && d / w < h && d % w < w
  {
    DivSandwich(d, w);
    if d / w >= h { MulMono(h, d / w, w); }
  }

  /** The tiles that are visited are those that meet the region. */
  lemma TileRange(pos: nat, size: nat, total: nat, tw: nat)
    requires tw > 0 && size > 0 && pos + size <= total
    ensures var s, e := FirstTile(pos, tw), EndTile(pos, size, tw);
      s < e <= TileCount(total, tw) && s * tw <= pos < (s + 1) * tw && (e - 1) * tw < pos + size <= e * tw
  {
    var s, e, n := FirstTile(pos, tw), EndTile(pos, size, tw), TileCount(total, tw);
    DivSandwich(pos, tw);
    DivSandwich(pos + size + tw - 1, tw);
    assert (e - 1) * tw == e * tw - tw && (e + 1) * tw == e * tw + tw;
    if e <= s { MulMono(e, s, tw); }
    if n < e { MulMono(n, e - 1, tw); }
  }

  lemma WholeRange(total: nat, tw: nat)
    requires tw > 0 && total > 0
    ensures FirstTile(0, tw) == 0 && EndTile(0, total, tw) == TileCount(total, tw)
  {
    TileRange(0, total, total, tw);
    var e, n := EndTile(0, total, tw), TileCount(total, tw);
    if e < n { MulMono(e, n - 1, tw); }
  }

  /** What getRegion computes for tile i is the part of the region that lies in the tile. */
  lemma CopySizeIs(i: nat, pos: nat, size: nat, total: nat, tw: nat, whole: bool)
    requires tw > 0 && size > 0 && pos + size <= total && (whole ==> pos == 0 && size == total)
    requires FirstTile(pos, tw) <= i < EndTile(pos, size, tw)
    ensures i < TileCount(total, tw)
    ensures
      var s, e, src := FirstTile(pos, tw), EndTile(pos, size, tw), TileSize(i, total, tw);
      var n, off := CopySize(i, s, e, src, pos, size, tw, whole), CopyOffset(i, s, pos, tw, whole);
      n == Hi(i, pos, size, tw) - Lo(i, pos, tw) > 0 && i * tw + off == Lo(i, pos, tw) && off + n <= src
  {
    var s, e, src := FirstTile(pos, tw), EndTile(pos, size, tw), TileSize(i, total, tw);
    TileRange(pos, size, total, tw);
    TileSizeIs(i, total, tw);
    assert (i + 1) * tw == i * tw + tw;
    DivSandwich(pos, tw);
    if i > s { MulMono(s + 1, i, tw); }
    if i < e - 1 { MulMono(i + 1, e - 1, tw); }
    if whole {
      WholeRange(total, tw);
    } else if i == e - 1 {
      LastRemainder(pos + size, e, tw);
    }
  }

  lemma LastRemainder(m: nat, e: nat, tw: nat)
    requires tw > 0 && e > 0 && (e - 1) * tw < m <= e * tw
    ensures m % tw == if m == e * tw then 0 else m - (e - 1) * tw
  {
    assert e * tw == (e - 1) * tw + tw;
    DivSandwich(m, tw);
    if m / tw < e - 1 { MulMono(m / tw + 1, e - 1, tw); }
    if m / tw > e { MulMono(e, m / tw - 1, tw); }
  }

  /** The parts of consecutive tiles are adjacent; together they are the region. */
  lemma PartsAbut(i: nat, pos: nat, size: nat, total: nat, tw: nat)
    requires tw > 0 && size > 0 && pos + size <= total
    requires FirstTile(pos, tw) <= i < EndTile(pos, size, tw)
    ensures i == FirstTile(pos, tw) ==> Lo(i, pos, tw) == pos
    ensures i + 1 < EndTile(pos, size, tw) ==> Hi(i, pos, size, tw) == Lo(i + 1, pos, tw)
    ensures i + 1 == EndTile(pos, size, tw) ==> Hi(i, pos, size, tw) == pos + size
  {
    var s, e := FirstTile(pos, tw), EndTile(pos, size, tw);
    TileRange(pos, size, total, tw);
    if i < e - 1 { MulMono(i + 1, e - 1, tw); }
    if i >= s { MulMono(s + 1, i + 1, tw); }
  }

  /** Tile numbers run along the rows. */
  lemma TileNumber(row: nat, col: nat, ntlx: nat)
    requires col < ntlx
    ensures (row * ntlx + col) / ntlx == row && (row * ntlx + col) % ntlx == col
  {
    var n := row * ntlx + col;
    DivSandwich(n, ntlx);
    var q := n / ntlx;
    if q < row { MulMono(q + 1, row, ntlx); }
    if row < q { MulMono(row + 1, q, ntlx); }
  }

  /** Where tile i starts in the region, counted from the region's own origin. */
  function Edge(i: nat, pos: nat, size: nat, tw: nat): int {
    Min(Max(i * tw, pos), pos + size) - pos
  }

  lemma EdgeStep(i: nat, pos: nat, size: nat, total: nat, tw: nat, whole: bool)
    requires tw > 0 && size > 0 && pos + size <= total && (whole ==> pos == 0 && size == total)
    requires FirstTile(pos, tw) <= i < EndTile(pos, size, tw)
    ensures i < TileCount(total, tw)
    ensures
      var s, e, src := FirstTile(pos, tw), EndTile(pos, size, tw), TileSize(i, total, tw);
      var n, off := CopySize(i, s, e, src, pos, size, tw, whole), CopyOffset(i, s, pos, tw, whole);
      && n > 0 && off + n <= src && pos + Edge(i, pos, size, tw) == i * tw + off
      && 0 <= Edge(i, pos, size, tw) < Edge(i, pos, size, tw) + n == Edge(i + 1, pos, size, tw) <= size
  {
    hide TileSize, TileCount;
    CopySizeIs(i, pos, size, total, tw, whole);
    PartsAbut(i, pos, size, total, tw);
    TileRange(pos, size, total, tw);
    assert (i + 1) * tw == i * tw + tw;
  }

  lemma EdgeEnds(pos: nat, size: nat, total: nat, tw: nat)
    requires tw > 0 && size > 0 && pos + size <= total
    ensures FirstTile(pos, tw) < EndTile(pos, size, tw)
    ensures Edge(FirstTile(pos, tw), pos, size, tw) == 0 && Edge(EndTile(pos, size, tw), pos, size, tw) == size
  {
    TileRange(pos, size, total, tw);
  }

  /** A row and an offset in it are determined by their place. */
  lemma RowIndex(r: int, t: int, r': int, t': int, stride: int)
    requires 0 <= t < stride && 0 <= t' < stride && r * stride + t == r' * stride + t'
    ensures r == r' && t == t'
  {
    if r < r' { MulMono(r + 1, r', stride); }
    if r' < r { MulMono(r' + 1, r, stride); }
  }
}
