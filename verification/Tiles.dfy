/** What a tile is: decoding, cropping and compressing one, without any cache
    (src/TileManager.cc, getNewTile and crop). */
module Tiles {
  import opened TileCache
  import G = Geometry

  /** What a decoder returns for a tile; padded says that data fills a whole tile although the
      image covers only width by height of it. */
  datatype Decoded = Decoded(data: seq<int>, width: nat, height: nat, channels: nat, bpc: nat, padded: bool)

  /** The image codecs and the compressors: fixed functions of their arguments. An image file at a
      given timestamp has fixed contents. */
  datatype Codec = Codec(
    decode: (string, int, int, int, int, int) -> Decoded,
    encode: (CompressionType, int, RawTile) -> seq<int>,
    tileWidth: string -> nat,
    tileHeight: string -> nat)

  /** A padded tile is as large as a tile, and the part to keep lies in it. */
  ghost predicate SoundCodec(k: Codec) {
    forall f, ts, r, t, x, y :: SoundTile(k.decode(f, ts, r, t, x, y), k.tileWidth(f), k.tileHeight(f))
  }

  predicate SoundTile(d: Decoded, tw: nat, th: nat) {
    d.padded ==> |d.data| == th * (tw * d.channels) && d.width <= tw && d.height <= th
  }

  /** A request for a tile of the image file as of timestamp. */
  datatype Request = Request(filename: string, timestamp: int, resolution: int, tile: int, x: int, y: int,
                             compression: CompressionType, quality: int)

  /** rows scanlines of len samples, taken at a distance of stride. */
  function Scanlines(data: seq<int>, stride: nat, len: nat, rows: nat): (r: seq<int>)
    requires len <= stride && rows * stride <= |data|
    ensures |r| == rows * len
  {
    if rows == 0 then []
    else
      assert (rows - 1) * stride + stride == rows * stride && (rows - 1) * len + len == rows * len;
      Scanlines(data, stride, len, rows - 1) + data[(rows - 1) * stride..(rows - 1) * stride + len]
  }

  /** Sample i of scanline r of a cropped tile is that of the padded tile. */
  lemma {:induction false} ScanlineAt(data: seq<int>, stride: nat, len: nat, rows: nat, r: nat, i: nat)
    requires len <= stride && rows * stride <= |data| && r < rows && i < len
    ensures 0 <= r * len + i < rows * len && 0 <= r * stride + i < |data|
    ensures Scanlines(data, stride, len, rows)[r * len + i] == data[r * stride + i]
  {
    assert (rows - 1) * stride + stride == rows * stride && (rows - 1) * len + len == rows * len;
    if r < rows - 1 {
      ScanlineAt(data, stride, len, rows - 1, r, i);
    }
  }

  predicate NeedsCrop(t: RawTile, tw: nat, th: nat) {
    (t.width != tw || t.height != th) && t.padded
  }

  predicate SoundRaw(t: RawTile, tw: nat, th: nat) {
    SoundTile(Decoded(t.data, t.width, t.height, t.channels, t.bpc, t.padded), tw, th)
  }

  /** A tile with its padding removed. Nothing can be said of a tile whose buffer is too short. */
  function Cropped(t: RawTile, tw: nat, th: nat): RawTile {
    if NeedsCrop(t, tw, th) && SoundRaw(t, tw, th) then
      G.MulMono(t.width, tw, t.channels);
      G.MulMono(t.height, th, tw * t.channels);
      t.(data := Scanlines(t.data, tw * t.channels, t.width * t.channels, t.height), padded := false)
    else t
  }

  /** crop: rewrites the tile's buffer in place, through a copy of it. */
  method Crop(data: array<int>, tw: nat, th: nat, width: nat, height: nat, channels: nat) returns (dataLength: nat)
    requires width <= tw && height <= th && data.Length == th * (tw * channels)
    modifies data
    ensures width * channels <= tw * channels && height * (tw * channels) <= data.Length
    ensures dataLength == height * (width * channels) <= data.Length
    ensures data[..dataLength] == Scanlines(old(data[..]), tw * channels, width * channels, height)
  {
    G.MulMono(width, tw, channels);
    G.MulMono(height, th, tw * channels);
    G.MulMono(width * channels, tw * channels, height);
    dataLength := CropLines(data, data[..], tw * channels, width * channels, height);
  }

  method CropLines(data: array<int>, buffer: seq<int>, stride: nat, len: nat, height: nat) returns (dst: nat)
    requires len <= stride && height * stride <= |buffer| && height * len <= data.Length
    modifies data
    ensures dst == height * len && data[..dst] == Scanlines(buffer, stride, len, height)
  {
    var src := 0;
    dst := 0;
    for i := 0 to height
      invariant src == i * stride && dst == i * len && dst <= data.Length && src <= |buffer|
      invariant data[..dst] == Scanlines(buffer, stride, len, i)
    {
      G.MulMono(i + 1, height, stride);
      G.MulMono(i + 1, height, len);
      assert (i + 1) * stride == i * stride + stride && (i + 1) * len == i * len + len;
      CopyLine(data, dst, buffer, src, len);
      dst := dst + len;
      src := src + stride;
    }
  }

  /** memcpy of one scanline. */
  method CopyLine(data: array<int>, dst: nat, buffer: seq<int>, src: nat, len: nat)
    requires dst + len <= data.Length && src + len <= |buffer|
    modifies data
    ensures data[..dst + len] == old(data[..dst]) + buffer[src..src + len]
    ensures forall i :: dst + len <= i < data.Length ==> data[i] == old(data[i])
  {
    forall j | 0 <= j < len { data[dst + j] := buffer[src + j]; }
  }

  /******* The tile a request should get *******/

  /** Compress, for the compressors' purposes a function of the tile, the format and the quality. */
  function Compressed(k: Codec, t: RawTile, c: CompressionType, quality: int): RawTile {
    t.(data := k.encode(c, quality, t), compressionType := c, quality := quality)
  }

  /** JPEG takes one or three channels of eight bits; PNG takes anything; nothing else is done. */
  predicate CanCompress(t: RawTile, c: CompressionType) {
    (c == JPEG && t.bpc == 8 && t.channels in {1, 3}) || c == PNG
  }

  function Raw(k: Codec, q: Request): RawTile {
    var d := k.decode(q.filename, q.timestamp, q.resolution, q.tile, q.x, q.y);
    RawTile(q.tile, q.resolution, q.x, q.y, UNCOMPRESSED, 0, q.filename, q.timestamp,
            d.data, d.width, d.height, d.channels, d.bpc, d.padded)
  }

  /** The reference: decode, crop, compress, of the image as it is now. */
  function Fresh(k: Codec, q: Request): RawTile {
    var t := Cropped(Raw(k, q), k.tileWidth(q.filename), k.tileHeight(q.filename));
    if CanCompress(t, q.compression) then Compressed(k, t, q.compression, q.quality) else t
  }

  /******* What that tile is *******/

  function Uncompressed(k: Codec, q: Request): RawTile {
    Fresh(k, q.(compression := UNCOMPRESSED, quality := 0))
  }

  /** The answer t in terms of the uncompressed one: compressed as asked for PNG, and for JPEG if the image
      has eight bits in one or three channels; otherwise as it is. */
  predicate InForm(k: Codec, q: Request, t: RawTile) {
    var d := k.decode(q.filename, q.timestamp, q.resolution, q.tile, q.x, q.y);
    var u := Uncompressed(k, q);
    if q.compression == PNG || (q.compression == JPEG && d.bpc == 8 && (d.channels == 1 || d.channels == 3)) then
      && t.compressionType == q.compression && t.quality == q.quality && t.data == k.encode(q.compression, q.quality, u)
      && t.(data := u.data, compressionType := UNCOMPRESSED, quality := 0) == u
    else t == u
  }

  lemma FreshIsInForm(k: Codec, q: Request)
    ensures InForm(k, q, Fresh(k, q))
  {
    hide Scanlines;
  }

  /** The uncompressed tile has the dimensions that were decoded and, unless it is padded, the samples. */
  lemma UncompressedIs(k: Codec, q: Request)
    ensures var d, t := k.decode(q.filename, q.timestamp, q.resolution, q.tile, q.x, q.y), Uncompressed(k, q);
      && t.filename == q.filename && t.timestamp == q.timestamp && t.resolution == q.resolution && t.tileNum == q.tile
      && t.hSequence == q.x && t.vSequence == q.y && t.compressionType == UNCOMPRESSED && t.quality == 0
      && t.width == d.width && t.height == d.height && t.channels == d.channels && t.bpc == d.bpc
      && (!d.padded || (d.width == k.tileWidth(q.filename) && d.height == k.tileHeight(q.filename)) ==>
            t.data == d.data && t.padded == d.padded)
  {
    hide Scanlines;
  }

  /** A padded tile is cropped: sample i of line r is that of the decoded tile, whose lines are as long as
      those of a whole tile. */
  lemma CroppedSample(k: Codec, q: Request, r: nat, i: nat)
    requires var d := k.decode(q.filename, q.timestamp, q.resolution, q.tile, q.x, q.y);
      && SoundTile(d, k.tileWidth(q.filename), k.tileHeight(q.filename)) && d.padded
      && (d.width != k.tileWidth(q.filename) || d.height != k.tileHeight(q.filename))
      && r < d.height && i < d.width * d.channels
    ensures var d, t := k.decode(q.filename, q.timestamp, q.resolution, q.tile, q.x, q.y), Uncompressed(k, q);
      var from, to := r * (k.tileWidth(q.filename) * d.channels) + i, r * (d.width * d.channels) + i;
      && !t.padded && |t.data| == d.height * (d.width * d.channels)
      && 0 <= to < |t.data| && 0 <= from < |d.data| && t.data[to] == d.data[from]
  {
    var d := k.decode(q.filename, q.timestamp, q.resolution, q.tile, q.x, q.y);
    var tw, th := k.tileWidth(q.filename), k.tileHeight(q.filename);
    hide Scanlines;
    G.MulMono(d.width, tw, d.channels);
    G.MulMono(d.height, th, tw * d.channels);
    ScanlineAt(d.data, tw * d.channels, d.width * d.channels, d.height, r, i);
  }
}
