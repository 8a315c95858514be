/** The tile manager (src/TileManager.cc, getTile and getNewTile): answers tile requests from the
    cache where it can. The answers are those of plain decoding. */
module TileManager {
  import opened Lru
  import opened CacheKey
  import opened TileCache
  import opened Tiles

  type Entries = seq<Entry<RawTile>>

  /** The answer to a request and the cache afterwards. */
  datatype Answer = Answer(tile: RawTile, cache: Entries)

  /** A look in the cache: the tile if it is there, which is then the most recently used one. */
  datatype Probe = Probe(hit: Option<RawTile>, cache: Entries)

  function TileIdOf(q: Request, c: CompressionType, quality: int): TileId {
    TileId(q.filename, q.resolution, q.tile, q.x, q.y, Code(c), quality)
  }

  function LookIn(es: Entries, max: nat, id: TileId): Probe {
    if max == 0 then Probe(None, es)
    else Probe(match Find(es, GetIndex(id)) case None => None case Some(e) => Some(e.tile), Touch(es, GetIndex(id)))
  }

  /** JPEG and PNG requests fall back on the uncompressed tile. */
  function Search(es: Entries, max: nat, q: Request): Probe {
    match q.compression
    case UNCOMPRESSED => LookIn(es, max, TileIdOf(q, UNCOMPRESSED, 0))
    case DEFLATE => Probe(None, es)
    case _ =>
      var p := LookIn(es, max, TileIdOf(q, q.compression, q.quality));
      if p.hit.Some? then p else LookIn(p.cache, max, TileIdOf(q, UNCOMPRESSED, 0))
  }

  function Serve(es: Entries, max: nat, cost: CostOf, k: Codec, q: Request): Answer {
    var p := Search(es, max, q);
    if p.hit.None? || p.hit.value.timestamp < q.timestamp then
      Answer(Fresh(k, q), Insert(p.cache, max, NewEntry(Fresh(k, q), cost)))
    else if p.hit.value.compressionType == UNCOMPRESSED && CanCompress(p.hit.value, q.compression) then
      var t := Cropped(p.hit.value, k.tileWidth(q.filename), k.tileHeight(q.filename));
      var c := Compressed(k, t, q.compression, q.quality);
      Answer(c, Insert(p.cache, max, NewEntry(c, cost)))
    else Answer(p.hit.value, p.cache)
  }

  /******* What the cache may hold *******/

  /** The request that t answers. */
  function Asked(t: RawTile): Request {
    Request(t.filename, t.timestamp, t.resolution, t.tileNum, t.hSequence, t.vSequence, t.compressionType, t.quality)
  }

  /** An id whose key identifies it. */
  predicate Plain(id: TileId) {
    '\0' !in id.filename && |Formatted(id)| < BUFFER
  }

  /** A tile that was decoded at its timestamp, under its own key. */
  ghost predicate Genuine(e: Entry<RawTile>, k: Codec) {
    e.tile == Fresh(k, Asked(e.tile)) && e.key == KeyOf(e.tile) && e.timestamp == e.tile.timestamp && Plain(IdOf(e.tile))
  }

  /** Every cached tile is genuine, and none is newer than its image. */
  ghost predicate Sound(es: Entries, k: Codec, now: string -> int) {
    forall e :: e in es ==> Genuine(e, k) && e.timestamp <= now(e.tile.filename)
  }

  /** The keys that a request looks for, or stores its answer under, identify their tiles. */
  predicate PlainRequest(q: Request) {
    Plain(TileIdOf(q, q.compression, q.quality)) && Plain(TileIdOf(q, UNCOMPRESSED, 0))
  }

  /** All that the commands ask for, of files with names of up to 971 characters, is plain. */
  lemma ShortNamesArePlain(q: Request)
    requires Askable(TileIdOf(q, q.compression, q.quality)) && |q.filename| <= LONGEST_NAME
    ensures PlainRequest(q)
  {
    hide Formatted;
    FormattedLength(TileIdOf(q, q.compression, q.quality));
    FormattedLength(TileIdOf(q, UNCOMPRESSED, 0));
  }

  /** A hit is a tile for the id that was looked up. */
  lemma HitIsForId(es: Entries, max: nat, k: Codec, now: string -> int, id: TileId)
    requires Sound(es, k, now) && Plain(id) && LookIn(es, max, id).hit.Some?
    ensures var t := LookIn(es, max, id).hit.value;
      IdOf(t) == id && t == Fresh(k, Asked(t)) && t.timestamp <= now(t.filename)
  {
    hide GetIndex, Formatted, Fresh;
    var e := Find(es, GetIndex(id)).value;
    assert e in es && Genuine(e, k);
    KeyInjective(IdOf(e.tile), id);
  }

  lemma LookKeepsSound(es: Entries, max: nat, k: Codec, now: string -> int, id: TileId)
    requires Sound(es, k, now) && Ok(es, max)
    ensures Sound(LookIn(es, max, id).cache, k, now) && Ok(LookIn(es, max, id).cache, max)
  {
    hide GetIndex, Fresh, Genuine;
    TouchKeeps(es, max, GetIndex(id));
  }

  lemma FreshFacts(k: Codec, q: Request)
    ensures var t := Fresh(k, q);
      && t.filename == q.filename && t.timestamp == q.timestamp && t.resolution == q.resolution && t.tileNum == q.tile
      && t.hSequence == q.x && t.vSequence == q.y
      && (t.compressionType == UNCOMPRESSED ==> t.quality == 0 && t == Fresh(k, q.(compression := UNCOMPRESSED, quality := 0)))
      && (t.compressionType != UNCOMPRESSED ==> t.compressionType == q.compression && t.quality == q.quality)
      && t == Fresh(k, Asked(t))
      && IdOf(t) in {TileIdOf(q, q.compression, q.quality), TileIdOf(q, UNCOMPRESSED, 0)}
  {
    hide Scanlines;
  }

  /** An uncompressed tile from the cache compresses to the tile that decoding afresh gives. */
  lemma CompressingAHit(k: Codec, q: Request)
    requires q.compression in {JPEG, PNG}
    ensures var u := Fresh(k, q.(compression := UNCOMPRESSED, quality := 0));
      && Cropped(u, k.tileWidth(q.filename), k.tileHeight(q.filename)) == u
      && Fresh(k, q) == if CanCompress(u, q.compression) then Compressed(k, u, q.compression, q.quality) else u
  {
    hide Scanlines;
  }

  lemma HitAnswers(es: Entries, max: nat, k: Codec, now: string -> int, q: Request, c: CompressionType, quality: int)
    requires Sound(es, k, now) && q.timestamp == now(q.filename) && Plain(TileIdOf(q, c, quality))
    requires var p := LookIn(es, max, TileIdOf(q, c, quality)); p.hit.Some? && p.hit.value.timestamp >= q.timestamp
    ensures var t := LookIn(es, max, TileIdOf(q, c, quality)).hit.value;
      t == Fresh(k, q.(compression := c, quality := quality)) && t.compressionType == c
  {
    hide Fresh, LookIn;
    HitIsForId(es, max, k, now, TileIdOf(q, c, quality));
    var t := LookIn(es, max, TileIdOf(q, c, quality)).hit.value;
    assert Asked(t) == q.(compression := t.compressionType, quality := quality);
  }

  lemma SearchSound(es: Entries, max: nat, k: Codec, now: string -> int, q: Request)
    requires Sound(es, k, now) && Ok(es, max) && q.timestamp == now(q.filename) && PlainRequest(q)
    ensures var p := Search(es, max, q);
      && Sound(p.cache, k, now) && Ok(p.cache, max)
      && (p.hit.Some? && p.hit.value.timestamp >= q.timestamp ==>
            p.hit.value == Fresh(k, q.(compression := UNCOMPRESSED, quality := 0))
            || (p.hit.value.compressionType != UNCOMPRESSED && p.hit.value == Fresh(k, q)))
  {
    hide Fresh, LookIn, Sound, Ok, Plain;
    var id, id0 := TileIdOf(q, q.compression, q.quality), TileIdOf(q, UNCOMPRESSED, 0);
    LookKeepsSound(es, max, k, now, id);
    LookKeepsSound(es, max, k, now, id0);
    LookKeepsSound(LookIn(es, max, id).cache, max, k, now, id0);
    var p := Search(es, max, q);
    if p.hit.Some? && p.hit.value.timestamp >= q.timestamp {
      if q.compression == UNCOMPRESSED {
        HitAnswers(es, max, k, now, q, UNCOMPRESSED, 0);
      } else if LookIn(es, max, id).hit.Some? {
        HitAnswers(es, max, k, now, q, q.compression, q.quality);
        assert q.(compression := q.compression, quality := q.quality) == q;
      } else {
        HitAnswers(LookIn(es, max, id).cache, max, k, now, q, UNCOMPRESSED, 0);
      }
    }
  }

  lemma StoreKeepsSound(es: Entries, max: nat, cost: CostOf, k: Codec, now: string -> int, q: Request)
    requires Sound(es, k, now) && Ok(es, max) && q.timestamp == now(q.filename) && PlainRequest(q)
    ensures var es' := Insert(es, max, NewEntry(Fresh(k, q), cost)); Sound(es', k, now) && Ok(es', max)
  {
    hide Fresh, GetIndex, Formatted, Lru.Insert;
    FreshFacts(k, q);
    InsertKeeps(es, max, NewEntry(Fresh(k, q), cost));
  }

  /** One request: the answer is the tile decoded afresh, whether it came from the cache, from an
      uncompressed tile in the cache, or from the image because the cached one is stale. */
  lemma Transparent(es: Entries, max: nat, cost: CostOf, k: Codec, now: string -> int, q: Request)
    requires Sound(es, k, now) && Ok(es, max) && q.timestamp == now(q.filename) && PlainRequest(q)
    ensures var a := Serve(es, max, cost, k, q); a.tile == Fresh(k, q) && Sound(a.cache, k, now) && Ok(a.cache, max)
  {
    hide Fresh, Search, Sound, Ok, Cropped, CanCompress, Compressed;
    SearchSound(es, max, k, now, q);
    var p := Search(es, max, q);
    FreshFacts(k, q.(compression := UNCOMPRESSED, quality := 0));
    StoreKeepsSound(p.cache, max, cost, k, now, q);
    UncompressedAnswer(k, q);
  }

  lemma UncompressedAnswer(k: Codec, q: Request)
    ensures var u := Fresh(k, q.(compression := UNCOMPRESSED, quality := 0));
      && u.compressionType == UNCOMPRESSED
      && (!CanCompress(u, q.compression) ==> u == Fresh(k, q))
      && (CanCompress(u, q.compression) ==>
            Compressed(k, Cropped(u, k.tileWidth(q.filename), k.tileHeight(q.filename)), q.compression, q.quality) == Fresh(k, q))
  {
    hide Scanlines;
    if q.compression in {JPEG, PNG} { CompressingAHit(k, q); }
  }

  /** The cache is used: whatever it held, a request that was served before is answered from the cache
      if and only if its tile has the form it asks for, or no entry, then a stale one, stands in the way
      of the uncompressed form. */
  lemma SecondTimeHitsIff(es: Entries, max: nat, cost: CostOf, k: Codec, now: string -> int, q: Request)
    requires Sound(es, k, now) && Ok(es, max) && q.timestamp == now(q.filename) && PlainRequest(q)
    requires q.compression != DEFLATE && (q.compression == UNCOMPRESSED ==> q.quality == 0)
    requires NewEntry(Fresh(k, q), cost).cost <= max
    ensures var cache := Serve(es, max, cost, k, q).cache;
      && (Search(cache, max, q).hit == Some(Fresh(k, q)) <==>
            Fresh(k, q).compressionType == q.compression
            || Find(cache, GetIndex(TileIdOf(q, q.compression, q.quality))).None?)
      && (Search(cache, max, q).hit == Some(Fresh(k, q)) ==>
            Serve(cache, max, cost, k, q) == Answer(Fresh(k, q), Search(cache, max, q).cache))
  {
    hide Fresh, Search, Serve, Sound, PlainRequest, Ok;
    Transparent(es, max, cost, k, now, q);
    ServedIsFound(es, max, cost, k, now, q);
    FoundIsServed(Serve(es, max, cost, k, q).cache, max, k, now, q);
    HitIsServed(Serve(es, max, cost, k, q).cache, max, cost, k, now, q);
  }

  /** The tile is in the cache after it was served, at least as new as the image. */
  lemma ServedIsFound(es: Entries, max: nat, cost: CostOf, k: Codec, now: string -> int, q: Request)
    requires Sound(es, k, now) && Ok(es, max) && q.timestamp == now(q.filename) && PlainRequest(q)
    requires q.compression == UNCOMPRESSED ==> q.quality == 0
    requires NewEntry(Fresh(k, q), cost).cost <= max
    ensures var found := Find(Serve(es, max, cost, k, q).cache, KeyOf(Fresh(k, q)));
      found.Some? && found.value.timestamp >= q.timestamp
  {
    hide Fresh, Sound, PlainRequest, Ok, Insert, Cropped, CanCompress, Compressed, KeyOf, Search;
    var p, a := Search(es, max, q), Serve(es, max, cost, k, q);
    Transparent(es, max, cost, k, now, q);
    SearchSound(es, max, k, now, q);
    FreshFacts(k, q);
    StoredIsFound(p.cache, max, NewEntry(Fresh(k, q), cost));
    if p.hit.Some? && p.hit.value.timestamp >= q.timestamp && a == Answer(p.hit.value, p.cache) {
      HitStays(es, max, k, now, q);
    }
  }

  /** An entry that fits is found under its key after it was stored, or a newer one is. */
  lemma StoredIsFound(es: Entries, max: nat, e: Entry<RawTile>)
    requires Ok(es, max) && e.cost <= max
    ensures var found := Find(Insert(es, max, e), e.key);
      found.Some? && found.value.timestamp >= e.timestamp
  {
    FrontFits(es, max, e);
    FrontFits(Remove(es, e.key), max, e);
    TouchKeeps(es, max, e.key);
  }

  lemma FrontFits(es: Entries, max: nat, e: Entry<RawTile>)
    requires e.cost <= max
    ensures Find(Fit([e] + es, max), e.key) == Some(e)
  {
    var r := Fit([e] + es, max);
    if r == [] {
      TotalOne(e);
      assert ([e] + es)[..1] == [e];
      FitIsLongest([e] + es, max, 1);
    } else {
      assert r[0] == e;
    }
  }

  /** A hit stays in the cache, under its key. */
  lemma HitStays(es: Entries, max: nat, k: Codec, now: string -> int, q: Request)
    requires Sound(es, k, now) && Ok(es, max) && PlainRequest(q) && Search(es, max, q).hit.Some?
    ensures var p := Search(es, max, q);
      var found := Find(p.cache, KeyOf(p.hit.value));
      found.Some? && found.value.timestamp == p.hit.value.timestamp
  {
    hide Fresh, PlainRequest, Find, Touch, Ok, GetIndex;
    PlainBoth(q);
    if q.compression != DEFLATE {
      var id := TileIdOf(q, q.compression, if q.compression == UNCOMPRESSED then 0 else q.quality);
      LookStays(es, max, k, now, id);
      LookKeepsSound(es, max, k, now, id);
      LookStays(LookIn(es, max, id).cache, max, k, now, TileIdOf(q, UNCOMPRESSED, 0));
    }
  }

  lemma LookStays(es: Entries, max: nat, k: Codec, now: string -> int, id: TileId)
    requires Sound(es, k, now) && Ok(es, max) && Plain(id)
    ensures var p := LookIn(es, max, id);
      p.hit.Some? ==>
        var found := Find(p.cache, KeyOf(p.hit.value));
        found.Some? && found.value.timestamp == p.hit.value.timestamp
  {
    hide Fresh, Find, Touch, Ok, GetIndex, Formatted;
    TouchKeeps(es, max, GetIndex(id));
    if LookIn(es, max, id).hit.Some? { HitIsForId(es, max, k, now, id); }
  }

  lemma PlainBoth(q: Request)
    requires PlainRequest(q)
    ensures Plain(TileIdOf(q, q.compression, q.quality)) && Plain(TileIdOf(q, UNCOMPRESSED, 0))
  {
  }

  /** When the tile is in the cache, the search finds it if and only if it is the form looked for first,
      or there is nothing under that key. */
  lemma FoundIsServed(es: Entries, max: nat, k: Codec, now: string -> int, q: Request)
    requires Sound(es, k, now) && Ok(es, max) && q.timestamp == now(q.filename) && PlainRequest(q) && max > 0
    requires q.compression != DEFLATE && (q.compression == UNCOMPRESSED ==> q.quality == 0)
    requires var found := Find(es, KeyOf(Fresh(k, q)));
      found.Some? && found.value.timestamp >= q.timestamp
    ensures Search(es, max, q).hit == Some(Fresh(k, q)) <==>
      Fresh(k, q).compressionType == q.compression || Find(es, GetIndex(TileIdOf(q, q.compression, q.quality))).None?
  {
    hide Fresh, PlainRequest, Find, Touch, Ok, GetIndex;
    var id, plain := TileIdOf(q, q.compression, q.quality), TileIdOf(q, UNCOMPRESSED, 0);
    PlainBoth(q);
    FreshFacts(k, q);
    if Fresh(k, q).compressionType == q.compression {
      HitAnswers(es, max, k, now, q, q.compression, q.quality);
      assert q.(compression := q.compression, quality := q.quality) == q;
    } else if LookIn(es, max, id).hit.Some? {
      HitIsForId(es, max, k, now, id);
    } else {
      TouchNothing(es, GetIndex(id));
      HitAnswers(es, max, k, now, q, UNCOMPRESSED, 0);
    }
  }

  lemma TouchNothing(es: Entries, key: string)
    requires Find(es, key).None?
    ensures Touch(es, key) == es
  {
  }

  /** What the search finds of the tile is the answer. */
  lemma HitIsServed(es: Entries, max: nat, cost: CostOf, k: Codec, now: string -> int, q: Request)
    requires Sound(es, k, now) && Ok(es, max) && q.timestamp == now(q.filename) && PlainRequest(q)
    ensures Search(es, max, q).hit == Some(Fresh(k, q)) ==>
      Serve(es, max, cost, k, q) == Answer(Fresh(k, q), Search(es, max, q).cache)
  {
    hide Search, Sound, Ok, PlainRequest, Scanlines;
    FreshFacts(k, q);
    if Fresh(k, q).compressionType == UNCOMPRESSED {
      UncompressedAnswer(k, q);
    }
  }

  /** With a name that fills the key alone, the second of two requests is answered with the tile of the
      first, whatever tile it asks for. */
  lemma WrongTileServed(max: nat, cost: CostOf, k: Codec, q: Request, other: Request)
    requires q.compression == UNCOMPRESSED && other.compression == UNCOMPRESSED && q.quality == 0
    requires q.filename == other.filename && |CStr(q.filename)| >= BUFFER - 1 && q.timestamp == other.timestamp
    requires NewEntry(Fresh(k, q), cost).cost <= max
    ensures Serve(Serve([], max, cost, k, q).cache, max, cost, k, other).tile == Fresh(k, q)
  {
    hide Fresh, GetIndex, CStr;
    FreshFacts(k, q);
    FreshUncompressed(k, q);
    LongNamesCollide(TileIdOf(q, UNCOMPRESSED, 0), TileIdOf(other, UNCOMPRESSED, 0));
    var e := NewEntry(Fresh(k, q), cost);
    FrontFits([], max, e);
  }

  lemma FreshUncompressed(k: Codec, q: Request)
    requires q.compression == UNCOMPRESSED
    ensures Fresh(k, q).compressionType == UNCOMPRESSED && Fresh(k, q).quality == 0
  {
  }

  /******* Whole runs *******/

  /** A request (its timestamp is that of the image when it is served), a cleared cache, or a new
      version of an image file. */
  datatype Event = Ask(q: Request) | Flush | Modify(filename: string, timestamp: int)

  function Updated(now: string -> int, f: string, ts: int): string -> int {
    (g: string) => if g == f then ts else now(g)
  }

  function Current(q: Request, now: string -> int): Request {
    q.(timestamp := now(q.filename))
  }

  /** Image files only ever get newer, and file names yield proper keys. */
  predicate Legal(evs: seq<Event>, now: string -> int) {
    if evs == [] then true
    else match evs[0]
      case Ask(q) => PlainRequest(q) && Legal(evs[1..], now)
      case Flush => Legal(evs[1..], now)
      case Modify(f, ts) => ts > now(f) && Legal(evs[1..], Updated(now, f, ts))
  }

  /** The answers of the tile manager, starting with the cache es. */
  function WithCache(es: Entries, max: nat, cost: CostOf, k: Codec, now: string -> int, evs: seq<Event>): seq<RawTile>
    decreases |evs|
  {
    if evs == [] then []
    else match evs[0]
      case Ask(q) =>
        var a := Serve(es, max, cost, k, Current(q, now));
        [a.tile] + WithCache(a.cache, max, cost, k, now, evs[1..])
      case Flush => WithCache([], max, cost, k, now, evs[1..])
      case Modify(f, ts) => WithCache(es, max, cost, k, Updated(now, f, ts), evs[1..])
  }

  /** The answers of decoding every request afresh. */
  function WithoutCache(k: Codec, now: string -> int, evs: seq<Event>): seq<RawTile>
    decreases |evs|
  {
    if evs == [] then []
    else match evs[0]
      case Ask(q) => [Fresh(k, Current(q, now))] + WithoutCache(k, now, evs[1..])
      case Flush => WithoutCache(k, now, evs[1..])
      case Modify(f, ts) => WithoutCache(k, Updated(now, f, ts), evs[1..])
  }

  /** Over every run, whatever is evicted, cleared or modified, the cache does not show. */
  lemma {:induction false} CacheNeverShows(es: Entries, max: nat, cost: CostOf, k: Codec, now: string -> int, evs: seq<Event>)
    requires Legal(evs, now) && Sound(es, k, now) && Ok(es, max)
    ensures WithCache(es, max, cost, k, now, evs) == WithoutCache(k, now, evs)
    decreases |evs|
  {
    hide Serve, Fresh, Genuine, PlainRequest;
    if evs != [] {
      match evs[0]
      case Ask(q) =>
        var q1 := Current(q, now);
        PlainNow(q, now);
        Transparent(es, max, cost, k, now, q1);
        CacheNeverShows(Serve(es, max, cost, k, q1).cache, max, cost, k, now, evs[1..]);
      case Flush =>
        CacheNeverShows([], max, cost, k, now, evs[1..]);
      case Modify(f, ts) =>
        CacheNeverShows(es, max, cost, k, Updated(now, f, ts), evs[1..]);
    }
  }

  lemma PlainNow(q: Request, now: string -> int)
    requires PlainRequest(q)
    ensures PlainRequest(Current(q, now))
  {
    assert TileIdOf(Current(q, now), q.compression, q.quality) == TileIdOf(q, q.compression, q.quality);
  }

  /******* The manager itself *******/

  class Manager {
    const cache: Cache
    const codec: Codec

    constructor (cache: Cache, codec: Codec)
      ensures this.cache == cache && this.codec == codec
    {
      this.cache, this.codec := cache, codec;
    }

    /** crop */
    method CropTile(t: RawTile, tw: nat, th: nat) returns (r: RawTile)
      requires NeedsCrop(t, tw, th) && SoundRaw(t, tw, th)
      ensures r == Cropped(t, tw, th)
    {
      var data := new int[|t.data|](i requires 0 <= i < |t.data| => t.data[i]);
      assert data[..] == t.data;
      var len := Crop(data, tw, th, t.width, t.height, t.channels);
      r := t.(data := data[..len], padded := false);
    }

    /** getNewTile: decodes, crops, compresses if the format allows, and stores the result. */
    method GetNewTile(q: Request) returns (r: RawTile)
      requires cache.Valid() && SoundCodec(codec)
      modifies cache
      ensures cache.Valid() && r == Fresh(codec, q) && InForm(codec, q, r)
      ensures cache.Entries() == Insert(old(cache.Entries()), cache.maxSize, NewEntry(r, cache.cost))
    {
      FreshIsInForm(codec, q);
      hide Scanlines, Lru.Insert, KeyOf, InForm;
      r := Raw(codec, q);
      var tw, th := codec.tileWidth(q.filename), codec.tileHeight(q.filename);
      if NeedsCrop(r, tw, th) {
        r := CropTile(r, tw, th);
      }
      if q.compression == UNCOMPRESSED {
        cache.Insert(r);
        return;
      }
      if CanCompress(r, q.compression) {
        r := Compressed(codec, r, q.compression, q.quality);
      }
      cache.Insert(r);
    }

    /** The look in the cache for an encoded tile, then for an uncompressed one. */
    method SearchCache(q: Request) returns (hit: Option<RawTile>)
      requires cache.Valid()
      modifies cache
      ensures cache.Valid() && Probe(hit, cache.Entries()) == Search(old(cache.Entries()), cache.maxSize, q)
    {
      hide GetIndex, Find, Touch;
      hit := None;
      match q.compression
      case UNCOMPRESSED => hit := cache.GetTile(TileIdOf(q, UNCOMPRESSED, 0));
      case DEFLATE =>
      case _ =>
        hit := cache.GetTile(TileIdOf(q, q.compression, q.quality));
        if hit.None? {
          hit := cache.GetTile(TileIdOf(q, UNCOMPRESSED, 0));
        }
    }

    /** getTile: whatever the cache holds, what Serve says, as long as the buffer of a hit has the
        size that cropping takes for granted; from a sound cache, the tile that decoding the image
        afresh would give. */
    method GetTile(q: Request, ghost now: string -> int) returns (r: RawTile)
      requires cache.Valid() && SoundCodec(codec) && CropSafe(cache.Entries(), cache.maxSize, codec, q)
      modifies cache
      ensures cache.Valid()
      ensures Answer(r, cache.Entries()) == Serve(old(cache.Entries()), cache.maxSize, cache.cost, codec, q)
      ensures Sound(old(cache.Entries()), codec, now) && PlainRequest(q) && q.timestamp == now(q.filename) ==>
        r == Fresh(codec, q) && InForm(codec, q, r) && Sound(cache.Entries(), codec, now)
    {
      FreshIsInForm(codec, q);
      hide Search, Lru.Insert, KeyOf, Fresh, InForm, Sound, PlainRequest, Scanlines, SoundCodec;
      ghost var es := cache.Entries();
      ValidIsOk(cache);
      if Sound(es, codec, now) && PlainRequest(q) && q.timestamp == now(q.filename) {
        Transparent(es, cache.maxSize, cache.cost, codec, now, q);
      }
      var hit := SearchCache(q);
      if hit.None? || hit.value.timestamp < q.timestamp {
        r := GetNewTile(q);
        return;
      }
      r := hit.value;
      if r.compressionType == UNCOMPRESSED && CanCompress(r, q.compression) {
        var tw, th := codec.tileWidth(q.filename), codec.tileHeight(q.filename);
        if NeedsCrop(r, tw, th) {
          r := CropTile(r, tw, th);
        }
        r := Compressed(codec, r, q.compression, q.quality);
        cache.Insert(r);
      }
    }
  }

  lemma ValidIsOk(c: Cache)
    requires c.Valid()
    ensures Ok(c.Entries(), c.maxSize)
  {
    IndexedUnique(c.tileList, c.tileMap, c.cost);
  }

  /** An uncompressed hit that is not stale can be cropped. */
  ghost predicate CropSafe(es: Entries, max: nat, k: Codec, q: Request) {
    var p := Search(es, max, q);
    p.hit.Some? && p.hit.value.timestamp >= q.timestamp && p.hit.value.compressionType == UNCOMPRESSED ==>
      SoundRaw(p.hit.value, k.tileWidth(q.filename), k.tileHeight(q.filename))
  }

  /** A sound cache is safe to crop from. */
  lemma HitIsSound(es: Entries, max: nat, k: Codec, now: string -> int, q: Request)
    requires Sound(es, k, now) && Ok(es, max) && q.timestamp == now(q.filename) && PlainRequest(q) && SoundCodec(k)
    ensures CropSafe(es, max, k, q)
  {
    hide Search, Sound, Ok, Scanlines;
    SearchSound(es, max, k, now, q);
    var u := q.(compression := UNCOMPRESSED, quality := 0);
    assert SoundTile(k.decode(q.filename, q.timestamp, q.resolution, q.tile, q.x, q.y),
                     k.tileWidth(q.filename), k.tileHeight(q.filename));
    assert SoundRaw(Fresh(k, u), k.tileWidth(q.filename), k.tileHeight(q.filename));
  }
}
