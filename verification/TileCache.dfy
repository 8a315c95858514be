/** The tile cache (src/Cache.h): a list of nodes in order of use, an index from keys to nodes, and
    a running total of what the nodes occupy. */
module TileCache {
  import opened Lru
  import opened CacheKey

  datatype CompressionType = UNCOMPRESSED | JPEG | DEFLATE | PNG

  /** One tile (src/RawTile.h); data holds its samples, or its bytes once it is compressed. */
  datatype RawTile = RawTile(tileNum: int, resolution: int, hSequence: int, vSequence: int,
                             compressionType: CompressionType, quality: int, filename: string, timestamp: int,
                             data: seq<int>, width: nat, height: nat, channels: nat, bpc: nat, padded: bool)

  function Code(c: CompressionType): int {
    match c case UNCOMPRESSED => 0 case JPEG => 1 case DEFLATE => 2 case PNG => 3
  }

  function IdOf(t: RawTile): TileId {
    TileId(t.filename, t.resolution, t.tileNum, t.hSequence, t.vSequence, Code(t.compressionType), t.quality)
  }

  function KeyOf(t: RawTile): string {
    GetIndex(IdOf(t))
  }

  /** What an entry occupies: the data, the strings and the fixed overhead, as one positive number. */
  type CostOf = (string, RawTile) -> Cost

  function NewEntry(t: RawTile, cost: CostOf): Entry<RawTile> {
    Entry(KeyOf(t), t.timestamp, cost(KeyOf(t), t), t)
  }

  /** A list node; the index refers to it as std::list iterators do. */
  class Node {
    const key: string
    const tile: RawTile

    constructor (key: string, tile: RawTile)
      ensures this.key == key && this.tile == tile
    {
      this.key, this.tile := key, tile;
    }
  }

  function EntryOf(n: Node, cost: CostOf): Entry<RawTile> {
    Entry(n.key, n.tile.timestamp, cost(n.key, n.tile), n.tile)
  }

  function EntriesOf(ns: seq<Node>, cost: CostOf): (es: seq<Entry<RawTile>>)
    ensures |es| == |ns| && forall i :: 0 <= i < |ns| ==> es[i] == EntryOf(ns[i], cost)
  {
    seq(|ns|, i requires 0 <= i < |ns| => EntryOf(ns[i], cost))
  }

  /** The list without the node n. */
  function Without(ns: seq<Node>, n: Node): (r: seq<Node>)
    ensures |r| <= |ns| && forall x :: x in r ==> x in ns
  {
    if ns == [] then [] else if ns[0] == n then ns[1..] else [ns[0]] + Without(ns[1..], n)
  }

  class Cache {
    const maxSize: nat
    const cost: CostOf
    var currentSize: nat
    var tileList: seq<Node>
    var tileMap: map<string, Node>

    constructor (maxSize: nat, cost: CostOf)
      ensures Valid() && Entries() == [] && this.maxSize == maxSize && this.cost == cost
    {
      this.maxSize, this.cost := maxSize, cost;
      currentSize, tileList, tileMap := 0, [], map[];
    }

    ghost predicate Valid()
      reads this
    {
      Indexed(tileList, tileMap) && currentSize == Total(Entries()) && currentSize <= maxSize
    }

    ghost function Entries(): (es: seq<Entry<RawTile>>)
      reads this
    {
      EntriesOf(tileList, cost)
    }

    method Clear()
      requires Valid()
      modifies this
      ensures Valid() && Entries() == []
    {
      tileList, tileMap, currentSize := [], map[], 0;
    }

    /** _touch: moves the node to the head of the list. */
    method TouchKey(key: string) returns (found: bool)
      requires Indexed(tileList, tileMap)
      modifies this`tileList
      ensures Indexed(tileList, tileMap) && found == (key in tileMap)
      ensures Entries() == Touch(old(Entries()), key)
    {
      hide Indexed;
      found := key in tileMap;
      Lookup(tileList, tileMap, cost, key);
      if found {
        var n := tileMap[key];
        Spliced(tileList, tileMap, cost, n);
        tileList := [n] + Without(tileList, n);
      }
    }

    /** _remove */
    method RemoveKey(key: string)
      requires Indexed(tileList, tileMap) && key in tileMap && currentSize == Total(Entries())
      modifies this
      ensures Indexed(tileList, tileMap) && key !in tileMap && currentSize == Total(Entries())
      ensures Entries() == Remove(old(Entries()), key)
    {
      hide Indexed, Total, Remove, Find, Unique;
      var n := tileMap[key];
      IndexedUnique(tileList, tileMap, cost);
      Lookup(tileList, tileMap, cost, key);
      Erased(tileList, tileMap, cost, n);
      RemoveFacts(Entries(), key);
      currentSize := currentSize - cost(n.key, n.tile);
      tileList := Without(tileList, n);
      tileMap := tileMap - {key};
    }

    /** Stores a tile unless an entry at least as recent has its key, and evicts from the back. */
    method Insert(r: RawTile)
      requires Valid()
      modifies this
      ensures Valid() && Entries() == Lru.Insert(old(Entries()), maxSize, NewEntry(r, cost))
      ensures var prior := Find(old(Entries()), KeyOf(r));
        maxSize > 0 && (prior.None? || prior.value.timestamp < r.timestamp) ==>
          LongestFitting([NewEntry(r, cost)] + Remove(old(Entries()), KeyOf(r)), maxSize, Entries())
    {
      hide Indexed, Total, Remove, Find, Unique, Fit, KeyOf, LongestFitting;
      if maxSize == 0 { return; }
      var key := KeyOf(r);
      ghost var es, e := Entries(), NewEntry(r, cost);
      IndexedUnique(tileList, tileMap, cost);
      Lookup(tileList, tileMap, cost, key);
      TouchTotal(es, key);
      var found := TouchKey(key);
      Lookup(tileList, tileMap, cost, key);
      ghost var kept := es;
      if found {
        TouchKeeps(es, maxSize, key);
        if !(tileMap[key].tile.timestamp < r.timestamp) { return; }
        RemoveFront(es, key);
        RemoveKey(key);
        kept := Remove(es, key);
      }
      var n := new Node(key, r);
      Pushed(tileList, tileMap, cost, n);
      PushTotal(e, kept);
      tileList := [n] + tileList;
      tileMap := tileMap[key := n];
      currentSize := currentSize + cost(key, r);
      Evict();
      InsertIs(es, maxSize, e);
    }

    /** The eviction loop of insert. */
    method Evict()
      requires Indexed(tileList, tileMap) && currentSize == Total(Entries())
      modifies this
      ensures Valid() && Entries() == Fit(old(Entries()), maxSize)
    {
      hide Indexed, Total, Remove, Find, Unique;
      while currentSize > maxSize
        invariant Indexed(tileList, tileMap) && currentSize == Total(Entries())
        invariant Fit(Entries(), maxSize) == Fit(old(Entries()), maxSize)
        decreases |tileList|
      {
        NonEmpty(Entries());
        var last := tileList[|tileList| - 1];
        IndexedUnique(tileList, tileMap, cost);
        NodeIndexed(tileList, tileMap, last);
        RemoveLast(Entries());
        RemoveKey(last.key);
      }
    }

    /** getTile: the tile for a key, which becomes the most recently used one. */
    method GetTile(id: TileId) returns (r: Option<RawTile>)
      requires Valid()
      modifies this
      ensures Valid()
      ensures if maxSize == 0 then r == None && Entries() == old(Entries())
              else Entries() == Touch(old(Entries()), GetIndex(id))
                   && r == (match Find(old(Entries()), GetIndex(id)) case None => None case Some(e) => Some(e.tile))
    {
      hide Indexed, GetIndex;
      if maxSize == 0 { return None; }
      var key := GetIndex(id);
      Lookup(tileList, tileMap, cost, key);
      if key !in tileMap { return None; }
      ghost var es := Entries();
      IndexedUnique(tileList, tileMap, cost);
      TouchKeeps(es, maxSize, key);
      TouchTotal(es, key);
      var found := TouchKey(key);
      return Some(tileMap[key].tile);
    }
  }

  /** The list and the index hold the same nodes, each key once. */
  ghost predicate Indexed(ns: seq<Node>, m: map<string, Node>) {
    && (forall n :: n in ns ==> n.key in m && m[n.key] == n)
    && (forall k :: k in m ==> m[k] in ns && m[k].key == k)
    && (forall i, j :: 0 <= i < j < |ns| ==> ns[i] != ns[j])
  }

  lemma IndexedUnique(ns: seq<Node>, m: map<string, Node>, cost: CostOf)
    requires Indexed(ns, m)
    ensures Unique(EntriesOf(ns, cost))
    ensures forall i, j :: 0 <= i < j < |ns| ==> ns[i] != ns[j] && ns[i].key != ns[j].key
  {
    forall i, j | 0 <= i < j < |ns| ensures ns[i].key != ns[j].key {
      assert ns[i] in ns && ns[j] in ns;
    }
  }

  /** The index finds what a search of the list would find. */
  lemma Lookup(ns: seq<Node>, m: map<string, Node>, cost: CostOf, key: string)
    requires Indexed(ns, m)
    ensures Find(EntriesOf(ns, cost), key) == if key in m then Some(EntryOf(m[key], cost)) else None
    ensures key in m ==> m[key] in ns && m[key].key == key
  {
    var es := EntriesOf(ns, cost);
    if key in m {
      IndexedUnique(ns, m, cost);
      var i :| 0 <= i < |ns| && ns[i] == m[key];
      assert es[i] in es;
      FindUnique(es, es[i]);
    } else {
      assert forall e :: e in es ==> e.key in m;
    }
  }

  lemma Spliced(ns: seq<Node>, m: map<string, Node>, cost: CostOf, n: Node)
    requires Indexed(ns, m) && n in ns
    ensures Indexed([n] + Without(ns, n), m)
    ensures EntriesOf([n] + Without(ns, n), cost) == [EntryOf(n, cost)] + Remove(EntriesOf(ns, cost), n.key)
  {
    hide Without, EntriesOf;
    Erased(ns, m, cost, n);
    NodeIndexed(ns, m, n);
    Pushed(Without(ns, n), m - {n.key}, cost, n);
    assert (m - {n.key})[n.key := n] == m;
  }

  lemma Erased(ns: seq<Node>, m: map<string, Node>, cost: CostOf, n: Node)
    requires Indexed(ns, m) && n in ns
    ensures Indexed(Without(ns, n), m - {n.key})
    ensures EntriesOf(Without(ns, n), cost) == Remove(EntriesOf(ns, cost), n.key)
  {
    IndexedUnique(ns, m, cost);
    WithoutNode(ns, n, cost);
    WithoutMembers(ns, n);
  }

  lemma Pushed(ns: seq<Node>, m: map<string, Node>, cost: CostOf, n: Node)
    requires Indexed(ns, m) && n.key !in m
    ensures Indexed([n] + ns, m[n.key := n])
    ensures EntriesOf([n] + ns, cost) == [EntryOf(n, cost)] + EntriesOf(ns, cost)
  {
    forall i | 0 <= i < |ns| ensures ns[i] != n { assert ns[i] in ns; }
  }

  lemma NodeIndexed(ns: seq<Node>, m: map<string, Node>, n: Node)
    requires Indexed(ns, m) && n in ns
    ensures n.key in m && m[n.key] == n
  {
  }

  lemma NonEmpty<T>(es: seq<Entry<T>>)
    ensures Total(es) > 0 ==> es != []
  {
  }

  /** Touching a key and then removing it is removing it. */
  lemma RemoveFront<T>(es: seq<Entry<T>>, key: string)
    requires Find(es, key).Some?
    ensures Remove(Touch(es, key), key) == Remove(es, key)
  {
  }

  lemma PushTotal<T>(e: Entry<T>, es: seq<Entry<T>>)
    ensures Total([e] + es) == e.cost + Total(es)
  {
    TotalConcat([e], es);
    TotalOne(e);
  }

  lemma {:induction false} RemoveLast<T>(es: seq<Entry<T>>)
    requires Unique(es) && es != []
    ensures Remove(es, es[|es| - 1].key) == es[..|es| - 1]
  {
    if |es| > 1 {
      assert Unique(es[1..]);
      RemoveLast(es[1..]);
      assert [es[0]] + es[1..][..|es| - 2] == es[..|es| - 1];
    }
  }

  lemma TouchTotal<T>(es: seq<Entry<T>>, key: string)
    requires Unique(es)
    ensures Total(Touch(es, key)) == Total(es)
  {
    RemoveFacts(es, key);
    match Find(es, key)
    case None =>
    case Some(e) =>
      TotalConcat([e], Remove(es, key));
      TotalOne(e);
  }

  /** Unlinking a node removes the entry with its key. */
  lemma {:induction false} WithoutNode(ns: seq<Node>, n: Node, cost: CostOf)
    requires n in ns && forall i, j :: 0 <= i < j < |ns| ==> ns[i] != ns[j] && ns[i].key != ns[j].key
    ensures EntriesOf(Without(ns, n), cost) == Remove(EntriesOf(ns, cost), n.key)
  {
    var es := EntriesOf(ns, cost);
    assert es[1..] == EntriesOf(ns[1..], cost);
    if ns[0] != n {
      assert ns[0].key != n.key by { var i :| 0 <= i < |ns| && ns[i] == n; }
      WithoutNode(ns[1..], n, cost);
      var r := Without(ns[1..], n);
      assert EntriesOf([ns[0]] + r, cost) == [EntryOf(ns[0], cost)] + EntriesOf(r, cost);
    }
  }

  lemma {:induction false} WithoutMembers(ns: seq<Node>, n: Node)
    requires n in ns && forall i, j :: 0 <= i < j < |ns| ==> ns[i] != ns[j]
    ensures forall i, j :: 0 <= i < j < |Without(ns, n)| ==> Without(ns, n)[i] != Without(ns, n)[j]
    ensures forall x :: x in Without(ns, n) <==> x in ns && x != n
  {
    assert ns == [ns[0]] + ns[1..];
    if ns[0] == n {
      assert forall i :: 0 < i < |ns| ==> ns[i] != n;
    } else {
      WithoutMembers(ns[1..], n);
      var r := Without(ns[1..], n);
      forall i | 0 <= i < |r| ensures r[i] != ns[0] { assert r[i] in r; }
    }
  }
}
