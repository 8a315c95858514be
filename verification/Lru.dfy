/** The replacement policy of the tile cache (src/Cache.h) as functions on the list of its entries,
    most recently used first. */
module Lru {

  type Cost = x: int | x > 0 witness 1

  datatype Option<T> = None | Some(value: T)

  /** A cached tile: its key, its timestamp, what it occupies, and the tile. */
  datatype Entry<T> = Entry(key: string, timestamp: int, cost: Cost, tile: T)

  ghost predicate Unique<T>(es: seq<Entry<T>>) {
    forall i, j :: 0 <= i < j < |es| ==> es[i].key != es[j].key
  }

  function Find<T>(es: seq<Entry<T>>, key: string): (r: Option<Entry<T>>)
    ensures r.Some? ==> r.value in es && r.value.key == key
    ensures r.None? ==> forall e :: e in es ==> e.key != key
  {
    if es == [] then None else if es[0].key == key then Some(es[0]) else Find(es[1..], key)
  }

  function Remove<T>(es: seq<Entry<T>>, key: string): (r: seq<Entry<T>>)
    ensures |r| <= |es| && forall e :: e in r ==> e in es
  {
    if es == [] then [] else if es[0].key == key then es[1..] else [es[0]] + Remove(es[1..], key)
  }

  /** Moves the entry for key to the front. */
  function Touch<T>(es: seq<Entry<T>>, key: string): seq<Entry<T>> {
    match Find(es, key)
    case None => es
    case Some(e) => [e] + Remove(es, key)
  }

  function Total<T>(es: seq<Entry<T>>): nat {
    if es == [] then 0 else es[0].cost + Total(es[1..])
  }

  /** Drops entries from the back until the rest fits. */
  function Fit<T>(es: seq<Entry<T>>, max: nat): (r: seq<Entry<T>>)
    ensures r <= es && Total(r) <= max
    decreases |es|
  {
    if Total(es) <= max then es else Fit(es[..|es| - 1], max)
  }

  function Insert<T>(es: seq<Entry<T>>, max: nat, e: Entry<T>): seq<Entry<T>> {
    if max == 0 then es
    else match Find(es, e.key)
      case None => Fit([e] + es, max)
      case Some(prior) =>
        if prior.timestamp < e.timestamp then Fit([e] + Remove(es, e.key), max) else Touch(es, e.key)
  }

  /******* Totals *******/

  lemma {:induction false} TotalConcat<T>(a: seq<Entry<T>>, b: seq<Entry<T>>)
    ensures Total(a + b) == Total(a) + Total(b)
  {
    if a == [] {
      assert a + b == b;
    } else {
      TotalConcat(a[1..], b);
      assert (a + b)[1..] == a[1..] + b;
    }
  }

  /** The entries kept are the longest prefix that fits. */
  lemma {:induction false} FitIsLongest<T>(es: seq<Entry<T>>, max: nat, k: nat)
    requires |Fit(es, max)| < k <= |es|
    ensures Total(es[..k]) > max
    decreases |es|
  {
    var shorter := es[..|es| - 1];
    if k == |es| {
      assert es[..k] == es;
    } else {
      FitIsLongest(shorter, max, k);
      assert shorter[..k] == es[..k];
    }
  }

  /** kept is what is left of l when as much as fits is kept, in order of use. */
  ghost predicate LongestFitting<T>(l: seq<Entry<T>>, max: nat, kept: seq<Entry<T>>) {
    kept <= l && Total(kept) <= max && forall k :: |kept| < k <= |l| ==> Total(l[..k]) > max
  }

  lemma FitIs<T>(es: seq<Entry<T>>, max: nat)
    ensures LongestFitting(es, max, Fit(es, max))
  {
    forall k | |Fit(es, max)| < k <= |es| ensures Total(es[..k]) > max { FitIsLongest(es, max, k); }
  }

  lemma {:induction false} RemoveNothing<T>(es: seq<Entry<T>>, key: string)
    requires Find(es, key).None?
    ensures Remove(es, key) == es
  {
    if es != [] { RemoveNothing(es[1..], key); }
  }

  /** An insertion puts the tile before all others and keeps as many of them as fit. Only a tile under its
      own key goes, if that is older; if it is not, it is used, and stays with all the others. */
  lemma InsertIs<T>(es: seq<Entry<T>>, max: nat, e: Entry<T>)
    requires max > 0
    ensures var prior := Find(es, e.key);
      if prior.None? || prior.value.timestamp < e.timestamp
      then LongestFitting([e] + Remove(es, e.key), max, Insert(es, max, e))
      else Insert(es, max, e) == [prior.value] + Remove(es, e.key)
  {
    hide Find, Remove, Fit, LongestFitting;
    if Find(es, e.key).None? { RemoveNothing(es, e.key); }
    FitIs([e] + Remove(es, e.key), max);
  }

  /** A tile that does not fit alone clears the cache, itself included, unless a tile at least as new
      is resident under its key; then only that one is touched. */
  lemma OversizedClears<T>(es: seq<Entry<T>>, max: nat, e: Entry<T>)
    requires max > 0 && e.cost > max
    ensures var prior := Find(es, e.key);
      Insert(es, max, e) == if prior.Some? && prior.value.timestamp >= e.timestamp then Touch(es, e.key) else []
  {
    FitOversized(es, max, e);
    FitOversized(Remove(es, e.key), max, e);
  }

  lemma FitOversized<T>(es: seq<Entry<T>>, max: nat, e: Entry<T>)
    requires e.cost > max
    ensures Fit([e] + es, max) == []
  {
    var r := Fit([e] + es, max);
    assert r <= [e] + es;
  }

  /******* Keys *******/

  lemma {:induction false} RemoveFacts<T>(es: seq<Entry<T>>, key: string)
    requires Unique(es)
    ensures Unique(Remove(es, key))
    ensures forall e :: e in Remove(es, key) ==> e in es && e.key != key
    ensures forall e :: e in es && e.key != key ==> e in Remove(es, key)
    ensures Total(es) == Total(Remove(es, key)) + (match Find(es, key) case Some(e) => e.cost as int case None => 0)
  {
    if es != [] {
      assert Unique(es[1..]);
      RemoveFacts(es[1..], key);
      assert forall e :: e in es[1..] ==> e.key != es[0].key;
      if es[0].key != key {
        var r := Remove(es[1..], key);
        assert forall i :: 0 <= i < |r| ==> r[i] in es[1..];
      }
    }
  }

  lemma {:induction false} FindUnique<T>(es: seq<Entry<T>>, e: Entry<T>)
    requires Unique(es) && e in es
    ensures Find(es, e.key) == Some(e)
  {
    if es[0].key != e.key {
      assert e in es[1..];
      FindUnique(es[1..], e);
    } else {
      var i :| 0 <= i < |es| && es[i] == e;
      assert i == 0;
    }
  }

  /** What every operation keeps: distinct keys, and no more than max in all. */
  ghost predicate Ok<T>(es: seq<Entry<T>>, max: nat) {
    Unique(es) && Total(es) <= max
  }

  lemma TouchKeeps<T>(es: seq<Entry<T>>, max: nat, key: string)
    requires Ok(es, max)
    ensures Ok(Touch(es, key), max) && Find(Touch(es, key), key) == Find(es, key)
    ensures forall e :: e in Touch(es, key) <==> e in es
  {
    hide Total, Remove, Find;
    RemoveFacts(es, key);
    match Find(es, key)
    case None =>
    case Some(e) =>
      var r := Remove(es, key);
      TotalConcat([e], r);
      TotalOne(e);
      forall x | x in es ensures x in [e] + r {
        if x.key == key { FindUnique(es, x); }
      }
      assert forall i :: 0 <= i < |r| ==> r[i] in r;
      FindFront(e, r);
  }

  lemma FindFront<T>(e: Entry<T>, r: seq<Entry<T>>)
    ensures Find([e] + r, e.key) == Some(e)
  {
  }

  lemma TotalOne<T>(e: Entry<T>)
    ensures Total([e]) == e.cost
  {
    assert [e][1..] == [];
  }

  lemma UniquePrefix<T>(p: seq<Entry<T>>, es: seq<Entry<T>>)
    requires Unique(es) && p <= es
    ensures Unique(p)
  {
  }

  lemma PushKeeps<T>(es: seq<Entry<T>>, max: nat, e: Entry<T>)
    requires Unique(es) && forall x :: x in es ==> x.key != e.key
    ensures Ok(Fit([e] + es, max), max)
    ensures forall x :: x in Fit([e] + es, max) ==> x in es || x == e
  {
    hide Total;
    assert forall i :: 0 <= i < |es| ==> es[i] in es;
    UniquePrefix(Fit([e] + es, max), [e] + es);
  }

  lemma InsertKeeps<T>(es: seq<Entry<T>>, max: nat, e: Entry<T>)
    requires Ok(es, max)
    ensures Ok(Insert(es, max, e), max)
    ensures forall x :: x in Insert(es, max, e) ==> x in es || x == e
  {
    hide Total, Fit, Remove, Find;
    if max > 0 {
      match Find(es, e.key)
      case None => PushKeeps(es, max, e);
      case Some(prior) =>
        TouchKeeps(es, max, e.key);
        RemoveFacts(es, e.key);
        PushKeeps(Remove(es, e.key), max, e);
        forall x | x in Insert(es, max, e) ensures x in es || x == e {
          if prior.timestamp < e.timestamp {
            assert x in Remove(es, e.key) || x == e;
            assert x in Remove(es, e.key) ==> x in es;
          } else {
            assert x in Touch(es, e.key);
            assert x in es;
          }
        }
    }
  }

  /** While a key stays in the cache its timestamp never goes back. */
  lemma TimestampsNeverGoBack<T>(es: seq<Entry<T>>, max: nat, e: Entry<T>, key: string)
    requires Ok(es, max) && Find(es, key).Some? && Find(Insert(es, max, e), key).Some?
    ensures Find(es, key).value.timestamp <= Find(Insert(es, max, e), key).value.timestamp
  {
    InsertKeeps(es, max, e);
    var after := Find(Insert(es, max, e), key).value;
    if after != e {
      FindUnique(es, after);
    } else if Find(es, key).value != e {
      TouchKeeps(es, max, e.key);
    }
  }

  /******* Whole runs *******/

  datatype Op<T> = Store(entry: Entry<T>) | Fetch(key: string) | Clear

  function Apply<T>(es: seq<Entry<T>>, max: nat, op: Op<T>): seq<Entry<T>> {
    match op
    case Store(e) => Insert(es, max, e)
    case Fetch(key) => if max == 0 then es else Touch(es, key)
    case Clear => []
  }

  function Run<T>(max: nat, ops: seq<Op<T>>): seq<Entry<T>> {
    if ops == [] then [] else Apply(Run(max, ops[..|ops| - 1]), max, ops[|ops| - 1])
  }

  predicate Uses<T>(op: Op<T>, key: string) {
    (op.Store? && op.entry.key == key) || (op.Fetch? && op.key == key)
  }

  /** The number of the last operation that used key, counted from 1; 0 if none did. */
  function LastUse<T>(ops: seq<Op<T>>, key: string): (n: nat)
    ensures n <= |ops|
  {
    if ops == [] then 0
    else if Uses(ops[|ops| - 1], key) then |ops|
    else LastUse(ops[..|ops| - 1], key)
  }

  /** Most recently used first, strictly. */
  ghost predicate ByLastUse<T>(es: seq<Entry<T>>, ops: seq<Op<T>>) {
    && (forall i :: 0 <= i < |es| ==> LastUse(ops, es[i].key) > 0)
    && (forall i, j :: 0 <= i < j < |es| ==> LastUse(ops, es[i].key) > LastUse(ops, es[j].key))
  }

  lemma {:induction false} RemoveKeepsOrder<T>(es: seq<Entry<T>>, key: string, ops: seq<Op<T>>)
    requires ByLastUse(es, ops)
    ensures ByLastUse(Remove(es, key), ops)
  {
    if es != [] && es[0].key != key {
      var r := Remove(es[1..], key);
      assert ByLastUse(es[1..], ops);
      RemoveKeepsOrder(es[1..], key, ops);
      forall i | 0 <= i < |r| ensures LastUse(ops, es[0].key) > LastUse(ops, r[i].key) {
        assert r[i] in es[1..];
      }
    }
  }

  /** Using e's key puts e in front of entries with other keys. */
  lemma FrontIsLatest<T>(es: seq<Entry<T>>, e: Entry<T>, ops: seq<Op<T>>, op: Op<T>)
    requires ByLastUse(es, ops) && Uses(op, e.key) && forall x :: x in es ==> x.key != e.key
    ensures ByLastUse([e] + es, ops + [op])
  {
    assert (ops + [op])[..|ops|] == ops;
    forall i | 0 <= i < |es| ensures LastUse(ops + [op], es[i].key) == LastUse(ops, es[i].key) <= |ops| {
      assert es[i] in es;
    }
  }

  lemma OthersKeepOrder<T>(es: seq<Entry<T>>, ops: seq<Op<T>>, op: Op<T>)
    requires ByLastUse(es, ops) && forall x :: x in es ==> !Uses(op, x.key)
    ensures ByLastUse(es, ops + [op])
  {
    assert (ops + [op])[..|ops|] == ops;
    forall i | 0 <= i < |es| ensures LastUse(ops + [op], es[i].key) == LastUse(ops, es[i].key) {
      assert es[i] in es;
    }
  }

  lemma PrefixKeepsOrder<T>(p: seq<Entry<T>>, es: seq<Entry<T>>, ops: seq<Op<T>>)
    requires ByLastUse(es, ops) && p <= es
    ensures ByLastUse(p, ops)
  {
  }

  lemma UseKeepsOrder<T>(es: seq<Entry<T>>, max: nat, ops: seq<Op<T>>, op: Op<T>)
    requires Ok(es, max) && ByLastUse(es, ops) && (max == 0 ==> es == [])
    ensures ByLastUse(Apply(es, max, op), ops + [op])
  {
    hide Total, Fit, Remove, Find, LastUse, ByLastUse;
    match op
    case Clear => EmptyOrdered<T>(ops + [op]);
    case Fetch(key) =>
      if max > 0 && Find(es, key).Some? {
        RemoveFacts(es, key);
        RemoveKeepsOrder(es, key, ops);
        FrontIsLatest(Remove(es, key), Find(es, key).value, ops, op);
      } else {
        OthersKeepOrder(es, ops, op);
      }
    case Store(e) =>
      if max == 0 {
        EmptyOrdered<T>(ops + [op]);
      } else if Find(es, e.key).Some? {
        RemoveFacts(es, e.key);
        RemoveKeepsOrder(es, e.key, ops);
        FrontIsLatest(Remove(es, e.key), Find(es, e.key).value, ops, op);
        FrontIsLatest(Remove(es, e.key), e, ops, op);
        PrefixKeepsOrder(Fit([e] + Remove(es, e.key), max), [e] + Remove(es, e.key), ops + [op]);
      } else {
        FrontIsLatest(es, e, ops, op);
        PrefixKeepsOrder(Fit([e] + es, max), [e] + es, ops + [op]);
      }
  }

  lemma EmptyOrdered<T>(ops: seq<Op<T>>)
    ensures ByLastUse<T>([], ops)
  {
  }

  /** After every run the cache is within its bound, free of duplicates, and in strict order of
      last use; with FitIsLongest this fixes what each insertion keeps. */
  lemma {:induction false} EveryRun<T>(max: nat, ops: seq<Op<T>>)
    ensures Ok(Run(max, ops), max) && ByLastUse(Run(max, ops), ops) && (max == 0 ==> Run(max, ops) == [])
  {
    if ops != [] {
      var before, op := ops[..|ops| - 1], ops[|ops| - 1];
      assert ops == before + [op];
      EveryRun(max, before);
      ApplyKeeps(Run(max, before), max, op);
      UseKeepsOrder(Run(max, before), max, before, op);
    }
  }

  lemma ApplyKeeps<T>(es: seq<Entry<T>>, max: nat, op: Op<T>)
    requires Ok(es, max)
    ensures Ok(Apply(es, max, op), max)
  {
    match op
    case Store(e) => InsertKeeps(es, max, e);
    case Fetch(key) => TouchKeeps(es, max, key);
    case Clear =>
  }

  /** After every run, an insertion evicts only tiles that were used before all the tiles it keeps. */
  lemma EvictedIsOldest<T>(max: nat, ops: seq<Op<T>>, e: Entry<T>, x: Entry<T>, y: Entry<T>)
    requires var after := Run(max, ops + [Store(e)]);
      x in after && y in Run(max, ops) && y.key != e.key && y !in after
    ensures var all := ops + [Store(e)]; LastUse(all, x.key) > LastUse(all, y.key)
  {
    hide Find, Remove, Fit, Total, LastUse;
    var es, all := Run(max, ops), ops + [Store(e)];
    assert all[..|ops|] == ops;
    EveryRun(max, ops);
    InsertIs(es, max, e);
    RemoveFacts(es, e.key);
    RemoveKeepsOrder(es, e.key, ops);
    FrontIsLatest(Remove(es, e.key), e, ops, Store(e));
    BehindTheKept([e] + Remove(es, e.key), Run(max, all), all, x, y);
  }

  lemma BehindTheKept<T>(l: seq<Entry<T>>, kept: seq<Entry<T>>, ops: seq<Op<T>>, x: Entry<T>, y: Entry<T>)
    requires ByLastUse(l, ops) && kept <= l && x in kept && y in l && y !in kept
    ensures LastUse(ops, x.key) > LastUse(ops, y.key)
  {
    var i :| 0 <= i < |kept| && kept[i] == x;
    var j :| 0 <= j < |l| && l[j] == y;
    assert j >= |kept|;
  }
}
