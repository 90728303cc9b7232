/** The decorator utilities of `modern_python_demo/decorators.py`:
    `memoize_with_limit`, a bounded least-recently-used memoiser whose wrapper
    keeps a dictionary `cache` and a recency list `order`, and `with_metadata`,
    which copies keyword arguments onto an object as attributes. */
module Decorators {
  import opened PyList

  // ---------------------------------------------------------------------------
  // Keyword arguments and the memo key
  // ---------------------------------------------------------------------------

  /** Python's `<` on `str`: lexicographic by code point, a proper prefix first. */
  predicate StrLess(a: string, b: string)
    decreases |a|
  {
    if |a| == 0 then |b| > 0
    else if |b| == 0 then false
    else if a[0] != b[0] then a[0] < b[0]
    else StrLess(a[1..], b[1..])
  }

  lemma {:induction false} StrLessIrreflexive(a: string)
    ensures !StrLess(a, a)
  {
    if |a| > 0 {
      StrLessIrreflexive(a[1..]);
    }
  }

  lemma {:induction false} StrLessTransitive(a: string, b: string, c: string)
    requires StrLess(a, b) && StrLess(b, c)
    ensures StrLess(a, c)
    decreases |a|
  {
    if |a| > 0 && |b| > 0 && |c| > 0 && a[0] == b[0] && b[0] == c[0] {
      StrLessTransitive(a[1..], b[1..], c[1..]);
    }
  }

  lemma {:induction false} StrLessTotal(a: string, b: string)
    requires a != b
    ensures StrLess(a, b) || StrLess(b, a)
    decreases |a|
  {
    if |a| > 0 && |b| > 0 && a[0] == b[0] {
      assert a == [a[0]] + a[1..] && b == [b[0]] + b[1..];
      StrLessTotal(a[1..], b[1..]);
    }
  }

  /** No keyword is given twice (Python's call syntax guarantees it). */
  predicate DistinctNames<V>(kw: seq<(string, V)>) {
    forall i, j :: 0 <= i < j < |kw| ==> kw[i].0 != kw[j].0
  }

  /** Strictly ascending by keyword name. */
  predicate SortedByName<V>(kw: seq<(string, V)>) {
    forall i, j :: 0 <= i < j < |kw| ==> StrLess(kw[i].0, kw[j].0)
  }

  /** Insertion step of `sorted(kwargs.items())`; with distinct names Python's
      tuple comparison is decided by the names alone. */
  function Insert<V(==)>(item: (string, V), s: seq<(string, V)>): (r: seq<(string, V)>)
    ensures multiset(r) == multiset(s) + multiset{item}
  {
    if s == [] then [item]
    else if StrLess(s[0].0, item.0) then
      assert s == [s[0]] + s[1..];
      [s[0]] + Insert(item, s[1..])
    else [item] + s
  }

  /** `sorted(kwargs.items())`. */
  function SortByName<V(==)>(kw: seq<(string, V)>): (r: seq<(string, V)>)
    ensures multiset(r) == multiset(kw)
  {
    if kw == [] then []
    else
      assert kw == [kw[0]] + kw[1..];
      Insert(kw[0], SortByName(kw[1..]))
  }

  /** A name below every name of an ascending list can go in front of it. */
  lemma ConsSorted<V>(x: (string, V), t: seq<(string, V)>)
    requires SortedByName(t)
    requires forall k :: 0 <= k < |t| ==> StrLess(x.0, t[k].0)
    ensures SortedByName([x] + t)
  {
    var r := [x] + t;
    forall i, j | 0 <= i < j < |r| ensures StrLess(r[i].0, r[j].0) {
      assert r[j] == t[j - 1];
      if i > 0 {
        assert r[i] == t[i - 1];
      }
    }
  }

  /** The tail of an ascending list is ascending. */
  lemma SortedTail<V>(s: seq<(string, V)>)
    requires SortedByName(s) && s != []
    ensures SortedByName(s[1..])
  {
    var t := s[1..];
    forall i, j | 0 <= i < j < |t| ensures StrLess(t[i].0, t[j].0) {
      assert t[i] == s[i + 1] && t[j] == s[j + 1];
    }
  }

  /** The head of an ascending list is below every item after it. */
  lemma SortedHeadIsLeast<V>(s: seq<(string, V)>, x: (string, V))
    requires SortedByName(s) && s != [] && x in multiset(s[1..])
    ensures StrLess(s[0].0, x.0)
  {
    var k := IndexOf(s[1..], x);
    assert s[k + 1] == x;
  }

  /** A bound below the item and below every name of `s` stays below every
      name after the insertion. */
  lemma {:induction false} InsertBounded<V>(item: (string, V), s: seq<(string, V)>, lo: string)
    requires StrLess(lo, item.0)
    requires forall k :: 0 <= k < |s| ==> StrLess(lo, s[k].0)
    ensures forall k :: 0 <= k < |Insert(item, s)| ==> StrLess(lo, Insert(item, s)[k].0)
  {
    if s != [] && StrLess(s[0].0, item.0) {
      InsertBounded(item, s[1..], lo);
      var t := Insert(item, s[1..]);
      assert forall k :: 0 < k < |t| + 1 ==> ([s[0]] + t)[k] == t[k - 1];
    }
  }

  lemma {:induction false} InsertSorted<V>(item: (string, V), s: seq<(string, V)>)
    requires SortedByName(s)
    requires forall k :: 0 <= k < |s| ==> s[k].0 != item.0
    ensures SortedByName(Insert(item, s))
  {
    if s == [] {
    } else if StrLess(s[0].0, item.0) {
      SortedTail(s);
      forall k | 0 <= k < |s[1..]| ensures s[1..][k].0 != item.0 {
        assert s[1..][k] == s[k + 1];
      }
      InsertSorted(item, s[1..]);
      forall k | 0 <= k < |s[1..]| ensures StrLess(s[0].0, s[1..][k].0) {
        assert s[1..][k] == s[k + 1];
      }
      InsertBounded(item, s[1..], s[0].0);
      ConsSorted(s[0], Insert(item, s[1..]));
    } else {
      StrLessTotal(s[0].0, item.0);
      forall k | 0 <= k < |s| ensures StrLess(item.0, s[k].0) {
        if k > 0 {
          StrLessTransitive(item.0, s[0].0, s[k].0);
        }
      }
      ConsSorted(item, s);
    }
  }

  /** With distinct keyword names, `sorted` yields a strictly ascending list. */
  lemma {:induction false} SortByNameSorted<V>(kw: seq<(string, V)>)
    requires DistinctNames(kw)
    ensures SortedByName(SortByName(kw))
  {
    if kw != [] {
      var rest := kw[1..];
      assert DistinctNames(rest) by {
        forall i, j | 0 <= i < j < |rest| ensures rest[i].0 != rest[j].0 {
          assert rest[i] == kw[i + 1] && rest[j] == kw[j + 1];
        }
      }
      SortByNameSorted(rest);
      var t := SortByName(rest);
      forall k | 0 <= k < |t| ensures t[k].0 != kw[0].0 {
        assert t[k] in multiset(rest);
        var m := IndexOf(rest, t[k]);
        assert kw[m + 1] == t[k];
      }
      InsertSorted(kw[0], t);
    }
  }

  /** Two strictly ascending lists holding the same items are equal: the order
      in which keywords were written cannot show in the sorted list. */
  lemma {:induction false} SortedUnique<V>(a: seq<(string, V)>, b: seq<(string, V)>)
    requires SortedByName(a) && SortedByName(b)
    requires multiset(a) == multiset(b)
    ensures a == b
  {
    if a != [] {
      SortedSameHead(a, b);
      MultisetTail(a);
      MultisetTail(b);
      SortedTail(a);
      SortedTail(b);
      SortedUnique(a[1..], b[1..]);
      assert a == [a[0]] + a[1..] && b == [b[0]] + b[1..];
    }
  }

  /** Ascending lists with the same items start with the same item. */
  lemma SortedSameHead<V>(a: seq<(string, V)>, b: seq<(string, V)>)
    requires SortedByName(a) && SortedByName(b) && multiset(a) == multiset(b) && a != []
    ensures b != [] && a[0] == b[0]
  {
    assert |multiset(a)| == |a| && |multiset(b)| == |b|;
    assert a[0] in multiset(b) && b[0] in multiset(a);
    MultisetTail(a);
    MultisetTail(b);
    if a[0] != b[0] {
      SortedHeadIsLeast(a, b[0]);
      SortedHeadIsLeast(b, a[0]);
      StrLessTransitive(a[0].0, b[0].0, a[0].0);
      StrLessIrreflexive(a[0].0);
      assert false;
    }
  }

  /** The memo key: `(args, tuple(sorted(kwargs.items())))`. */
  datatype CallKey<V> = CallKey(args: seq<V>, kwargs: seq<(string, V)>)

  function MakeKey<V(==)>(args: seq<V>, kwargs: seq<(string, V)>): (k: CallKey<V>)
    ensures k.args == args && multiset(k.kwargs) == multiset(kwargs)
  {
    CallKey(args, SortByName(kwargs))
  }

  /** Two calls share a key exactly when they pass the same positional
      arguments and the same keyword items, in whatever order. */
  lemma SameKeyIff<V>(a1: seq<V>, kw1: seq<(string, V)>, a2: seq<V>, kw2: seq<(string, V)>)
    requires DistinctNames(kw1) && DistinctNames(kw2)
    ensures MakeKey(a1, kw1) == MakeKey(a2, kw2) <==> a1 == a2 && multiset(kw1) == multiset(kw2)
  {
    if a1 == a2 && multiset(kw1) == multiset(kw2) {
      SortByNameSorted(kw1);
      SortByNameSorted(kw2);
      SortedUnique(SortByName(kw1), SortByName(kw2));
    }
  }

  /** `add(1, 2)` and `add(1, b=2)` are different entries. */
  lemma PositionalAndKeywordKeysDiffer()
    ensures MakeKey([1, 2], []) != MakeKey([1], [("b", 2)])
  {
  }

  /** The mapping a function receives as `**kwargs` (and, for `with_metadata`,
      the attributes `setattr` installs): later items win. */
  function ItemsToMap<V>(items: seq<(string, V)>): (r: map<string, V>) {
    if items == [] then map[]
    else ItemsToMap(items[..|items| - 1])[items[|items| - 1].0 := items[|items| - 1].1]
  }

  /** With distinct names, each item is found under its name and nothing else is. */
  lemma {:induction false} ItemsToMapLookup<V>(items: seq<(string, V)>)
    requires DistinctNames(items)
    ensures forall i :: 0 <= i < |items| ==>
      items[i].0 in ItemsToMap(items) && ItemsToMap(items)[items[i].0] == items[i].1
    ensures forall n :: n in ItemsToMap(items) ==> exists i :: 0 <= i < |items| && items[i].0 == n
  {
    if items != [] {
      var init := items[..|items| - 1];
      assert DistinctNames(init) by {
        forall i, j | 0 <= i < j < |init| ensures init[i].0 != init[j].0 {
          assert init[i] == items[i] && init[j] == items[j];
        }
      }
      ItemsToMapLookup(init);
      forall n | n in ItemsToMap(items) ensures exists i :: 0 <= i < |items| && items[i].0 == n {
        if n != items[|items| - 1].0 {
          assert n in ItemsToMap(init);
          var i :| 0 <= i < |init| && init[i].0 == n;
          assert items[i] == init[i];
        }
      }
    }
  }

  /** Keyword lists holding the same items give the function the same mapping. */
  lemma SameItemsSameMap<V>(kw1: seq<(string, V)>, kw2: seq<(string, V)>)
    requires DistinctNames(kw1) && DistinctNames(kw2)
    requires multiset(kw1) == multiset(kw2)
    ensures ItemsToMap(kw1) == ItemsToMap(kw2)
  {
    ItemsToMapLookup(kw1);
    ItemsToMapLookup(kw2);
    var m1, m2 := ItemsToMap(kw1), ItemsToMap(kw2);
    forall n | n in m1 ensures n in m2 && m2[n] == m1[n] {
      var i :| 0 <= i < |kw1| && kw1[i].0 == n;
      assert kw1[i] in multiset(kw2);
      var j :| 0 <= j < |kw2| && kw2[j] == kw1[i];
    }
    forall n | n in m2 ensures n in m1 {
      var j :| 0 <= j < |kw2| && kw2[j].0 == n;
      assert kw2[j] in multiset(kw1);
      var i :| 0 <= i < |kw1| && kw1[i] == kw2[j];
    }
  }

  /** Sorting the keywords does not change the mapping the function receives. */
  lemma SortKeepsMap<V>(kw: seq<(string, V)>)
    requires DistinctNames(kw)
    ensures ItemsToMap(SortByName(kw)) == ItemsToMap(kw)
  {
    SortByNameSorted(kw);
    var s := SortByName(kw);
    forall i, j | 0 <= i < j < |s| ensures s[i].0 != s[j].0 {
      StrLessIrreflexive(s[i].0);
    }
    SameItemsSameMap(s, kw);
  }

  // ---------------------------------------------------------------------------
  // The least-recently-used bookkeeping, as transitions on (cache, order)
  // ---------------------------------------------------------------------------

  /** The closure state of one decorated function: the `cache` dict and the
      `order` list, least recently used first. */
  datatype Lru<K, R> = Lru(cache: map<K, R>, order: seq<K>)

  /** How many entries survive a call: `maxsize`, or none when it is negative. */
  function Capacity(maxsize: int): (r: nat) {
    if maxsize < 0 then 0 else maxsize
  }

  /** The keys of `cache` are the elements of `order`, `order` has no
      duplicates, and the size stays within the limit. */
  ghost predicate LruInv<K, R>(s: Lru<K, R>, maxsize: int) {
    && s.cache.Keys == (set k | k in s.order)
    && NoDup(s.order)
    && |s.order| <= Capacity(maxsize)
  }

  /** A hit: `order.remove(key); order.append(key)`. */
  function Touch<K(==), R>(s: Lru<K, R>, key: K): (r: Lru<K, R>)
    requires key in s.order
  {
    Lru(s.cache, RemoveFirst(s.order, key) + [key])
  }

  /** A miss: `cache[key] = result; order.append(key)`, then, if `order`
      outgrew `maxsize`, `del cache[order.pop(0)]`. */
  function Admit<K(==), R>(s: Lru<K, R>, key: K, value: R, maxsize: int): (r: Lru<K, R>) {
    var o := s.order + [key];
    var c := s.cache[key := value];
    if |o| > maxsize then Lru(c - {o[0]}, o[1..]) else Lru(c, o)
  }

  /** The dictionary and the list always have the same length. */
  lemma SizesAgree<K, R>(s: Lru<K, R>, maxsize: int)
    requires LruInv(s, maxsize)
    ensures |s.cache| == |s.order|
  {
    NoDupCard(s.order);
    assert |s.cache| == |s.cache.Keys|;
  }

  /** Appending an absent element keeps a list free of duplicates. */
  lemma AppendFreshNoDup<K>(s: seq<K>, key: K)
    requires NoDup(s) && key !in s
    ensures NoDup(s + [key])
  {
    var o := s + [key];
    forall i, j | 0 <= i < j < |o| ensures o[i] != o[j] {
      assert o[i] == s[i];
      if j < |s| {
        assert o[j] == s[j];
      }
    }
  }

  /** A hit keeps the invariant and every cached value, moves its key to the
      back, and leaves the relative order of all other keys as it was. */
  lemma TouchKeepsInvariant<K, R>(s: Lru<K, R>, key: K, maxsize: int)
    requires LruInv(s, maxsize) && key in s.cache
    ensures key in s.order
    ensures LruInv(Touch(s, key), maxsize)
    ensures Touch(s, key).cache == s.cache
    ensures Touch(s, key).order[|s.order| - 1] == key
    ensures Without(Touch(s, key).order, key) == Without(s.order, key)
  {
    assert key in (set k | k in s.order);
    var rest := RemoveFirst(s.order, key);
    RemoveFirstNoDup(s.order, key);
    assert key !in rest by {
      WithoutCount(s.order, key);
      assert multiset(rest)[key] == 0;
    }
    AppendFreshNoDup(rest, key);
    TouchSameKeys(s.order, key);
    WithoutAppend(rest, [key], key);
    WithoutAbsent(rest, key);
  }

  lemma TouchSameKeys<K>(order: seq<K>, key: K)
    requires key in order
    ensures (set k | k in RemoveFirst(order, key) + [key]) == (set k | k in order)
  {
    var rest := RemoveFirst(order, key);
    RemoveFirstCount(order, key);
    var o := rest + [key];
    forall k | k in o ensures k in order {
      if k != key {
        assert k in rest;
        assert multiset(rest)[k] > 0;
        assert multiset(order)[k] > 0;
      }
    }
    forall k | k in order ensures k in o {
      if k != key {
        assert multiset(order)[k] > 0;
        assert multiset(rest)[k] > 0;
        assert k in rest;
      }
    }
  }

  /** A miss keeps the invariant. */
  lemma AdmitKeepsInvariant<K, R>(s: Lru<K, R>, key: K, value: R, maxsize: int)
    requires LruInv(s, maxsize) && key !in s.cache
    ensures LruInv(Admit(s, key, value, maxsize), maxsize)
  {
    var o := s.order + [key];
    assert key !in s.order by {
      assert key !in (set k | k in s.order);
    }
    AppendFreshNoDup(s.order, key);
    if |o| > maxsize {
      var t := o[1..];
      assert NoDup(t) && o[0] !in t by {
        NoDupTail(o);
      }
      assert (set k | k in t) == (set k | k in o) - {o[0]} by {
        assert o == [o[0]] + t;
      }
    }
  }

  /** On an overflowing miss exactly the front key leaves, from both the list
      and the dictionary; with `maxsize >= 1` the new key survives. Without
      overflow the new key simply joins at the back. */
  lemma AdmitEvicts<K, R>(s: Lru<K, R>, key: K, value: R, maxsize: int)
    requires LruInv(s, maxsize) && key !in s.cache
    ensures var o := s.order + [key];
      var t := Admit(s, key, value, maxsize);
      if |o| > maxsize then
        t.order == o[1..] && t.cache.Keys == (s.cache.Keys + {key}) - {o[0]}
        && (maxsize >= 1 ==> o[0] != key && key in t.cache && t.cache[key] == value)
      else
        t.order == o && t.cache == s.cache[key := value]
  {
    var o := s.order + [key];
    if |o| > maxsize && maxsize >= 1 {
      assert |s.order| >= 1;
      assert o[0] == s.order[0] && s.order[0] in (set k | k in s.order);
    }
  }

  // ---------------------------------------------------------------------------
  // The decorated function
  // ---------------------------------------------------------------------------

  /** What `cache_info()` returns. */
  datatype CacheInfo = CacheInfo(size: nat, maxsize: int)

  /** `memoize_with_limit(maxsize)(func)`: the wrapper together with the
      closure state it mutates. `func` sees its keyword arguments as a mapping. */
  class Memoizer<V(==), R> {
    const maxsize: int
    const func: (seq<V>, map<string, V>) -> R
    var cache: map<CallKey<V>, R>
    var order: seq<CallKey<V>>
    /** The keys `func` has been invoked for, in order. */
    ghost var calls: seq<CallKey<V>>

    ghost predicate Valid()
      reads this
    {
      && LruInv(Lru(cache, order), maxsize)
      && forall k :: k in cache ==> cache[k] == func(k.args, ItemsToMap(k.kwargs))
    }

    constructor (func: (seq<V>, map<string, V>) -> R, maxsize: int := 128)
      ensures Valid()
      ensures this.maxsize == maxsize && this.func == func
      ensures cache == map[] && order == [] && calls == []
    {
      this.maxsize := maxsize;
      this.func := func;
      cache := map[];
      order := [];
      calls := [];
    }

    /** `wrapper(*args, **kwargs)`. It returns what `func` returns; a hit
        invokes nothing, moves its key to the back and returns the stored
        value; a miss invokes `func` once and admits the new entry. */
    method Call(args: seq<V>, kwargs: seq<(string, V)>) returns (result: R)
      requires Valid() && DistinctNames(kwargs)
      modifies this
      ensures Valid()
      ensures result == func(args, ItemsToMap(kwargs))
      ensures var key := MakeKey(args, kwargs);
        if key in old(cache) then
          && key in old(order)
          && Lru(cache, order) == Touch(old(Lru(cache, order)), key)
          && result == old(cache)[key]
          && calls == old(calls)
        else
          && Lru(cache, order) == Admit(old(Lru(cache, order)), key, result, maxsize)
          && calls == old(calls) + [key]
    {
      var key := MakeKey(args, kwargs);
      SortKeepsMap(kwargs);
      if key in cache {
        TouchKeepsInvariant(Lru(cache, order), key, maxsize);
        order := RemoveFirst(order, key);
        order := order + [key];
        result := cache[key];
        return;
      }
      AdmitKeepsInvariant(Lru(cache, order), key, func(args, ItemsToMap(kwargs)), maxsize);
      result := func(args, ItemsToMap(kwargs));
      calls := calls + [key];
      cache := cache[key := result];
      order := order + [key];
      if |order| > maxsize {
        var oldest := order[0];
        order := order[1..];
        cache := cache - {oldest};
      }
    }

    /** `cache_info()`: the current number of entries and the configured limit. */
    function Info(): (info: CacheInfo)
      reads this
      requires Valid()
      ensures info.size == |cache| == |order|
      ensures info.size <= Capacity(maxsize)
      ensures info.maxsize == maxsize
    {
      SizesAgree(Lru(cache, order), maxsize);
      CacheInfo(|cache|, maxsize)
    }
  }

  /** `add(a, b=0)` from the memoiser's test, binding `a` and `b` by position
      or by name (a missing argument, a TypeError in Python, reads as 0). */
  function Add(args: seq<int>, kwargs: map<string, int>): (r: int) {
    var a := if |args| > 0 then args[0] else if "a" in kwargs then kwargs["a"] else 0;
    var b := if |args| > 1 then args[1] else if "b" in kwargs then kwargs["b"] else 0;
    a + b
  }

  /** The memoiser's test: `add(1, 2)` and `add(1, b=2)` both return 3, and
      they occupy two entries of a cache limited to two. */
  method MemoizedAddExample() returns (first: int, second: int, size: nat)
    ensures first == 3 && second == 3 && size == 2
  {
    var add := new Memoizer<int, int>(Add, 2);
    var k1, k2 := MakeKey([1, 2], []), MakeKey([1], [("b", 2)]);
    first := add.Call([1, 2], []);
    assert add.order == [k1];
    assert ItemsToMap([("b", 2)]) == map["b" := 2] by {
      assert [("b", 2)][..0] == [];
    }
    PositionalAndKeywordKeysDiffer();
    second := add.Call([1], [("b", 2)]);
    assert add.order == [k1, k2];
    size := add.Info().size;
  }

  // ---------------------------------------------------------------------------
  // with_metadata
  // ---------------------------------------------------------------------------

  /** Any Python object, seen through its attribute dictionary. */
  class Target<V> {
    var attributes: map<string, V>

    constructor (attributes: map<string, V>)
      ensures this.attributes == attributes
    {
      this.attributes := attributes;
    }
  }

  /** `with_metadata(**meta)(obj)`: `setattr(obj, k, v)` for each item in
      order, then the very same object is returned. */
  method WithMetadata<V>(meta: seq<(string, V)>, obj: Target<V>) returns (r: Target<V>)
    modifies obj
    ensures r == obj
    ensures obj.attributes == old(obj.attributes) + ItemsToMap(meta)
  {
    var i := 0;
    while i < |meta|
      invariant 0 <= i <= |meta|
      invariant obj.attributes == old(obj.attributes) + ItemsToMap(meta[..i])
    {
      assert meta[..i + 1][..i] == meta[..i];
      obj.attributes := obj.attributes[meta[i].0 := meta[i].1];
      i := i + 1;
    }
    assert meta[..|meta|] == meta;
    r := obj;
  }

  /** After `with_metadata`, every given key holds its value and every other
      attribute is as it was. */
  lemma MetadataInstalled<V>(before: map<string, V>, meta: seq<(string, V)>)
    requires DistinctNames(meta)
    ensures forall i :: 0 <= i < |meta| ==>
      meta[i].0 in before + ItemsToMap(meta) && (before + ItemsToMap(meta))[meta[i].0] == meta[i].1
    ensures forall n :: n in before && n !in ItemsToMap(meta) ==> (before + ItemsToMap(meta))[n] == before[n]
  {
    ItemsToMapLookup(meta);
  }
}
