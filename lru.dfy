/** A bounded least-recently-used cache (lru/lru.go).

    The cache keeps a recency list of entries, front = most recently used,
    back = least recently used, and a map from each key to its entry. Adding
    a key beyond `maxEntries` (0 = unbounded) evicts the back entry. Every
    entry that leaves the cache is reported to the optional eviction callback;
    the model records the callback's arguments in the ghost log `evicted`.

    The first half of the module states the behaviour on the abstract
    recency list, a sequence of (key, value) pairs; the second half is the
    `Cache` class, whose methods are proved to follow it. */
module Lru {
  import opened Wrappers

  // ---------------------------------------------------------------------
  // The recency list as a sequence of (key, value) pairs, front first
  // ---------------------------------------------------------------------

  /** The keys present in a recency list. */
  function KeysOf<K(==), V>(s: seq<(K, V)>): set<K> {
    set i | 0 <= i < |s| :: s[i].0
  }

  /** No key occurs twice in the list. */
  predicate DistinctKeys<K(==), V>(s: seq<(K, V)>) {
    forall i, j :: 0 <= i < j < |s| ==> s[i].0 != s[j].0
  }

  /** The value stored under `k`, if `k` is in the list. */
  function Find<K(==), V>(s: seq<(K, V)>, k: K): Option<V> {
    if s == [] then None
    else if s[0].0 == k then Some(s[0].1)
    else Find(s[1..], k)
  }

  /** The list with the entry for `k` taken out, the rest in their order. */
  function WithoutKey<K(==), V>(s: seq<(K, V)>, k: K): seq<(K, V)> {
    if s == [] then []
    else if s[0].0 == k then WithoutKey(s[1..], k)
    else [s[0]] + WithoutKey(s[1..], k)
  }

  /** What one operation does to the recency list: the new list, and the
      entries that left it (each is reported to the eviction callback). */
  datatype Step<K, V> = Step(contents: seq<(K, V)>, evicted: seq<(K, V)>)

  /** `RemoveOldest`: the back entry, if there is one, leaves. */
  function RemoveBack<K, V>(s: seq<(K, V)>): Step<K, V> {
    if s == [] then Step([], [])
    else Step(s[..|s| - 1], [s[|s| - 1]])
  }

  /** `Remove(k)`: the entry for `k`, if any, leaves. */
  function RemoveKey<K(==), V>(s: seq<(K, V)>, k: K): Step<K, V> {
    match Find(s, k)
    case None => Step(s, [])
    case Some(v) => Step(WithoutKey(s, k), [(k, v)])
  }

  /** The list after `Get(k)`: a hit moves the entry to the front. */
  function Touched<K(==), V>(s: seq<(K, V)>, k: K): seq<(K, V)> {
    match Find(s, k)
    case None => s
    case Some(v) => [(k, v)] + WithoutKey(s, k)
  }

  /** `Add(k, v)` with the bound `maxEntries`: an existing entry gets the
      new value and moves to the front; a new entry is pushed at the front,
      and when the list then holds more than `maxEntries` (and that bound is
      not 0) the back entry is removed as `RemoveOldest` does. */
  function AddTo<K(==), V>(s: seq<(K, V)>, k: K, v: V, maxEntries: int): Step<K, V> {
    if k in KeysOf(s) then Step([(k, v)] + WithoutKey(s, k), [])
    else
      var pushed := [(k, v)] + s;
      if maxEntries != 0 && |pushed| > maxEntries then RemoveBack(pushed)
      else Step(pushed, [])
  }

  // ---------------------------------------------------------------------
  // Facts about keys, lookup and removal by key
  // ---------------------------------------------------------------------

  lemma KeysOfConcat<K, V>(a: seq<(K, V)>, b: seq<(K, V)>)
    ensures KeysOf(a + b) == KeysOf(a) + KeysOf(b)
  {
    forall k | k in KeysOf(a + b)
      ensures k in KeysOf(a) + KeysOf(b)
    {
      var i :| 0 <= i < |a + b| && (a + b)[i].0 == k;
      if i < |a| {
        assert a[i].0 == k;
      } else {
        assert b[i - |a|].0 == k;
      }
    }
    forall k | k in KeysOf(a) + KeysOf(b)
      ensures k in KeysOf(a + b)
    {
      if k in KeysOf(a) {
        var i :| 0 <= i < |a| && a[i].0 == k;
        assert (a + b)[i].0 == k;
      } else {
        var i :| 0 <= i < |b| && b[i].0 == k;
        assert (a + b)[|a| + i].0 == k;
      }
    }
  }

  /** A list with distinct keys is its head, whose key is not in the tail,
      followed by a tail with distinct keys; and conversely. */
  lemma DistinctCons<K, V>(p: (K, V), t: seq<(K, V)>)
    ensures DistinctKeys([p] + t) <==> p.0 !in KeysOf(t) && DistinctKeys(t)
  {
    var s := [p] + t;
    assert forall i :: 0 <= i < |t| ==> s[i + 1] == t[i];
    if DistinctKeys(s) {
      forall i | 0 <= i < |t|
        ensures t[i].0 != p.0
      {
        assert s[0].0 != s[i + 1].0;
      }
    }
  }

  /** `Find` hits exactly the keys of the list. */
  lemma {:induction false} FindHitsKeys<K, V>(s: seq<(K, V)>, k: K)
    ensures Find(s, k).Some? <==> k in KeysOf(s)
  {
    if s != [] {
      assert s == [s[0]] + s[1..];
      KeysOfConcat([s[0]], s[1..]);
      FindHitsKeys(s[1..], k);
    }
  }

  lemma {:induction false} WithoutKeyKeys<K, V>(s: seq<(K, V)>, k: K)
    ensures KeysOf(WithoutKey(s, k)) == KeysOf(s) - {k}
  {
    if s != [] {
      assert s == [s[0]] + s[1..];
      KeysOfConcat([s[0]], s[1..]);
      WithoutKeyKeys(s[1..], k);
      if s[0].0 != k {
        KeysOfConcat([s[0]], WithoutKey(s[1..], k));
      }
    }
  }

  lemma {:induction false} WithoutKeyAbsent<K, V>(s: seq<(K, V)>, k: K)
    requires k !in KeysOf(s)
    ensures WithoutKey(s, k) == s
  {
    if s != [] {
      assert s == [s[0]] + s[1..];
      KeysOfConcat([s[0]], s[1..]);
      WithoutKeyAbsent(s[1..], k);
    }
  }

  lemma {:induction false} WithoutKeyDistinct<K, V>(s: seq<(K, V)>, k: K)
    requires DistinctKeys(s)
    ensures DistinctKeys(WithoutKey(s, k))
  {
    if s != [] {
      assert s == [s[0]] + s[1..];
      DistinctCons(s[0], s[1..]);
      WithoutKeyDistinct(s[1..], k);
      if s[0].0 != k {
        WithoutKeyKeys(s[1..], k);
        DistinctCons(s[0], WithoutKey(s[1..], k));
      }
    }
  }

  lemma {:induction false} WithoutKeyLength<K, V>(s: seq<(K, V)>, k: K)
    requires DistinctKeys(s) && k in KeysOf(s)
    ensures |WithoutKey(s, k)| == |s| - 1
  {
    assert s == [s[0]] + s[1..];
    DistinctCons(s[0], s[1..]);
    KeysOfConcat([s[0]], s[1..]);
    if s[0].0 == k {
      WithoutKeyAbsent(s[1..], k);
    } else {
      WithoutKeyLength(s[1..], k);
    }
  }

  /** Taking `k` out leaves every other key's value alone. */
  lemma {:induction false} FindWithoutKey<K, V>(s: seq<(K, V)>, k: K, k': K)
    ensures Find(WithoutKey(s, k), k') == if k' == k then None else Find(s, k')
  {
    if s != [] {
      FindWithoutKey(s[1..], k, k');
      if s[0].0 != k {
        assert ([s[0]] + WithoutKey(s[1..], k))[1..] == WithoutKey(s[1..], k);
      }
    }
  }

  /** Taking out the entry for `k` removes exactly the pair (k, v): no
      entry is lost or duplicated. */
  lemma {:induction false} WithoutKeyMultiset<K, V>(s: seq<(K, V)>, k: K, v: V)
    requires DistinctKeys(s) && Find(s, k) == Some(v)
    ensures multiset(s) == multiset(WithoutKey(s, k)) + multiset{(k, v)}
  {
    assert s == [s[0]] + s[1..];
    DistinctCons(s[0], s[1..]);
    if s[0].0 == k {
      WithoutKeyAbsent(s[1..], k);
    } else {
      WithoutKeyMultiset(s[1..], k, v);
    }
  }

  lemma NoKeysEmpty<K, V>(s: seq<(K, V)>)
    ensures KeysOf(s) == {} ==> s == []
  {
    if s != [] {
      assert s[0].0 in KeysOf(s);
    }
  }

  /** One step of draining a list `left` that agrees with `all` on its
      keys `rest`: taking out `k` fires the pair `all` holds for `k`, and
      what is left agrees with `all` on the remaining keys. */
  lemma DrainStep<K, V>(all: seq<(K, V)>, left: seq<(K, V)>, rest: set<K>, k: K)
    requires DistinctKeys(left) && KeysOf(left) == rest && k in rest
    requires forall k' :: k' in rest ==> Find(left, k') == Find(all, k')
    ensures Find(all, k).Some?
    ensures var left' := WithoutKey(left, k);
      && DistinctKeys(left') && KeysOf(left') == rest - {k}
      && (forall k' :: k' in rest - {k} ==> Find(left', k') == Find(all, k'))
      && multiset(left) == multiset(left') + multiset{(k, Find(all, k).value)}
  {
    FindHitsKeys(left, k);
    WithoutKeyMultiset(left, k, Find(all, k).value);
    WithoutKeyKeys(left, k);
    WithoutKeyDistinct(left, k);
    forall k' | k' in rest - {k}
      ensures Find(WithoutKey(left, k), k') == Find(all, k')
    {
      FindWithoutKey(left, k, k');
    }
  }

  /** A list whose head holds `k` and whose tail does not: `Get(k)` hits
      the head and leaves the list unchanged. */
  lemma FrontHit<K, V>(k: K, v: V, u: seq<(K, V)>)
    requires k !in KeysOf(u)
    ensures Find([(k, v)] + u, k) == Some(v)
    ensures Touched([(k, v)] + u, k) == [(k, v)] + u
  {
    var t := [(k, v)] + u;
    assert t[1..] == u;
    WithoutKeyAbsent(u, k);
  }

  // ---------------------------------------------------------------------
  // Properties of the cache operations on the recency list
  // ---------------------------------------------------------------------

  /** The round trip: `Add(k, v)` and then `Get(k)` returns `v`, `k` is at
      the front, and the `Get` leaves the list as it is. The one exception
      is a negative bound on an empty cache (`NegativeBoundDropsNewEntry`). */
  lemma AddThenGet<K, V>(s: seq<(K, V)>, k: K, v: V, maxEntries: int)
    requires DistinctKeys(s)
    requires maxEntries >= 0 || s != []
    ensures var t := AddTo(s, k, v, maxEntries).contents;
      && t != [] && t[0] == (k, v)
      && Find(t, k) == Some(v)
      && Touched(t, k) == t
  {
    var t := AddTo(s, k, v, maxEntries).contents;
    if k in KeysOf(s) {
      WithoutKeyKeys(s, k);
      FrontHit(k, v, WithoutKey(s, k));
    } else {
      var pushed := [(k, v)] + s;
      if maxEntries != 0 && |pushed| > maxEntries {
        var front := s[..|s| - 1];
        assert t == [(k, v)] + front;
        assert forall i :: 0 <= i < |front| ==> front[i].0 == s[i].0 && s[i].0 in KeysOf(s);
        FrontHit(k, v, front);
      } else {
        FrontHit(k, v, s);
      }
    }
  }

  /** With a negative bound the guard `maxEntries != 0` still fires, so an
      entry added to an empty cache is evicted straight away. */
  lemma NegativeBoundDropsNewEntry<K, V>(k: K, v: V, maxEntries: int)
    requires maxEntries < 0
    ensures AddTo([], k, v, maxEntries) == Step([], [(k, v)])
  {
    assert KeysOf<K, V>([]) == {};
  }

  /** Every operation keeps the keys of the list distinct. */
  lemma OperationsKeepDistinct<K, V>(s: seq<(K, V)>, k: K, v: V, maxEntries: int)
    requires DistinctKeys(s)
    ensures DistinctKeys(AddTo(s, k, v, maxEntries).contents)
    ensures DistinctKeys(Touched(s, k))
    ensures DistinctKeys(RemoveKey(s, k).contents)
    ensures DistinctKeys(RemoveBack(s).contents)
  {
    WithoutKeyDistinct(s, k);
    WithoutKeyKeys(s, k);
    DistinctCons((k, v), WithoutKey(s, k));
    if Find(s, k).Some? {
      DistinctCons((k, Find(s, k).value), WithoutKey(s, k));
    }
    if k !in KeysOf(s) {
      var pushed := [(k, v)] + s;
      DistinctCons((k, v), s);
      assert DistinctKeys(pushed[..|pushed| - 1]);
    }
  }

  /** With a positive bound that the list respects, `Add` keeps it
      respected and evicts at most one entry: the back, least recently used
      one, and only when the list was full. */
  lemma AddBounded<K, V>(s: seq<(K, V)>, k: K, v: V, maxEntries: int)
    requires DistinctKeys(s)
    requires 0 < maxEntries && |s| <= maxEntries
    ensures var r := AddTo(s, k, v, maxEntries);
      && |r.contents| <= maxEntries
      && |r.evicted| <= 1
      && (r.evicted != [] ==> |s| == maxEntries && r.evicted == [s[|s| - 1]])
  {
    if k in KeysOf(s) {
      WithoutKeyLength(s, k);
    }
  }

  /** `Add` on a new key pushes it at the front and at most the back entry
      leaves: the new list followed by what was evicted is exactly the old
      list with the new pair in front. */
  lemma AddNewKey<K, V>(s: seq<(K, V)>, k: K, v: V, maxEntries: int)
    requires k !in KeysOf(s)
    ensures var r := AddTo(s, k, v, maxEntries);
      && r.contents + r.evicted == [(k, v)] + s
      && |r.evicted| <= 1
      && (r.evicted == [] <==> maxEntries == 0 || |s| + 1 <= maxEntries)
  {
    var pushed := [(k, v)] + s;
    if maxEntries != 0 && |pushed| > maxEntries {
      assert pushed == pushed[..|pushed| - 1] + [pushed[|pushed| - 1]];
    }
  }

  /** `Add` on a key already present updates its value in place and moves
      it to the front; the length and the key set stay, nothing is evicted,
      and every other key keeps its value. */
  lemma AddExistingKey<K, V>(s: seq<(K, V)>, k: K, v: V, maxEntries: int)
    requires DistinctKeys(s) && k in KeysOf(s)
    ensures var r := AddTo(s, k, v, maxEntries);
      && r.evicted == []
      && |r.contents| == |s|
      && r.contents[0] == (k, v)
      && KeysOf(r.contents) == KeysOf(s)
      && forall k' :: k' != k ==> Find(r.contents, k') == Find(s, k')
  {
    var w := WithoutKey(s, k);
    WithoutKeyLength(s, k);
    WithoutKeyKeys(s, k);
    KeysOfConcat([(k, v)], w);
    assert [(k, v)][0].0 == k;
    assert KeysOf([(k, v)]) == {k};
    assert ([(k, v)] + w)[1..] == w;
    forall k' | k' != k
      ensures Find([(k, v)] + w, k') == Find(s, k')
    {
      FindWithoutKey(s, k, k');
    }
  }

  /** `Get` on a hit moves the entry to the front and changes neither the
      value of any key nor the set of keys. */
  lemma GetHit<K, V>(s: seq<(K, V)>, k: K, v: V)
    requires DistinctKeys(s) && Find(s, k) == Some(v)
    ensures var t := Touched(s, k);
      && t[0] == (k, v)
      && |t| == |s|
      && KeysOf(t) == KeysOf(s)
      && forall k' :: Find(t, k') == Find(s, k')
  {
    FindHitsKeys(s, k);
    AddExistingKey(s, k, v, 0);
    FrontHit(k, v, WithoutKey(s, k)) by {
      WithoutKeyKeys(s, k);
    }
  }

  /** `Get` on a miss changes nothing. */
  lemma GetMiss<K, V>(s: seq<(K, V)>, k: K)
    requires k !in KeysOf(s)
    ensures Find(s, k) == None && Touched(s, k) == s
  {
    FindHitsKeys(s, k);
  }

  /** `Remove(k)` on a present key takes out exactly its entry and reports
      it once. */
  lemma RemovePresent<K, V>(s: seq<(K, V)>, k: K, v: V)
    requires DistinctKeys(s) && Find(s, k) == Some(v)
    ensures var r := RemoveKey(s, k);
      && r.evicted == [(k, v)]
      && |r.contents| == |s| - 1
      && KeysOf(r.contents) == KeysOf(s) - {k}
      && multiset(r.contents) + multiset(r.evicted) == multiset(s)
      && forall k' :: k' != k ==> Find(r.contents, k') == Find(s, k')
  {
    FindHitsKeys(s, k);
    WithoutKeyLength(s, k);
    WithoutKeyKeys(s, k);
    WithoutKeyMultiset(s, k, v);
    forall k' | k' != k
      ensures Find(WithoutKey(s, k), k') == Find(s, k')
    {
      FindWithoutKey(s, k, k');
    }
  }

  /** `Remove(k)` on an absent key changes nothing and reports nothing. */
  lemma RemoveAbsent<K, V>(s: seq<(K, V)>, k: K)
    requires k !in KeysOf(s)
    ensures RemoveKey(s, k) == Step(s, [])
  {
    FindHitsKeys(s, k);
  }

  /** `RemoveOldest` takes out exactly the back entry, keeping the order of
      the others, and is a no-op on an empty list. */
  lemma RemoveOldestTakesBack<K, V>(s: seq<(K, V)>)
    requires DistinctKeys(s)
    ensures var r := RemoveBack(s);
      && r.contents + r.evicted == s
      && |r.evicted| == (if s == [] then 0 else 1)
      && (s != [] ==> KeysOf(r.contents) == KeysOf(s) - {s[|s| - 1].0})
  {
    if s != [] {
      var r := RemoveBack(s);
      assert r.contents + r.evicted == s;
      KeysOfConcat(r.contents, r.evicted);
      assert KeysOf(r.evicted) == {s[|s| - 1].0};
      assert forall i :: 0 <= i < |r.contents| ==> r.contents[i].0 != s[|s| - 1].0;
    }
  }

  /** Taking out the back key of a list with distinct keys drops its last
      pair. */
  lemma WithoutBackKey<K, V>(s: seq<(K, V)>)
    requires DistinctKeys(s) && s != []
    ensures WithoutKey(s, s[|s| - 1].0) == s[..|s| - 1]
  {
    var k := s[|s| - 1].0;
    var front := s[..|s| - 1];
    assert forall i :: 0 <= i < |front| ==> front[i].0 != k;
    assert k !in KeysOf(front);
    var last := [s[|s| - 1]];
    assert last[1..] == [];
    assert WithoutKey(last, k) == WithoutKey([], k) == [];
    assert s == front + last;
    WithoutKeyAppend(front, last, k);
    WithoutKeyAbsent(front, k);
  }

  lemma {:induction false} WithoutKeyAppend<K, V>(a: seq<(K, V)>, b: seq<(K, V)>, k: K)
    ensures WithoutKey(a + b, k) == WithoutKey(a, k) + WithoutKey(b, k)
  {
    if a != [] {
      assert (a + b)[1..] == a[1..] + b;
      WithoutKeyAppend(a[1..], b, k);
    } else {
      assert a + b == b;
    }
  }

  // ---------------------------------------------------------------------
  // The entries and the linked list
  // ---------------------------------------------------------------------

  /** An element of the recency list: Go's `*entry` inside a list element.
      The key never changes; `Add` on a present key overwrites the value. */
  class Entry<K, V> {
    const key: K
    var value: V

    constructor (key: K, value: V)
      ensures this.key == key && this.value == value
    {
      this.key := key;
      this.value := value;
    }
  }

  /** The (key, value) pairs of a list of entries, in list order. */
  ghost function Pairs<K, V>(s: seq<Entry<K, V>>): (r: seq<(K, V)>)
    reads s
    ensures |r| == |s|
  {
    if s == [] then [] else [(s[0].key, s[0].value)] + Pairs(s[1..])
  }

  /** The keys of a list of entries. */
  ghost function EntryKeys<K, V>(s: seq<Entry<K, V>>): set<K> {
    set i | 0 <= i < |s| :: s[i].key
  }

  /** No two entries of the list share a key. */
  ghost predicate UniqueKeys<K, V>(s: seq<Entry<K, V>>) {
    forall i, j :: 0 <= i < j < |s| ==> s[i].key != s[j].key
  }

  /** The list's `Remove(e)`: `e` leaves, the others keep their order. */
  function Unlink<K, V>(s: seq<Entry<K, V>>, e: Entry<K, V>): seq<Entry<K, V>> {
    if s == [] then []
    else if s[0] == e then Unlink(s[1..], e)
    else [s[0]] + Unlink(s[1..], e)
  }

  /** The list's `MoveToFront(e)`. */
  function MoveToFront<K, V>(s: seq<Entry<K, V>>, e: Entry<K, V>): seq<Entry<K, V>> {
    [e] + Unlink(s, e)
  }

  /** The list's `Back()`: the last element, or nil on an empty list. */
  function Back<K, V>(s: seq<Entry<K, V>>): Option<Entry<K, V>> {
    if s == [] then None else Some(s[|s| - 1])
  }

  /** Writing fields other than the entries' does not change their pairs. */
  twostate lemma {:induction false} PairsStay<K, V>(s: seq<Entry<K, V>>)
    requires forall e :: e in s ==> unchanged(e)
    ensures Pairs(s) == old(Pairs(s))
  {
    if s != [] {
      assert s[0] in s && forall e :: e in s[1..] ==> e in s;
      PairsStay(s[1..]);
    }
  }

  lemma PairsCons<K, V>(e: Entry<K, V>, s: seq<Entry<K, V>>)
    ensures Pairs([e] + s) == [(e.key, e.value)] + Pairs(s)
  {
    assert ([e] + s)[1..] == s;
  }

  lemma {:induction false} PairsAt<K, V>(s: seq<Entry<K, V>>)
    ensures forall i :: 0 <= i < |s| ==> Pairs(s)[i] == (s[i].key, s[i].value)
  {
    if s != [] {
      PairsAt(s[1..]);
    }
  }

  lemma PairsKeys<K, V>(s: seq<Entry<K, V>>)
    ensures KeysOf(Pairs(s)) == EntryKeys(s)
    ensures DistinctKeys(Pairs(s)) <==> UniqueKeys(s)
  {
    PairsAt(s);
    var p := Pairs(s);
    assert forall i :: 0 <= i < |s| ==> p[i].0 == s[i].key;
  }

  /** Every element of `Unlink(s, e)` is an element of `s` other than `e`. */
  lemma {:induction false} UnlinkMembers<K, V>(s: seq<Entry<K, V>>, e: Entry<K, V>)
    ensures forall i :: 0 <= i < |Unlink(s, e)| ==> Unlink(s, e)[i] in s && Unlink(s, e)[i] != e
  {
    if s != [] {
      UnlinkMembers(s[1..], e);
      var r := Unlink(s, e);
      if s[0] != e {
        assert forall i :: 0 < i < |r| ==> r[i] == Unlink(s[1..], e)[i - 1];
      }
    }
  }

  lemma {:induction false} UnlinkAbsent<K, V>(s: seq<Entry<K, V>>, e: Entry<K, V>)
    requires e !in s
    ensures Unlink(s, e) == s
  {
    if s != [] {
      assert e !in s[1..];
      UnlinkAbsent(s[1..], e);
    }
  }

  /** Unlinking an entry of a list with unique keys takes its key out of
      the pairs the list holds. */
  lemma {:induction false} PairsUnlink<K, V>(s: seq<Entry<K, V>>, e: Entry<K, V>)
    requires UniqueKeys(s) && e in s
    ensures Pairs(Unlink(s, e)) == WithoutKey(Pairs(s), e.key)
  {
    var p := Pairs(s);
    assert p == [(s[0].key, s[0].value)] + Pairs(s[1..]);
    assert p[1..] == Pairs(s[1..]);
    assert UniqueKeys(s[1..]);
    if s[0] == e {
      forall j | 0 <= j < |s| - 1
        ensures s[1..][j].key != e.key
      {
        assert s[0].key != s[j + 1].key;
      }
      assert e !in s[1..];
      assert e.key !in EntryKeys(s[1..]);
      UnlinkAbsent(s[1..], e);
      PairsKeys(s[1..]);
      WithoutKeyAbsent(Pairs(s[1..]), e.key);
    } else {
      var j :| 0 <= j < |s| && s[j] == e;
      assert s[0].key != e.key;
      assert e in s[1..] by {
        assert s[1..][j - 1] == e;
      }
      PairsUnlink(s[1..], e);
      var u := Unlink(s[1..], e);
      assert ([s[0]] + u)[1..] == u;
    }
  }

  /** Unlinking a listed entry of a list with unique keys shortens it by one. */
  lemma UnlinkLength<K, V>(s: seq<Entry<K, V>>, e: Entry<K, V>)
    requires UniqueKeys(s) && e in s
    ensures |Unlink(s, e)| == |s| - 1
  {
    PairsUnlink(s, e);
    PairsKeys(s);
    var i :| 0 <= i < |s| && s[i] == e;
    assert s[i].key in EntryKeys(s);
    WithoutKeyLength(Pairs(s), e.key);
  }

  /** In a list with unique keys, an entry's key finds that entry's value. */
  lemma {:induction false} FindPairs<K, V>(s: seq<Entry<K, V>>, i: nat)
    requires UniqueKeys(s) && i < |s|
    ensures Find(Pairs(s), s[i].key) == Some(s[i].value)
  {
    var p := Pairs(s);
    assert p == [(s[0].key, s[0].value)] + Pairs(s[1..]);
    if i > 0 {
      assert s[0].key != s[i].key;
      assert UniqueKeys(s[1..]);
      assert p[1..] == Pairs(s[1..]);
      FindPairs(s[1..], i - 1);
    }
  }

  /** The shape the cache's list and map keep: keys unique in the list,
      the map's key set equal to the list's, each key mapped to its entry. */
  ghost predicate IndexedBy<K, V>(cache: map<K, Entry<K, V>>, ll: seq<Entry<K, V>>) {
    && UniqueKeys(ll)
    && cache.Keys == EntryKeys(ll)
    && forall i :: 0 <= i < |ll| ==> ll[i].key in cache && cache[ll[i].key] == ll[i]
  }

  /** `removeElement` keeps the shape: unlink the entry, delete its key. */
  lemma IndexedUnlink<K, V>(cache: map<K, Entry<K, V>>, ll: seq<Entry<K, V>>, e: Entry<K, V>)
    requires IndexedBy(cache, ll) && e in ll
    ensures IndexedBy(cache - {e.key}, Unlink(ll, e))
  {
    var r := Unlink(ll, e);
    assert UniqueKeys(r) && EntryKeys(r) == EntryKeys(ll) - {e.key} by {
      PairsUnlink(ll, e);
      PairsKeys(ll);
      PairsKeys(r);
      WithoutKeyKeys(Pairs(ll), e.key);
      WithoutKeyDistinct(Pairs(ll), e.key);
    }
    UnlinkMembers(ll, e);
    var m :| 0 <= m < |ll| && ll[m] == e;
    forall i | 0 <= i < |r|
      ensures r[i].key in cache - {e.key} && (cache - {e.key})[r[i].key] == r[i]
    {
      var j :| 0 <= j < |ll| && ll[j] == r[i];
      assert cache[ll[j].key] == ll[j] != ll[m] == cache[ll[m].key];
    }
  }

  lemma EntryKeysPush<K, V>(e: Entry<K, V>, s: seq<Entry<K, V>>)
    ensures EntryKeys([e] + s) == {e.key} + EntryKeys(s)
  {
    var t := [e] + s;
    forall k | k in EntryKeys(t)
      ensures k in {e.key} + EntryKeys(s)
    {
      var i :| 0 <= i < |t| && t[i].key == k;
      if i > 0 {
        assert s[i - 1].key == k;
      }
    }
    forall k | k in {e.key} + EntryKeys(s)
      ensures k in EntryKeys(t)
    {
      if k == e.key {
        assert t[0].key == k;
      } else {
        var i :| 0 <= i < |s| && s[i].key == k;
        assert t[i + 1].key == k;
      }
    }
  }

  /** `MoveToFront` of a listed entry keeps the shape. */
  lemma IndexedMoveToFront<K, V>(cache: map<K, Entry<K, V>>, ll: seq<Entry<K, V>>, e: Entry<K, V>)
    requires IndexedBy(cache, ll) && e in ll
    ensures IndexedBy(cache, MoveToFront(ll, e))
  {
    IndexedUnlink(cache, ll, e);
    var r := Unlink(ll, e);
    var m :| 0 <= m < |ll| && ll[m] == e;
    assert cache[e.key] == e;
    assert forall i :: 0 <= i < |r| ==> r[i].key in EntryKeys(r);
    EntryKeysPush(e, r);
  }

  /** `PushFront` of an entry for an absent key, with the key mapped to it,
      keeps the shape. */
  lemma IndexedPush<K, V>(cache: map<K, Entry<K, V>>, ll: seq<Entry<K, V>>, e: Entry<K, V>)
    requires IndexedBy(cache, ll) && e.key !in cache
    ensures IndexedBy(cache[e.key := e], [e] + ll)
  {
    EntryKeysPush(e, ll);
    assert forall i :: 0 <= i < |ll| ==> ll[i].key in EntryKeys(ll);
  }

  // ---------------------------------------------------------------------
  // The cache object
  // ---------------------------------------------------------------------

  /** The cache of lru/lru.go. `initialized` is false exactly where the Go
      struct's `ll` and `cache` are nil: for a cache built as a composite
      literal and after `Clear`. `onEvicted` says whether the callback is
      set; `evicted` logs the arguments of every call to it. */
  class Cache<K(==), V> {
    const maxEntries: int
    const onEvicted: bool
    ghost var evicted: seq<(K, V)>

    var initialized: bool
    var ll: seq<Entry<K, V>>
    var cache: map<K, Entry<K, V>>

    /** The map's keys are exactly the list's keys, the list holds no key
        twice, and each key maps to the list's entry for that key. */
    ghost predicate Valid()
      reads this
    {
      && (!initialized ==> ll == [] && cache == map[])
      && IndexedBy(cache, ll)
    }

    /** The bound: with a positive `maxEntries` the list holds at most that
        many entries. */
    ghost predicate Bounded()
      reads this
    {
      maxEntries > 0 ==> |ll| <= maxEntries
    }

    /** The recency list, most recently used first. */
    ghost function Contents(): seq<(K, V)>
      reads this, ll
    {
      Pairs(ll)
    }

    /** `New(maxEntries)`. */
    constructor (maxEntries: int)
      ensures Valid() && Bounded() && initialized && ll == [] && Contents() == []
      ensures this.maxEntries == maxEntries && !onEvicted && evicted == []
    {
      this.maxEntries := maxEntries;
      onEvicted := false;
      evicted := [];
      initialized := true;
      ll := [];
      cache := map[];
    }

    /** A composite literal `&Cache{MaxEntries: m, OnEvicted: f}`: the list
        and the map stay nil until the first `Add`. */
    constructor Literal(maxEntries: int, onEvicted: bool)
      ensures Valid() && Bounded() && !initialized && ll == [] && Contents() == []
      ensures this.maxEntries == maxEntries && this.onEvicted == onEvicted && evicted == []
    {
      this.maxEntries := maxEntries;
      this.onEvicted := onEvicted;
      evicted := [];
      initialized := false;
      ll := [];
      cache := map[];
    }

    /** The lookup `c.cache[key]` in terms of the recency list. */
    lemma CacheLookup(key: K)
      requires Valid()
      ensures key in cache <==> key in KeysOf(Contents())
      ensures key !in cache ==> Find(Contents(), key) == None
      ensures key in cache ==> cache[key] in ll && cache[key].key == key
      ensures key in cache ==> Find(Contents(), key) == Some(cache[key].value)
      ensures DistinctKeys(Contents())
    {
      PairsKeys(ll);
      FindHitsKeys(Contents(), key);
      if key in cache {
        var i :| 0 <= i < |ll| && ll[i].key == key;
        FindPairs(ll, i);
      }
    }

    /** `Add(key, value)`: re-create a nil list and map, then update a
        present key in place or push a new entry, evicting the back entry
        when the list grows past a non-zero `maxEntries`. */
    method Add(key: K, value: V)
      requires Valid()
      modifies this`initialized, this`ll, this`cache, this`evicted, ll
      ensures Valid() && initialized && (old(Bounded()) ==> Bounded())
      ensures forall i :: 0 <= i < |ll| ==> ll[i] in old(ll) || fresh(ll[i])
      ensures var r := AddTo(old(Contents()), key, value, maxEntries);
        && Contents() == r.contents
        && evicted == old(evicted) + (if onEvicted then r.evicted else [])
    {
      ghost var s := Contents();
      if !initialized {
        cache := map[];
        ll := [];
        initialized := true;
      }
      assert Contents() == s;
      assert key in cache <==> key in KeysOf(s) by {
        CacheLookup(key);
      }
      if key in cache {
        var ee := cache[key];
        assert ee in ll && ee.key == key by {
          CacheLookup(key);
        }
        UpdateEntry(ee, value);
        return;
      }
      AddNew(key, value);
    }

    /** The miss branch of `Add`: push a new entry, then evict the back
        entry when the list has grown past a non-zero `maxEntries`. */
    method AddNew(key: K, value: V)
      requires Valid() && initialized && key !in cache
      modifies this`ll, this`cache, this`evicted
      ensures Valid() && initialized && (old(Bounded()) ==> Bounded())
      ensures forall i :: 0 <= i < |ll| ==> ll[i] in old(ll) || fresh(ll[i])
      ensures var r := AddTo(old(Contents()), key, value, maxEntries);
        && Contents() == r.contents
        && evicted == old(evicted) + (if onEvicted then r.evicted else [])
    {
      ghost var s := Contents();
      assert key !in KeysOf(s) by {
        CacheLookup(key);
      }
      var ele := PushEntry(key, value);
      ghost var pushed := ll;
      if maxEntries != 0 && |ll| > maxEntries {
        RemoveOldest();
        assert forall i :: 0 <= i < |ll| ==> ll[i] in pushed;
      }
    }

    /** `Get(key)`: `Some(v)` is the Go result `(v, true)`, `None` is
        `(nil, false)`. */
    method Get(key: K) returns (r: Option<V>)
      requires Valid()
      modifies this`ll
      ensures Valid() && (old(Bounded()) ==> Bounded())
      ensures forall i :: 0 <= i < |ll| ==> ll[i] in old(ll)
      ensures r == Find(old(Contents()), key)
      ensures Contents() == Touched(old(Contents()), key)
    {
      if !initialized {
        return None;
      }
      CacheLookup(key);
      if key in cache {
        var ele := cache[key];
        MoveEntryToFront(ele);
        PairsCons(ele, ll[1..]);
        assert ll == [ele] + ll[1..];
        return Some(ele.value);
      }
      return None;
    }

    /** The list's `MoveToFront(e)` on the cache's list. The entry keeps
        its value, and the entries behind it hold the list without its key. */
    method MoveEntryToFront(e: Entry<K, V>)
      requires Valid() && e in ll
      modifies this`ll
      ensures Valid() && ll == MoveToFront(old(ll), e) && |ll| == |old(ll)|
      ensures forall i :: 0 <= i < |ll| ==> ll[i] in old(ll)
      ensures ll != [] && ll[0] == e && e !in ll[1..]
      ensures Pairs(ll[1..]) == WithoutKey(old(Contents()), e.key)
    {
      ghost var rest := Unlink(ll, e);
      assert Pairs(rest) == WithoutKey(Contents(), e.key) by {
        PairsUnlink(ll, e);
      }
      UnlinkMembers(ll, e);
      UnlinkLength(ll, e);
      IndexedMoveToFront(cache, ll, e);
      ll := MoveToFront(ll, e);
      assert ll[1..] == rest;
    }

    /** The hit branch of `Add`: move the entry to the front, then
        overwrite its value. */
    method UpdateEntry(e: Entry<K, V>, value: V)
      requires Valid() && e in ll
      modifies this`ll, e`value
      ensures Valid() && ll == MoveToFront(old(ll), e) && |ll| == |old(ll)|
      ensures forall i :: 0 <= i < |ll| ==> ll[i] in old(ll)
      ensures Contents() == [(e.key, value)] + WithoutKey(old(Contents()), e.key)
    {
      MoveEntryToFront(e);
      label moved:
      e.value := value;
      PairsStay@moved(ll[1..]);
      PairsCons(e, ll[1..]);
      assert ll == [e] + ll[1..];
    }

    /** The list's `PushFront` of a new entry, and the map update that
        follows it in `Add`. */
    method PushEntry(key: K, value: V) returns (ele: Entry<K, V>)
      requires Valid() && initialized && key !in cache
      modifies this`ll, this`cache
      ensures Valid() && initialized
      ensures fresh(ele) && ll == [ele] + old(ll)
      ensures Contents() == [(key, value)] + old(Contents())
    {
      ghost var ll0 := ll;
      label before:
      ele := new Entry(key, value);
      IndexedPush(cache, ll, ele);
      ll, cache := [ele] + ll, cache[key := ele];
      assert ll[1..] == ll0;
      PairsStay@before(ll0);
      PairsCons(ele, ll0);
    }

    /** `Remove(key)`: a no-op on a nil cache or an absent key. */
    method Remove(key: K)
      requires Valid()
      modifies this`ll, this`cache, this`evicted
      ensures Valid() && (old(Bounded()) ==> Bounded())
      ensures forall i :: 0 <= i < |ll| ==> ll[i] in old(ll)
      ensures var r := RemoveKey(old(Contents()), key);
        && Contents() == r.contents
        && evicted == old(evicted) + (if onEvicted then r.evicted else [])
    {
      if !initialized {
        return;
      }
      CacheLookup(key);
      if key in cache {
        RemoveElement(cache[key]);
      }
    }

    /** `RemoveOldest()`: removes the back entry, if the cache has one. */
    method RemoveOldest()
      requires Valid()
      modifies this`ll, this`cache, this`evicted
      ensures Valid() && (old(Bounded()) ==> Bounded())
      ensures forall i :: 0 <= i < |ll| ==> ll[i] in old(ll)
      ensures var r := RemoveBack(old(Contents()));
        && Contents() == r.contents
        && evicted == old(evicted) + (if onEvicted then r.evicted else [])
    {
      if !initialized {
        return;
      }
      var ele := Back(ll);
      if ele.Some? {
        var e := ele.value;
        ghost var s := Contents();
        assert s[|s| - 1] == (e.key, e.value) && WithoutKey(s, e.key) == s[..|s| - 1] by {
          PairsAt(ll);
          PairsKeys(ll);
          WithoutBackKey(s);
        }
        RemoveElement(e);
      }
    }

    /** `removeElement(e)`: unlink `e`, delete its key, report it. */
    method RemoveElement(e: Entry<K, V>)
      requires Valid() && e in ll
      modifies this`ll, this`cache, this`evicted
      ensures Valid() && ll == Unlink(old(ll), e) && |ll| == |old(ll)| - 1
      ensures forall i :: 0 <= i < |ll| ==> ll[i] in old(ll)
      ensures Contents() == WithoutKey(old(Contents()), e.key)
      ensures evicted == old(evicted) + (if onEvicted then [(e.key, e.value)] else [])
    {
      var rest := Unlink(ll, e);
      assert Pairs(rest) == WithoutKey(Contents(), e.key) by {
        PairsUnlink(ll, e);
      }
      UnlinkMembers(ll, e);
      UnlinkLength(ll, e);
      IndexedUnlink(cache, ll, e);
      ll := rest;
      cache := cache - {e.key};
      if onEvicted {
        evicted := evicted + [(e.key, e.value)];
      }
    }

    /** `Len()`: 0 for a nil cache, else the length of the list. */
    method Len() returns (n: int)
      requires Valid()
      ensures n == |Contents()|
    {
      if !initialized {
        return 0;
      }
      return |ll|;
    }

    /** The loop of `Clear` that hands every entry to the callback: the
        calls it makes, in the order it visits the map. Each pair of the
        recency list is passed exactly once. */
    method CallbackArguments() returns (fired: seq<(K, V)>)
      requires Valid()
      ensures multiset(fired) == multiset(Contents())
    {
      ghost var all := Contents();
      ghost var left := all;
      fired := [];
      PairsKeys(ll);
      var rest := cache.Keys;
      while rest != {}
        invariant rest <= cache.Keys
        invariant DistinctKeys(left) && KeysOf(left) == rest
        invariant forall k :: k in rest ==> Find(left, k) == Find(all, k)
        invariant multiset(fired) + multiset(left) == multiset(all)
        decreases rest
      {
        var k :| k in rest;
        var e := cache[k];
        assert Find(all, k) == Some(e.value) by {
          assert Contents() == all;
          CacheLookup(k);
        }
        DrainStep(all, left, rest, k);
        fired := fired + [(k, e.value)];
        left := WithoutKey(left, k);
        rest := rest - {k};
      }
      NoKeysEmpty(left);
      assert multiset(left) == multiset{};
    }

    /** `Clear()`: the callback, if set, fires once for every entry; then
        the list and the map become nil. */
    method Clear()
      requires Valid()
      modifies this
      ensures Valid() && Bounded() && !initialized && Contents() == []
      ensures exists fired ::
        && evicted == old(evicted) + fired
        && multiset(fired) == (if onEvicted then multiset(old(Contents())) else multiset{})
    {
      var fired := [];
      if onEvicted {
        fired := CallbackArguments();
        evicted := evicted + fired;
      }
      ll := [];
      cache := map[];
      initialized := false;
      assert evicted == old(evicted) + fired;
    }
  }

  /** The steps of the eviction-order scenario on the recency list. */
  lemma EvictionSteps()
    ensures AddTo<int, int>([], 1, 10, 2) == Step([(1, 10)], [])
    ensures AddTo([(1, 10)], 2, 20, 2) == Step([(2, 20), (1, 10)], [])
    ensures Find([(2, 20), (1, 10)], 1) == Some(10)
    ensures Touched([(2, 20), (1, 10)], 1) == [(1, 10), (2, 20)]
    ensures AddTo([(1, 10), (2, 20)], 3, 30, 2) == Step([(3, 30), (1, 10)], [(2, 20)])
    ensures Find([(3, 30), (1, 10)], 2) == None
    ensures Find([(3, 30), (1, 10)], 1) == Some(10)
  {
    assert KeysOf<int, int>([]) == {};
    assert [(1, 10)][0].0 == 1;
    assert KeysOf([(1, 10)]) == {1};
    var a := [(2, 20), (1, 10)];
    assert a[1..] == [(1, 10)];
    assert [(1, 10)][1..] == [];
    var b := [(1, 10), (2, 20)];
    assert b[0].0 == 1 && b[1].0 == 2;
    assert KeysOf(b) == {1, 2};
    var c := [(3, 30), (1, 10)];
    assert c[1..] == [(1, 10)];
  }

  /** A client of `Cache`: with room for two entries, `Add(1)`, `Add(2)` and
      `Get(1)` leave 1 as the most recently used key and 2 as the oldest. */
  method FillAndTouch() returns (c: Cache<int, int>, first: Option<int>)
    ensures fresh(c) && c.Valid() && c.maxEntries == 2 && !c.onEvicted
    ensures forall i :: 0 <= i < |c.ll| ==> fresh(c.ll[i])
    ensures c.Contents() == [(1, 10), (2, 20)] && first == Some(10)
  {
    EvictionSteps();
    c := new Cache<int, int>(2);
    c.Add(1, 10);
    c.Add(2, 20);
    first := c.Get(1);
  }

  /** Continuing `FillAndTouch`, `Add(3)` evicts 2, the least recently used
      key, and keeps 1. */
  method EvictionOrder() returns (first: Option<int>, evictedKey: Option<int>, kept: Option<int>, n: int)
    ensures first == Some(10) && evictedKey == None && kept == Some(10) && n == 2
  {
    EvictionSteps();
    var c;
    c, first := FillAndTouch();
    c.Add(3, 30);
    evictedKey := c.Get(2);
    kept := c.Get(1);
    n := c.Len();
  }
}
