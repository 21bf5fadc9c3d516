/** A consistent-hash ring (consistenthash/consistenthash.go).

    Every node name is hashed `replicas` times, as the decimal replica
    number followed by the name, and each hash value becomes a point on the
    ring mapped to its node. A key is served by the node of the first point
    at or after the key's hash, wrapping around to the smallest point.

    Go strings are byte strings, so names and keys are `seq<byte>`. The hash
    function is a parameter of the ring. */
module ConsistentHash {
  import opened Wrappers

  newtype byte = x: int | 0 <= x < 256

  newtype uint32 = x: int | 0 <= x < 0x1_0000_0000

  /** Go's `Hash`: any function from a byte string to 32 bits. */
  type Hash = seq<byte> -> uint32

  // ---------------------------------------------------------------------
  // strconv.Itoa for the replica numbers
  // ---------------------------------------------------------------------

  /** The ASCII digit for `d`. */
  function Digit(d: nat): byte
    requires d < 10
  {
    (48 + d) as byte
  }

  predicate IsDigit(b: byte) {
    48 <= b < 58
  }

  /** `strconv.Itoa(i)` for a non-negative `i`: its decimal digits. */
  function Itoa(i: nat): seq<byte> {
    if i < 10 then [Digit(i)] else Itoa(i / 10) + [Digit(i % 10)]
  }

  /** The number a string of decimal digits denotes. */
  function DecimalValue(s: seq<byte>): int {
    if s == [] then 0 else DecimalValue(s[..|s| - 1]) * 10 + (s[|s| - 1] as int - 48)
  }

  /** `Itoa` writes at least one digit, no leading zero, and reading the
      digits back gives the number. */
  lemma {:induction false} ItoaRoundTrip(i: nat)
    ensures |Itoa(i)| >= 1
    ensures forall k :: 0 <= k < |Itoa(i)| ==> IsDigit(Itoa(i)[k])
    ensures Itoa(i)[0] == Digit(0) ==> i == 0
    ensures DecimalValue(Itoa(i)) == i
  {
    if i < 10 {
      assert [Digit(i)][..0] == [];
    } else {
      ItoaRoundTrip(i / 10);
      var s := Itoa(i);
      assert s[..|s| - 1] == Itoa(i / 10);
    }
  }

  /** Different replica numbers give different prefixes. */
  lemma ItoaInjective(i: nat, j: nat)
    requires Itoa(i) == Itoa(j)
    ensures i == j
  {
    ItoaRoundTrip(i);
    ItoaRoundTrip(j);
  }

  // ---------------------------------------------------------------------
  // The points that Add creates and the map writes it makes
  // ---------------------------------------------------------------------

  /** The number of passes of `for i := 0; i < replicas; i++`. */
  function Reps(replicas: int): nat {
    if replicas < 0 then 0 else replicas
  }

  /** The point of replica `i` of `node`: `int(hash(Itoa(i) + node))`. */
  function ReplicaPoint(hash: Hash, node: seq<byte>, i: nat): int {
    hash(Itoa(i) + node) as int
  }

  /** The points of replicas 0 .. count-1 of `node`, in creation order. */
  function ReplicaPoints(hash: Hash, node: seq<byte>, count: nat): seq<int> {
    if count == 0 then []
    else ReplicaPoints(hash, node, count - 1) + [ReplicaPoint(hash, node, count - 1)]
  }

  /** The points one call `Add(nodes...)` appends, node by node. */
  function AddedPoints(hash: Hash, replicas: int, nodes: seq<seq<byte>>): seq<int> {
    if nodes == [] then []
    else AddedPoints(hash, replicas, nodes[..|nodes| - 1])
         + ReplicaPoints(hash, nodes[|nodes| - 1], Reps(replicas))
  }

  /** The writes `hashMap[point] = node` for replicas 0 .. count-1. */
  function AssignReplicas(m: map<int, seq<byte>>, hash: Hash, node: seq<byte>, count: nat)
    : map<int, seq<byte>>
  {
    if count == 0 then m
    else AssignReplicas(m, hash, node, count - 1)[ReplicaPoint(hash, node, count - 1) := node]
  }

  /** The map after the writes of one call `Add(nodes...)`, in order. */
  function Assign(m: map<int, seq<byte>>, hash: Hash, replicas: int, nodes: seq<seq<byte>>)
    : map<int, seq<byte>>
  {
    if nodes == [] then m
    else AssignReplicas(Assign(m, hash, replicas, nodes[..|nodes| - 1]), hash,
                        nodes[|nodes| - 1], Reps(replicas))
  }

  function Elems(s: seq<int>): set<int> {
    set x | x in s
  }

  lemma {:induction false} ReplicaPointsAt(hash: Hash, node: seq<byte>, count: nat)
    ensures |ReplicaPoints(hash, node, count)| == count
    ensures forall i :: 0 <= i < count ==> ReplicaPoints(hash, node, count)[i] == ReplicaPoint(hash, node, i)
  {
    if count > 0 {
      ReplicaPointsAt(hash, node, count - 1);
    }
  }

  /** `Add(nodes...)` creates `replicas` points per node (none for a
      negative count), `replicas * len(nodes)` in all. */
  lemma {:induction false} AddedPointsCount(hash: Hash, replicas: int, nodes: seq<seq<byte>>)
    ensures |AddedPoints(hash, replicas, nodes)| == Reps(replicas) * |nodes|
  {
    if nodes != [] {
      var r := Reps(replicas);
      var front := nodes[..|nodes| - 1];
      AddedPointsCount(hash, replicas, front);
      ReplicaPointsAt(hash, nodes[|nodes| - 1], r);
      MulSucc(r, |front|);
    }
  }

  lemma MulSucc(r: nat, a: nat)
    ensures r * (a + 1) == r * a + r
  {
  }

  /** The points of several nodes are those of each node in turn: node by
      node, and for one node its replicas 0, 1, ... in order. */
  lemma {:induction false} AddedPointsAppend(hash: Hash, replicas: int, a: seq<seq<byte>>, b: seq<seq<byte>>)
    ensures AddedPoints(hash, replicas, a + b) == AddedPoints(hash, replicas, a) + AddedPoints(hash, replicas, b)
  {
    if b == [] {
      assert a + b == a;
    } else {
      var b', last := b[..|b| - 1], b[|b| - 1];
      var rp := ReplicaPoints(hash, last, Reps(replicas));
      assert (a + b)[..|a + b| - 1] == a + b';
      assert (a + b)[|a + b| - 1] == last;
      assert AddedPoints(hash, replicas, a + b) == AddedPoints(hash, replicas, a + b') + rp;
      assert AddedPoints(hash, replicas, b) == AddedPoints(hash, replicas, b') + rp;
      AddedPointsAppend(hash, replicas, a, b');
      var pa, pb := AddedPoints(hash, replicas, a), AddedPoints(hash, replicas, b');
      assert pa + (pb + rp) == (pa + pb) + rp;
    }
  }

  lemma AddedPointsOne(hash: Hash, replicas: int, node: seq<byte>)
    ensures AddedPoints(hash, replicas, [node]) == ReplicaPoints(hash, node, Reps(replicas))
  {
    assert [node][..0] == [];
  }

  /** A point is in the map after `Add` exactly when it was before or `Add`
      created it. */
  lemma {:induction false} AssignReplicasKeys(m: map<int, seq<byte>>, hash: Hash, node: seq<byte>, count: nat)
    ensures AssignReplicas(m, hash, node, count).Keys == m.Keys + Elems(ReplicaPoints(hash, node, count))
  {
    if count > 0 {
      AssignReplicasKeys(m, hash, node, count - 1);
      ElemsConcat(ReplicaPoints(hash, node, count - 1), [ReplicaPoint(hash, node, count - 1)]);
    }
  }

  lemma {:induction false} AssignKeys(m: map<int, seq<byte>>, hash: Hash, replicas: int, nodes: seq<seq<byte>>)
    ensures Assign(m, hash, replicas, nodes).Keys == m.Keys + Elems(AddedPoints(hash, replicas, nodes))
  {
    if nodes != [] {
      var front := nodes[..|nodes| - 1];
      AssignKeys(m, hash, replicas, front);
      AssignReplicasKeys(Assign(m, hash, replicas, front), hash, nodes[|nodes| - 1], Reps(replicas));
      ElemsConcat(AddedPoints(hash, replicas, front), ReplicaPoints(hash, nodes[|nodes| - 1], Reps(replicas)));
    }
  }

  lemma ElemsConcat(a: seq<int>, b: seq<int>)
    ensures Elems(a + b) == Elems(a) + Elems(b)
  {
  }

  /** Points that `Add` does not create keep their mapping. */
  lemma {:induction false} AssignReplicasOther(m: map<int, seq<byte>>, hash: Hash, node: seq<byte>, count: nat, p: int)
    requires p !in Elems(ReplicaPoints(hash, node, count))
    ensures p in AssignReplicas(m, hash, node, count) <==> p in m
    ensures p in m ==> AssignReplicas(m, hash, node, count)[p] == m[p]
  {
    if count > 0 {
      ElemsConcat(ReplicaPoints(hash, node, count - 1), [ReplicaPoint(hash, node, count - 1)]);
      AssignReplicasOther(m, hash, node, count - 1, p);
    }
  }

  lemma {:induction false} AssignOther(m: map<int, seq<byte>>, hash: Hash, replicas: int, nodes: seq<seq<byte>>, p: int)
    requires p !in Elems(AddedPoints(hash, replicas, nodes))
    ensures p in Assign(m, hash, replicas, nodes) <==> p in m
    ensures p in m ==> Assign(m, hash, replicas, nodes)[p] == m[p]
  {
    if nodes != [] {
      var front := nodes[..|nodes| - 1];
      ElemsConcat(AddedPoints(hash, replicas, front), ReplicaPoints(hash, nodes[|nodes| - 1], Reps(replicas)));
      AssignOther(m, hash, replicas, front, p);
      AssignReplicasOther(Assign(m, hash, replicas, front), hash, nodes[|nodes| - 1], Reps(replicas), p);
    }
  }

  /** Every point `Add` creates maps to one of the nodes passed to it. */
  lemma {:induction false} AssignNew(m: map<int, seq<byte>>, hash: Hash, replicas: int, nodes: seq<seq<byte>>, p: int)
    requires p in Elems(AddedPoints(hash, replicas, nodes))
    ensures p in Assign(m, hash, replicas, nodes) && Assign(m, hash, replicas, nodes)[p] in nodes
  {
    var front := nodes[..|nodes| - 1];
    var last := nodes[|nodes| - 1];
    var r := Reps(replicas);
    ElemsConcat(AddedPoints(hash, replicas, front), ReplicaPoints(hash, last, r));
    var inner := Assign(m, hash, replicas, front);
    AssignReplicasKeys(inner, hash, last, r);
    if p in Elems(ReplicaPoints(hash, last, r)) {
      ReplicaPointsAt(hash, last, r);
      var i :| 0 <= i < r && ReplicaPoints(hash, last, r)[i] == p;
      LastWriteWins(inner, hash, last, r, i);
    } else {
      AssignNew(m, hash, replicas, front, p);
      AssignReplicasOther(inner, hash, last, r, p);
    }
  }

  /** Within the writes for one node, the node owns each of its points,
      whichever replicas collide. */
  lemma {:induction false} LastWriteWins(m: map<int, seq<byte>>, hash: Hash, node: seq<byte>, count: nat, i: nat)
    requires i < count
    ensures var p := ReplicaPoint(hash, node, i);
      p in AssignReplicas(m, hash, node, count) && AssignReplicas(m, hash, node, count)[p] == node
  {
    if i < count - 1 {
      LastWriteWins(m, hash, node, count - 1, i);
    }
  }

  /** Collisions: a point created for node `n` stays mapped to `n` unless a
      node later in the same call creates the same point, in which case
      the later node overwrites it. */
  lemma {:induction false} LaterNodeWins(m: map<int, seq<byte>>, hash: Hash, replicas: int,
                                          nodes: seq<seq<byte>>, n: nat, i: nat)
    requires n < |nodes| && i < Reps(replicas)
    requires ReplicaPoint(hash, nodes[n], i) !in Elems(AddedPoints(hash, replicas, nodes[n + 1..]))
    ensures var p := ReplicaPoint(hash, nodes[n], i);
      p in Assign(m, hash, replicas, nodes) && Assign(m, hash, replicas, nodes)[p] == nodes[n]
  {
    var p := ReplicaPoint(hash, nodes[n], i);
    var front := nodes[..|nodes| - 1];
    var last := nodes[|nodes| - 1];
    var r := Reps(replicas);
    if n == |nodes| - 1 {
      LastWriteWins(Assign(m, hash, replicas, front), hash, last, r, i);
    } else {
      assert front[n] == nodes[n];
      var tail := nodes[n + 1..];
      assert tail[..|tail| - 1] == front[n + 1..];
      assert tail[|tail| - 1] == last;
      ElemsConcat(AddedPoints(hash, replicas, front[n + 1..]), ReplicaPoints(hash, last, r));
      LaterNodeWins(m, hash, replicas, front, n, i);
      AssignKeys(m, hash, replicas, front);
      AssignReplicasOther(Assign(m, hash, replicas, front), hash, last, r, p);
    }
  }

  // ---------------------------------------------------------------------
  // sort.Ints and sort.Search
  // ---------------------------------------------------------------------

  predicate Sorted(s: seq<int>) {
    forall i, j :: 0 <= i < j < |s| ==> s[i] <= s[j]
  }

  /** `x` inserted before the first element not smaller than it. */
  function Insert(s: seq<int>, x: int): (r: seq<int>)
    ensures multiset(r) == multiset(s) + multiset{x}
  {
    if s == [] then [x]
    else if x <= s[0] then [x] + s
    else
      assert s == [s[0]] + s[1..];
      [s[0]] + Insert(s[1..], x)
  }

  predicate AtLeast(a: int, s: seq<int>) {
    forall k :: 0 <= k < |s| ==> a <= s[k]
  }

  lemma AtLeastCons(a: int, b: int, t: seq<int>)
    requires a <= b && AtLeast(a, t)
    ensures AtLeast(a, [b] + t)
  {
    var r := [b] + t;
    forall k | 0 <= k < |r|
      ensures a <= r[k]
    {
      if k > 0 {
        assert r[k] == t[k - 1];
      }
    }
  }

  /** Inserting a value no smaller than a bound keeps every element above it. */
  lemma {:induction false} InsertAtLeast(s: seq<int>, x: int, a: int)
    requires a <= x && AtLeast(a, s)
    ensures AtLeast(a, Insert(s, x))
  {
    if s == [] {
    } else if x <= s[0] {
      AtLeastCons(a, x, s);
    } else {
      assert AtLeast(a, s[1..]) by {
        forall k | 0 <= k < |s[1..]|
          ensures a <= s[1..][k]
        {
          assert s[1..][k] == s[k + 1];
        }
      }
      InsertAtLeast(s[1..], x, a);
      AtLeastCons(a, s[0], Insert(s[1..], x));
    }
  }

  lemma SortedCons(a: int, t: seq<int>)
    requires Sorted(t) && AtLeast(a, t)
    ensures Sorted([a] + t)
  {
    var r := [a] + t;
    forall i, j | 0 <= i < j < |r|
      ensures r[i] <= r[j]
    {
      assert r[j] == t[j - 1];
      if i > 0 {
        assert r[i] == t[i - 1];
      }
    }
  }

  /** Inserting into a sorted list keeps it sorted. */
  lemma {:induction false} InsertSorted(s: seq<int>, x: int)
    requires Sorted(s)
    ensures Sorted(Insert(s, x))
  {
    if s == [] {
    } else if x <= s[0] {
      assert AtLeast(x, s) by {
        forall k | 0 <= k < |s|
          ensures x <= s[k]
        {
          assert s[0] <= s[k];
        }
      }
      SortedCons(x, s);
    } else {
      var tail := s[1..];
      assert Sorted(tail) by {
        forall i, j | 0 <= i < j < |tail|
          ensures tail[i] <= tail[j]
        {
          assert tail[i] == s[i + 1] && tail[j] == s[j + 1];
        }
      }
      assert AtLeast(s[0], tail) by {
        forall k | 0 <= k < |tail|
          ensures s[0] <= tail[k]
        {
          assert tail[k] == s[k + 1];
        }
      }
      InsertSorted(tail, x);
      InsertAtLeast(tail, x, s[0]);
      SortedCons(s[0], Insert(tail, x));
    }
  }

  /** `sort.Ints`: the same integers in ascending order, duplicates kept,
      specified by an insertion sort. */
  function Sort(s: seq<int>): (r: seq<int>)
    ensures multiset(r) == multiset(s)
  {
    if s == [] then []
    else
      assert s == s[..|s| - 1] + [s[|s| - 1]];
      Insert(Sort(s[..|s| - 1]), s[|s| - 1])
  }

  lemma {:induction false} SortSorted(s: seq<int>)
    ensures Sorted(Sort(s))
  {
    if s != [] {
      SortSorted(s[..|s| - 1]);
      InsertSorted(Sort(s[..|s| - 1]), s[|s| - 1]);
    }
  }

  /** The head of a sorted list is its least element. */
  lemma HeadIsLeast(s: seq<int>, x: int)
    requires Sorted(s) && x in multiset(s)
    ensures s != [] && s[0] <= x
  {
    assert x in s;
  }

  lemma SortedTail(s: seq<int>)
    requires Sorted(s) && s != []
    ensures Sorted(s[1..])
  {
    forall i, j | 0 <= i < j < |s[1..]|
      ensures s[1..][i] <= s[1..][j]
    {
      assert s[1..][i] == s[i + 1] && s[1..][j] == s[j + 1];
    }
  }

  lemma MultisetCancel(x: int, p: multiset<int>, q: multiset<int>)
    requires multiset{x} + p == multiset{x} + q
    ensures p == q
  {
    forall y
      ensures p[y] == q[y]
    {
      assert (multiset{x} + p)[y] == (multiset{x} + q)[y];
    }
  }

  /** Two sorted lists holding the same integers are the same list. */
  lemma {:induction false} SortedUnique(a: seq<int>, b: seq<int>)
    requires Sorted(a) && Sorted(b) && multiset(a) == multiset(b)
    ensures a == b
  {
    if a == [] {
      assert |b| == |multiset(b)| == 0;
    } else {
      var x := a[0];
      assert b != [] && x == b[0] by {
        assert a[0] in a;
        HeadIsLeast(b, a[0]);
        assert b[0] in b;
        HeadIsLeast(a, b[0]);
      }
      assert multiset(a[1..]) == multiset(b[1..]) by {
        assert a == [x] + a[1..] && b == [x] + b[1..];
        assert multiset(a) == multiset{x} + multiset(a[1..]);
        assert multiset(b) == multiset{x} + multiset(b[1..]);
        MultisetCancel(x, multiset(a[1..]), multiset(b[1..]));
      }
      SortedTail(a);
      SortedTail(b);
      SortedUnique(a[1..], b[1..]);
      assert a == [x] + a[1..] && b == [x] + b[1..];
    }
  }

  /** Any order of `s` that is sorted is `Sort(s)`, so `Sort` fixes the
      result of `sort.Ints` whatever its algorithm. */
  lemma SortIsTheSortedOrder(s: seq<int>, r: seq<int>)
    requires Sorted(r) && multiset(r) == multiset(s)
    ensures r == Sort(s)
  {
    SortSorted(s);
    SortedUnique(r, Sort(s));
  }

  /** The first index whose point is at least `h`, or `|s|` if none is:
      a plain left-to-right scan. */
  function LowerBound(s: seq<int>, h: int): (j: nat)
    ensures j <= |s|
  {
    if s == [] then 0 else if s[0] >= h then 0 else 1 + LowerBound(s[1..], h)
  }

  lemma {:induction false} LowerBoundLeast(s: seq<int>, h: int)
    ensures forall i :: 0 <= i < LowerBound(s, h) ==> s[i] < h
    ensures LowerBound(s, h) < |s| ==> s[LowerBound(s, h)] >= h
  {
    if s != [] && s[0] < h {
      LowerBoundLeast(s[1..], h);
    }
  }

  /** An index with only smaller points before it and a point at least `h`
      at it (or the end) is the lower bound. */
  lemma {:induction false} LowerBoundFrom(s: seq<int>, h: int, j: nat)
    requires j <= |s|
    requires forall i :: 0 <= i < j ==> s[i] < h
    requires j < |s| ==> s[j] >= h
    ensures LowerBound(s, h) == j
  {
    if s != [] && j > 0 {
      LowerBoundFrom(s[1..], h, j - 1);
    }
  }

  /** `sort.Search(len(s), func(i int) bool { return s[i] >= h })`: a
      binary search that, on a sorted list, finds the lower bound. */
  method Search(s: seq<int>, h: int) returns (idx: int)
    requires Sorted(s)
    ensures idx == LowerBound(s, h)
  {
    var i, j := 0, |s|;
    while i < j
      invariant 0 <= i <= j <= |s|
      invariant forall k :: 0 <= k < i ==> s[k] < h
      invariant forall k :: j <= k < |s| ==> s[k] >= h
      decreases j - i
    {
      var mid := (i + j) / 2;
      if s[mid] < h {
        i := mid + 1;
      } else {
        j := mid;
      }
    }
    LowerBoundFrom(s, h, i);
    idx := i;
  }

  // ---------------------------------------------------------------------
  // Lookup on the ring
  // ---------------------------------------------------------------------

  /** Go's map index: the zero value "" for a missing point. */
  function Lookup(m: map<int, seq<byte>>, p: int): seq<byte> {
    if p in m then m[p] else []
  }

  /** The index `Get` picks: the lower bound, or 0 past the end. */
  function Wrap(j: nat, n: nat): nat {
    if j == n then 0 else j
  }

  /** What `Get` returns for a key hashing to `h`: "" on an empty ring,
      otherwise the node of the point at the wrapped lower bound. */
  function Owner(keys: seq<int>, hashMap: map<int, seq<byte>>, h: int): seq<byte> {
    if keys == [] then []
    else
      var j := Wrap(LowerBound(keys, h), |keys|);
      assert j < |keys|;
      Lookup(hashMap, keys[j])
  }

  /** `p` is the first point of `pts` clockwise from `h`: the least point
      at or after `h`, or, when no point is, the least point of all. */
  ghost predicate IsSuccessor(pts: set<int>, h: int, p: int) {
    && p in pts
    && if exists q :: q in pts && q >= h
       then p >= h && forall q :: q in pts && q >= h ==> p <= q
       else forall q :: q in pts ==> p <= q
  }

  lemma SuccessorUnique(pts: set<int>, h: int, p: int, p': int)
    requires IsSuccessor(pts, h, p) && IsSuccessor(pts, h, p')
    ensures p == p'
  {
  }

  /** A successor in a larger point set that is also in a smaller one is
      the successor there too. */
  lemma SuccessorSubset(a: set<int>, b: set<int>, h: int, p: int)
    requires a <= b && p in a && IsSuccessor(b, h, p)
    ensures IsSuccessor(a, h, p)
  {
    if exists q :: q in b && q >= h {
      assert p >= h;
    }
  }

  /** On a sorted, non-empty ring the wrapped lower bound is the first
      point clockwise from `h`. */
  lemma WrappedLowerBoundIsSuccessor(keys: seq<int>, h: int)
    requires Sorted(keys) && keys != []
    ensures IsSuccessor(Elems(keys), h, keys[Wrap(LowerBound(keys, h), |keys|)])
  {
    var j := LowerBound(keys, h);
    LowerBoundLeast(keys, h);
    if j < |keys| {
      forall q | q in Elems(keys) && q >= h
        ensures keys[j] <= q
      {
        var k :| 0 <= k < |keys| && keys[k] == q;
        assert k >= j;
      }
    } else {
      forall q | q in Elems(keys)
        ensures keys[0] <= q && q < h
      {
        var k :| 0 <= k < |keys| && keys[k] == q;
      }
      assert keys[0] in Elems(keys);
    }
  }

  /** Consistency: after `Add(nodes...)` a key is served either by the node
      that served it before or by one of the nodes just added. */
  lemma AddMovesKeysOnlyToNewNodes(keys: seq<int>, hashMap: map<int, seq<byte>>, hash: Hash,
                                   replicas: int, nodes: seq<seq<byte>>, keys': seq<int>, h: int)
    requires Sorted(keys) && Sorted(keys')
    requires multiset(keys') == multiset(keys) + multiset(AddedPoints(hash, replicas, nodes))
    ensures var after := Owner(keys', Assign(hashMap, hash, replicas, nodes), h);
      after == Owner(keys, hashMap, h) || after in nodes
  {
    var added := AddedPoints(hash, replicas, nodes);
    var m' := Assign(hashMap, hash, replicas, nodes);
    assert Elems(keys') == Elems(keys) + Elems(added) by {
      assert forall x :: x in keys' <==> x in multiset(keys');
      assert forall x :: x in keys <==> x in multiset(keys);
      assert forall x :: x in added <==> x in multiset(added);
    }
    if keys' != [] {
      var p' := keys'[Wrap(LowerBound(keys', h), |keys'|)];
      WrappedLowerBoundIsSuccessor(keys', h);
      assert p' in Elems(keys');
      if p' in Elems(added) {
        AssignNew(hashMap, hash, replicas, nodes, p');
      } else {
        AssignOther(hashMap, hash, replicas, nodes, p');
        assert p' in Elems(keys);
        var p := keys[Wrap(LowerBound(keys, h), |keys|)];
        WrappedLowerBoundIsSuccessor(keys, h);
        SuccessorSubset(Elems(keys), Elems(keys'), h, p');
        SuccessorUnique(Elems(keys), h, p, p');
      }
    }
  }

  /** The points are sorted, the mapped points are exactly the listed
      ones, and every mapped node is one of `added`. */
  ghost predicate RingValid(keys: seq<int>, hashMap: map<int, seq<byte>>, added: set<seq<byte>>) {
    && Sorted(keys)
    && Elems(keys) == hashMap.Keys
    && forall p :: p in hashMap ==> hashMap[p] in added
  }

  lemma SameElems(a: seq<int>, b: seq<int>)
    requires multiset(a) == multiset(b)
    ensures Elems(a) == Elems(b)
  {
    assert forall x :: x in a <==> x in multiset(a);
    assert forall x :: x in b <==> x in multiset(b);
  }

  /** `Add(nodes...)` keeps the ring well formed: once the old points and
      the new ones are sorted together, every point is mapped, and every
      mapped node is an old one or one of `nodes`. */
  lemma AddPreservesRing(keys: seq<int>, hashMap: map<int, seq<byte>>, added: set<seq<byte>>,
                         hash: Hash, replicas: int, nodes: seq<seq<byte>>, keys': seq<int>)
    requires RingValid(keys, hashMap, added)
    requires Sorted(keys')
    requires multiset(keys') == multiset(keys + AddedPoints(hash, replicas, nodes))
    ensures RingValid(keys', Assign(hashMap, hash, replicas, nodes), added + set n | n in nodes)
  {
    var points := AddedPoints(hash, replicas, nodes);
    var m' := Assign(hashMap, hash, replicas, nodes);
    SameElems(keys', keys + points);
    ElemsConcat(keys, points);
    AssignKeys(hashMap, hash, replicas, nodes);
    forall p | p in m'
      ensures m'[p] in added + set n | n in nodes
    {
      if p in Elems(points) {
        AssignNew(hashMap, hash, replicas, nodes, p);
      } else {
        AssignOther(hashMap, hash, replicas, nodes, p);
      }
    }
  }

  /** The inner loop of `Add`: append and map the points of replicas
      0 .. replicas-1 of `node`. */
  method AddReplicas(hash: Hash, replicas: int, node: seq<byte>,
                     keys: seq<int>, hashMap: map<int, seq<byte>>)
    returns (keys': seq<int>, hashMap': map<int, seq<byte>>)
    ensures keys' == keys + ReplicaPoints(hash, node, Reps(replicas))
    ensures hashMap' == AssignReplicas(hashMap, hash, node, Reps(replicas))
  {
    keys', hashMap' := keys, hashMap;
    var i: nat := 0;
    while i < replicas
      invariant i <= Reps(replicas)
      invariant keys' == keys + ReplicaPoints(hash, node, i)
      invariant hashMap' == AssignReplicas(hashMap, hash, node, i)
    {
      var point := hash(Itoa(i) + node) as int;
      assert point == ReplicaPoint(hash, node, i);
      ghost var r := ReplicaPoints(hash, node, i);
      assert ReplicaPoints(hash, node, i + 1) == r + [point];
      assert keys + (r + [point]) == (keys + r) + [point];
      keys' := keys' + [point];
      hashMap' := hashMap'[point := node];
      i := i + 1;
    }
  }

  /** The outer loop of `Add`: the replicas of each node in turn. */
  method AddNodes(hash: Hash, replicas: int, nodes: seq<seq<byte>>,
                  keys: seq<int>, hashMap: map<int, seq<byte>>)
    returns (keys': seq<int>, hashMap': map<int, seq<byte>>)
    ensures keys' == keys + AddedPoints(hash, replicas, nodes)
    ensures hashMap' == Assign(hashMap, hash, replicas, nodes)
  {
    keys', hashMap' := keys, hashMap;
    var n := 0;
    while n < |nodes|
      invariant 0 <= n <= |nodes|
      invariant keys' == keys + AddedPoints(hash, replicas, nodes[..n])
      invariant hashMap' == Assign(hashMap, hash, replicas, nodes[..n])
    {
      var node := nodes[n];
      ghost var ks0, hm0 := keys', hashMap';
      keys', hashMap' := AddReplicas(hash, replicas, node, keys', hashMap');
      ghost var done := nodes[..n + 1];
      ghost var rp := ReplicaPoints(hash, node, Reps(replicas));
      assert done[..n] == nodes[..n] && done[n] == node;
      assert AddedPoints(hash, replicas, done) == AddedPoints(hash, replicas, nodes[..n]) + rp;
      assert keys + (AddedPoints(hash, replicas, nodes[..n]) + rp)
          == (keys + AddedPoints(hash, replicas, nodes[..n])) + rp;
      assert Assign(hashMap, hash, replicas, done) == AssignReplicas(hm0, hash, node, Reps(replicas));
      n := n + 1;
    }
    assert nodes[..|nodes|] == nodes;
  }

  // ---------------------------------------------------------------------
  // The ring object
  // ---------------------------------------------------------------------

  /** The ring of consistenthash/consistenthash.go. `added` is the set of
      node names passed to `Add` so far. */
  class Map {
    const hash: Hash
    const replicas: int
    var keys: seq<int>
    var hashMap: map<int, seq<byte>>
    ghost var added: set<seq<byte>>

    /** The points are sorted, the mapped points are exactly the listed
        ones, and every mapped node was added. */
    ghost predicate Valid()
      reads this
    {
      RingValid(keys, hashMap, added)
    }

    /** `New(replicas, fn)`. A nil `fn` (`None`) selects the library
        checksum, which is passed in as `checksumIEEE`. */
    constructor (replicas: int, fn: Option<Hash>, checksumIEEE: Hash)
      ensures Valid() && IsEmpty()
      ensures this.replicas == replicas
      ensures this.hash == (if fn.Some? then fn.value else checksumIEEE)
      ensures keys == [] && hashMap == map[] && added == {}
    {
      this.replicas := replicas;
      if fn.Some? {
        this.hash := fn.value;
      } else {
        this.hash := checksumIEEE;
      }
      keys := [];
      hashMap := map[];
      added := {};
    }

    predicate IsEmpty(): (r: bool)
      reads this
      ensures r <==> keys == []
    {
      |keys| == 0
    }

    /** The ring has no points exactly when no node is mapped. */
    lemma EmptyMeansNoNodes()
      requires Valid()
      ensures IsEmpty() <==> hashMap == map[]
    {
      if !IsEmpty() {
        assert keys[0] in Elems(keys);
      }
    }

    /** `Add(nodes...)`: append and map the replica points of each node,
        then sort the points. */
    method Add(nodes: seq<seq<byte>>)
      requires Valid()
      modifies this
      ensures Valid()
      ensures keys == Sort(old(keys) + AddedPoints(hash, replicas, nodes))
      ensures multiset(keys) == multiset(old(keys)) + multiset(AddedPoints(hash, replicas, nodes))
      ensures hashMap == Assign(old(hashMap), hash, replicas, nodes)
      ensures added == old(added) + set n | n in nodes
    {
      var ks0, hm := AddNodes(hash, replicas, nodes, keys, hashMap);
      var ks := Sort(ks0);
      SortSorted(ks0);
      AddPreservesRing(keys, hashMap, added, hash, replicas, nodes, ks);
      keys, hashMap := ks, hm;
      added := added + set n | n in nodes;
    }

    /** `Get(key)`: "" on an empty ring, otherwise the node of the first
        point clockwise from the key's hash, which is always an added node. */
    method Get(key: seq<byte>) returns (r: seq<byte>)
      requires Valid()
      ensures r == Owner(keys, hashMap, hash(key) as int)
      ensures IsEmpty() ==> r == []
      ensures !IsEmpty() ==> r in added
    {
      if IsEmpty() {
        return [];
      }
      var h := hash(key) as int;
      var idx := Search(keys, h);
      if idx == |keys| {
        idx := 0;
      }
      assert keys[idx] in Elems(keys);
      r := hashMap[keys[idx]];
    }
  }

  /** Two nodes whose points collide: both points stay in the list, and
      the node added later owns them. */
  lemma CollidingNodes(hash: Hash)
    requires forall s :: hash(s) == 7
    ensures AddedPoints(hash, 1, [[97], [98]]) == [7, 7]
    ensures Assign(map[], hash, 1, [[97], [98]]) == map[7 := [98]]
  {
    var nodes: seq<seq<byte>> := [[97], [98]];
    assert nodes[..1] == [[97]];
    assert nodes[..1][..0] == [];
    assert ReplicaPoint(hash, [97], 0) == 7 && ReplicaPoint(hash, [98], 0) == 7;
    assert Assign(map[], hash, 1, nodes[..1]) == map[7 := [97]];
    assert Assign(map[], hash, 1, nodes) == map[7 := [97]][7 := [98]];
  }
}
