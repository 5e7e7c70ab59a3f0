/** How items are distributed over bucket chains, apart from any links: placement by masked hash,
    the effect of one addition, deletion and doubling, and the item counts HASH_FSCK adds up. */
module Buckets {
  import opened Items
  import opened Bits

  type Hasher = Key -> nat

  /** HASH_TO_BKT for an item under n buckets. */
  function BktOf(hash: Hasher, x: Item, n: nat): nat
    requires n > 0
  {
    And(hash(x.key), n - 1)
  }

  function Elems<T>(s: seq<T>): set<T> {
    set x | x in s
  }

  ghost predicate ChainPlaced(hash: Hasher, S: set<Item>, chain: seq<Item>, b: nat, n: nat)
    requires n > 0
  {
    && Distinct(chain)
    && forall i | 0 <= i < |chain| :: chain[i] in S && BktOf(hash, chain[i], n) == b
  }

  /** Every item of S stands exactly once, in the chain its masked hash names. */
  ghost predicate Placed(hash: Hasher, S: set<Item>, chains: seq<seq<Item>>) {
    && |chains| > 0
    && (forall b | 0 <= b < |chains| :: ChainPlaced(hash, S, chains[b], b, |chains|))
    && (forall x | x in S :: BktOf(hash, x, |chains|) < |chains| && x in chains[BktOf(hash, x, |chains|)])
  }

  lemma PlacedAdd(hash: Hasher, S: set<Item>, chains: seq<seq<Item>>, x: Item, b: nat)
    requires Placed(hash, S, chains) && x !in S && b == BktOf(hash, x, |chains|) < |chains|
    ensures Placed(hash, S + {x}, chains[b := [x] + chains[b]])
  {
    var chains' := chains[b := [x] + chains[b]];
    forall k | 0 <= k < |chains'| ensures ChainPlaced(hash, S + {x}, chains'[k], k, |chains'|) {
      assert ChainPlaced(hash, S, chains[k], k, |chains|);
    }
    forall y | y in S + {x} ensures y in chains'[BktOf(hash, y, |chains'|)] {
      if y in S { assert y in chains[BktOf(hash, y, |chains|)]; }
    }
  }

  lemma PlacedRemove(hash: Hasher, S: set<Item>, chains: seq<seq<Item>>, x: Item, b: nat, k: nat)
    requires Placed(hash, S, chains) && b < |chains| && k < |chains[b]| && chains[b][k] == x
    ensures x in S && b == BktOf(hash, x, |chains|)
    ensures Placed(hash, S - {x}, chains[b := chains[b][..k] + chains[b][k + 1..]])
  {
    var c := chains[b];
    assert ChainPlaced(hash, S, c, b, |chains|);
    assert x in c;
    var chains' := chains[b := c[..k] + c[k + 1..]];
    forall i | 0 <= i < |chains'| ensures ChainPlaced(hash, S - {x}, chains'[i], i, |chains'|) {
      assert ChainPlaced(hash, S, chains[i], i, |chains|);
      if i == b { RemovedFrom(c, k); }
    }
    forall y | y in S - {x} ensures y in chains'[BktOf(hash, y, |chains'|)] {
      assert y in chains[BktOf(hash, y, |chains|)];
      RemovedFrom(c, k);
    }
  }

  lemma RemovedFrom(c: seq<Item>, k: nat)
    requires Distinct(c) && k < |c|
    ensures Distinct(c[..k] + c[k + 1..])
    ensures forall y :: y in c[..k] + c[k + 1..] <==> y in c && y != c[k]
  {
    var d := c[..k] + c[k + 1..];
    assert forall i | 0 <= i < |d| :: d[i] == if i < k then c[i] else c[i + 1];
    forall y | y in c && y != c[k] ensures y in d {
      var i :| 0 <= i < |c| && c[i] == y;
      assert d[if i < k then i else i - 1] == y;
    }
  }

  // ---------------------------------------------------------------- looking for a key

  /** Some item of s carries the key. */
  ghost predicate Holds(s: seq<Item>, key: Key) {
    exists i | 0 <= i < |s| :: s[i].key == key
  }

  /** The first item of s with the key, or null. */
  function ItemWith(s: seq<Item>, key: Key): Item? {
    if s == [] then null
    else if s[0].key == key then s[0]
    else ItemWith(s[1..], key)
  }

  lemma {:induction false} ItemWithSpec(s: seq<Item>, key: Key)
    ensures ItemWith(s, key) == null <==> !Holds(s, key)
    ensures ItemWith(s, key) != null ==> ItemWith(s, key) in s && ItemWith(s, key).key == key
    ensures ItemWith(s, key) != null ==>
              exists i | 0 <= i < |s| :: s[i] == ItemWith(s, key) && forall j | 0 <= j < i :: s[j].key != key
  {
    if s != [] && s[0].key != key {
      ItemWithSpec(s[1..], key);
      if ItemWith(s, key) != null {
        var i :| 0 <= i < |s[1..]| && s[1..][i] == ItemWith(s, key) && forall j | 0 <= j < i :: s[1..][j].key != key;
        assert s[i + 1] == ItemWith(s, key) && forall j | 1 <= j < i + 1 :: s[j].key == s[1..][j - 1].key;
      }
      if Holds(s, key) {
        var i :| 0 <= i < |s| && s[i].key == key;
        assert s[1..][i - 1].key == key;
      }
      if Holds(s[1..], key) {
        var i :| 0 <= i < |s[1..]| && s[1..][i].key == key;
        assert s[i + 1].key == key;
      }
    }
  }

  lemma {:induction false} ItemWithSkips(s: seq<Item>, key: Key, i: nat)
    requires i <= |s| && forall j | 0 <= j < i :: s[j].key != key
    ensures ItemWith(s, key) == ItemWith(s[i..], key)
  {
    if i > 0 {
      ItemWithSkips(s[1..], key, i - 1);
      assert s[1..][i - 1..] == s[i..];
    }
  }

  // ---------------------------------------------------------------- redistribution

  /** Chain b after the items of v were moved one by one to the front of their chain among n. */
  function Dist(hash: Hasher, n: nat, v: seq<Item>, b: nat): seq<Item>
    requires n > 0
  {
    if v == [] then []
    else
      var x := v[|v| - 1];
      (if BktOf(hash, x, n) == b then [x] else []) + Dist(hash, n, v[..|v| - 1], b)
  }

  function DistAll(hash: Hasher, n: nat, v: seq<Item>): (r: seq<seq<Item>>)
    requires n > 0
    ensures |r| == n && forall b | 0 <= b < n :: r[b] == Dist(hash, n, v, b)
  {
    seq(n, b requires 0 <= b < n => Dist(hash, n, v, b))
  }

  lemma DistNothing(hash: Hasher, n: nat)
    requires n > 0
    ensures forall b | 0 <= b < n :: DistAll(hash, n, [])[b] == []
  {
  }

  /** Moving one more item puts it in front of its chain. */
  lemma DistSnoc(hash: Hasher, n: nat, v: seq<Item>, x: Item)
    requires n > 0 && BktOf(hash, x, n) < n
    ensures var b := BktOf(hash, x, n);
            DistAll(hash, n, v + [x]) == DistAll(hash, n, v)[b := [x] + DistAll(hash, n, v)[b]]
  {
    forall b | 0 <= b < n
      ensures DistAll(hash, n, v + [x])[b]
           == if BktOf(hash, x, n) == b then [x] + DistAll(hash, n, v)[b] else DistAll(hash, n, v)[b]
    {
      assert (v + [x])[..|v|] == v;
      assert [] + Dist(hash, n, v, b) == Dist(hash, n, v, b);
    }
  }

  lemma {:induction false} DistMembers(hash: Hasher, n: nat, v: seq<Item>, b: nat)
    requires n > 0
    ensures forall i | 0 <= i < |Dist(hash, n, v, b)| ::
              Dist(hash, n, v, b)[i] in v && BktOf(hash, Dist(hash, n, v, b)[i], n) == b
    ensures forall i | 0 <= i < |v| && BktOf(hash, v[i], n) == b :: v[i] in Dist(hash, n, v, b)
    ensures Distinct(v) ==> Distinct(Dist(hash, n, v, b))
  {
    if v != [] {
      var front, x := v[..|v| - 1], v[|v| - 1];
      DistMembers(hash, n, front, b);
      assert v == front + [x];
      assert Distinct(v) ==> x !in front;
    }
  }

  /** Any complete tour of the items redistributes them correctly. */
  lemma DistPlaced(hash: Hasher, n: nat, v: seq<Item>)
    requires n > 0 && Distinct(v) && forall i | 0 <= i < |v| :: BktOf(hash, v[i], n) < n
    ensures Placed(hash, Elems(v), DistAll(hash, n, v))
  {
    var chains := DistAll(hash, n, v);
    forall b | 0 <= b < n ensures ChainPlaced(hash, Elems(v), chains[b], b, n) {
      DistMembers(hash, n, v, b);
    }
    forall i | 0 <= i < |v| ensures v[i] in chains[BktOf(hash, v[i], n)] {
      DistMembers(hash, n, v, BktOf(hash, v[i], n));
    }
  }

  // ---------------------------------------------------------------- the tour of all chains

  /** The chains one after the other: the order in which an expansion visits the items. */
  function Flat(chains: seq<seq<Item>>): seq<Item> {
    if chains == [] then [] else Flat(chains[..|chains| - 1]) + chains[|chains| - 1]
  }

  /** The tour of the first k chains visits every item of those chains once. */
  lemma {:induction false} FlatOfPlaced(hash: Hasher, S: set<Item>, chains: seq<seq<Item>>, n: nat)
    requires n > 0 && forall b | 0 <= b < |chains| :: ChainPlaced(hash, S, chains[b], b, n)
    ensures Distinct(Flat(chains))
    ensures forall i | 0 <= i < |Flat(chains)| :: Flat(chains)[i] in S && BktOf(hash, Flat(chains)[i], n) < |chains|
  {
    if chains != [] {
      var front, last := chains[..|chains| - 1], chains[|chains| - 1];
      forall b | 0 <= b < |front| ensures ChainPlaced(hash, S, front[b], b, n) {
        assert ChainPlaced(hash, S, chains[b], b, n);
      }
      FlatOfPlaced(hash, S, front, n);
      assert ChainPlaced(hash, S, last, |chains| - 1, n);
      forall i, j | 0 <= i < |Flat(front)| && 0 <= j < |last| ensures Flat(front)[i] != last[j] {
        assert BktOf(hash, Flat(front)[i], n) < |front|;
      }
    }
  }

  lemma {:induction false} InFlat(chains: seq<seq<Item>>, b: nat, x: Item)
    requires b < |chains| && x in chains[b]
    ensures x in Flat(chains)
  {
    if b < |chains| - 1 { InFlat(chains[..|chains| - 1], b, x); }
  }

  lemma PlacedTour(hash: Hasher, S: set<Item>, chains: seq<seq<Item>>)
    requires Placed(hash, S, chains)
    ensures Distinct(Flat(chains)) && Elems(Flat(chains)) == S
  {
    FlatOfPlaced(hash, S, chains, |chains|);
    forall x | x in S ensures x in Flat(chains) {
      InFlat(chains, BktOf(hash, x, |chains|), x);
    }
  }

  function Lengths(chains: seq<seq<Item>>): (r: seq<nat>)
    ensures |r| == |chains| && forall b | 0 <= b < |r| :: r[b] == |chains[b]|
  {
    seq(|chains|, b requires 0 <= b < |chains| => |chains[b]|)
  }

  lemma {:induction false} SumSnoc(counts: seq<nat>, c: nat)
    ensures Sum(counts + [c]) == Sum(counts) + c
  {
    if counts != [] {
      assert (counts + [c])[1..] == counts[1..] + [c];
      SumSnoc(counts[1..], c);
    }
  }

  lemma {:induction false} FlatLength(chains: seq<seq<Item>>)
    ensures |Flat(chains)| == Sum(Lengths(chains))
  {
    if chains != [] {
      var front := chains[..|chains| - 1];
      FlatLength(front);
      assert Lengths(chains) == Lengths(front) + [|chains[|chains| - 1]|];
      SumSnoc(Lengths(front), |chains[|chains| - 1]|);
    }
  }

  lemma {:induction false} DistinctCount(s: seq<Item>)
    requires Distinct(s)
    ensures |Elems(s)| == |s|
  {
    if s != [] {
      var front, x := s[..|s| - 1], s[|s| - 1];
      DistinctCount(front);
      assert x !in Elems(front);
      assert Elems(s) == Elems(front) + {x};
    }
  }

  /** HASH_FSCK's total: the bucket counts add up to the number of items. */
  lemma PlacedCount(hash: Hasher, S: set<Item>, chains: seq<seq<Item>>)
    requires Placed(hash, S, chains)
    ensures Sum(Lengths(chains)) == |S|
  {
    PlacedTour(hash, S, chains);
    FlatLength(chains);
    DistinctCount(Flat(chains));
  }

  // ---------------------------------------------------------------- what doubling does to one chain

  function Filter(hash: Hasher, n: nat, c: seq<Item>, b: nat): seq<Item>
    requires n > 0
  {
    if c == [] then []
    else (if BktOf(hash, c[0], n) == b then [c[0]] else []) + Filter(hash, n, c[1..], b)
  }

  lemma DistLast(hash: Hasher, n: nat, v: seq<Item>, x: Item, b: nat)
    requires n > 0
    ensures Dist(hash, n, v + [x], b) == (if BktOf(hash, x, n) == b then [x] else []) + Dist(hash, n, v, b)
  {
    assert (v + [x])[..|v|] == v;
  }

  lemma {:induction false} DistAppend(hash: Hasher, n: nat, v: seq<Item>, w: seq<Item>, b: nat)
    requires n > 0
    ensures Dist(hash, n, v + w, b) == Dist(hash, n, w, b) + Dist(hash, n, v, b)
  {
    hide Dist;
    if w == [] {
      EmptyDist(hash, n, b);
      assert v + w == v;
    } else {
      var front, x := w[..|w| - 1], w[|w| - 1];
      assert w == front + [x] && v + w == v + front + [x];
      DistLast(hash, n, v + front, x, b);
      DistLast(hash, n, front, x, b);
      DistAppend(hash, n, v, front, b);
    }
  }

  lemma FilterCons(hash: Hasher, n: nat, x: Item, rest: seq<Item>, b: nat)
    requires n > 0
    ensures Filter(hash, n, [x] + rest, b) == if BktOf(hash, x, n) == b then [x] + Filter(hash, n, rest, b)
                                             else Filter(hash, n, rest, b)
  {
    assert ([x] + rest)[1..] == rest;
  }

  lemma ReverseCons(x: Item, s: seq<Item>)
    ensures Reverse([x] + s) == Reverse(s) + [x]
  {
  }

  lemma {:induction false} DistReversesFilter(hash: Hasher, n: nat, c: seq<Item>, b: nat)
    requires n > 0
    ensures Dist(hash, n, c, b) == Reverse(Filter(hash, n, c, b))
  {
    hide Dist, Filter, BktOf;
    if c == [] {
      EmptyDist(hash, n, b);
    } else {
      var x, rest := c[0], c[1..];
      assert c == [x] + rest && [x] == [] + [x];
      DistAppend(hash, n, [x], rest, b);
      DistLast(hash, n, [], x, b);
      EmptyDist(hash, n, b);
      FilterCons(hash, n, x, rest, b);
      DistReversesFilter(hash, n, rest, b);
      ReverseCons(x, Filter(hash, n, rest, b));
    }
  }

  lemma {:induction false} DistForeign(hash: Hasher, n: nat, c: seq<Item>, b: nat)
    requires n > 0 && forall i | 0 <= i < |c| :: BktOf(hash, c[i], n) != b
    ensures Dist(hash, n, c, b) == []
  {
    if c != [] { DistForeign(hash, n, c[..|c| - 1], b); }
  }

  /** An old chain feeds no new chain but those its own number is the remainder of. */
  lemma DistOfOther(hash: Hasher, S: set<Item>, c: seq<Item>, i: nat, k: nat, b: nat)
    requires ChainPlaced(hash, S, c, i, Pow2(k)) && b % Pow2(k) != i
    ensures Dist(hash, 2 * Pow2(k), c, b) == []
  {
    forall j | 0 <= j < |c| ensures BktOf(hash, c[j], 2 * Pow2(k)) != b {
      DoubledMask(hash(c[j].key), k);
    }
    DistForeign(hash, 2 * Pow2(k), c, b);
  }

  /** The tour feeds new chain b from the old chain b modulo the old number of buckets only. */
  lemma {:induction false} DistOfTour(hash: Hasher, S: set<Item>, chains: seq<seq<Item>>, k: nat, p: nat, b: nat)
    requires p == Pow2(k) && |chains| <= p && b < 2 * p
    requires forall i | 0 <= i < |chains| :: ChainPlaced(hash, S, chains[i], i, p)
    ensures Dist(hash, 2 * p, Flat(chains), b)
         == if b % p < |chains| then Dist(hash, 2 * p, chains[b % p], b) else []
  {
    hide ChainPlaced, Pow2, Dist, BktOf;
    if chains == [] {
      EmptyDist(hash, 2 * p, b);
    } else {
      var j := |chains| - 1;
      var front, last := chains[..j], chains[j];
      assert forall i | 0 <= i < |front| :: front[i] == chains[i];
      DistOfTour(hash, S, front, k, p, b);
      DistAppend(hash, 2 * p, Flat(front), last, b);
      if b % p != j { DistOfOther(hash, S, last, j, k, b); }
    }
  }

  lemma EmptyDist(hash: Hasher, n: nat, b: nat)
    requires n > 0
    ensures Dist(hash, n, [], b) == [] == Filter(hash, n, [], b)
  {
  }

  /** New chains j and j + n come from old chain j and hold its items in reverse order. */
  lemma DoublingReverses(hash: Hasher, S: set<Item>, chains: seq<seq<Item>>, k: nat, j: nat, b: nat)
    requires Placed(hash, S, chains) && |chains| == Pow2(k) && j < Pow2(k) && (b == j || b == j + Pow2(k))
    ensures Dist(hash, 2 * Pow2(k), Flat(chains), b) == Reverse(Filter(hash, 2 * Pow2(k), chains[j], b))
  {
    hide Dist, Filter, Reverse;
    DivModUnique(b, Pow2(k), if b == j then 0 else 1, j);
    DistOfTour(hash, S, chains, k, Pow2(k), b);
    DistReversesFilter(hash, 2 * Pow2(k), chains[j], b);
  }

  ghost predicate InEither(hash: Hasher, n: nat, c: seq<Item>, a: nat, b: nat)
    requires n > 0
  {
    forall i | 0 <= i < |c| :: BktOf(hash, c[i], n) == a || BktOf(hash, c[i], n) == b
  }

  lemma ChainInEither(hash: Hasher, S: set<Item>, c: seq<Item>, k: nat, b: nat)
    requires ChainPlaced(hash, S, c, b, Pow2(k))
    ensures InEither(hash, 2 * Pow2(k), c, b, b + Pow2(k))
  {
    forall i | 0 <= i < |c|
      ensures BktOf(hash, c[i], 2 * Pow2(k)) == b || BktOf(hash, c[i], 2 * Pow2(k)) == b + Pow2(k)
    {
      TwoWays(hash(c[i].key), k, b);
    }
  }

  lemma TwoWays(h: nat, k: nat, b: nat)
    requires And(h, Pow2(k) - 1) == b
    ensures And(h, Pow2(k + 1) - 1) == b || And(h, Pow2(k + 1) - 1) == b + Pow2(k)
  {
    DoubledMask(h, k);
    var r := And(h, Pow2(k + 1) - 1);
    ModHalf(r, Pow2(k), 0, r);
  }

  lemma {:induction false} FiltersCover(hash: Hasher, n: nat, c: seq<Item>, a: nat, b: nat)
    requires n > 0 && a != b && InEither(hash, n, c, a, b)
    ensures multiset(Filter(hash, n, c, a)) + multiset(Filter(hash, n, c, b)) == multiset(c)
  {
    hide BktOf;
    if c != [] {
      assert InEither(hash, n, c[1..], a, b);
      FiltersCover(hash, n, c[1..], a, b);
      assert BktOf(hash, c[0], n) == a || BktOf(hash, c[0], n) == b;
      assert c == [c[0]] + c[1..];
    }
  }

  lemma {:induction false} ReverseElems(s: seq<Item>)
    ensures multiset(Reverse(s)) == multiset(s)
  {
    if s != [] {
      ReverseElems(s[1..]);
      assert s == [s[0]] + s[1..];
    }
  }

  /** Old chain j splits exactly into the new chains j and j + n. */
  lemma DoublingSplits(hash: Hasher, S: set<Item>, chains: seq<seq<Item>>, k: nat, p: nat, j: nat)
    requires Placed(hash, S, chains) && |chains| == p == Pow2(k) && j < p
    ensures var doubled := DistAll(hash, 2 * p, Flat(chains));
            && multiset(doubled[j]) + multiset(doubled[j + p]) == multiset(chains[j])
            && |doubled[j]| + |doubled[j + p]| == |chains[j]|
  {
    hide Dist, Filter, Reverse, Pow2, Flat;
    var c, n := chains[j], 2 * p;
    assert InEither(hash, n, c, j, j + p) by {
      assert ChainPlaced(hash, S, c, j, p);
      ChainInEither(hash, S, c, k, j);
    }
    FiltersCover(hash, n, c, j, j + p);
    DoublingReverses(hash, S, chains, k, j, j);
    DoublingReverses(hash, S, chains, k, j, j + p);
    ReverseElems(Filter(hash, n, c, j));
    ReverseElems(Filter(hash, n, c, j + p));
    var both := Filter(hash, n, c, j) + Filter(hash, n, c, j + p);
    assert |both| == |multiset(both)| == |multiset(c)| == |c|;
  }
}
