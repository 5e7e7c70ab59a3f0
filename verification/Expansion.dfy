/** HASH_EXPAND_BUCKETS: doubling the bucket array and moving every item, in place, to the front
    of its new chain. */
module Expansion {
  import opened Items
  import opened Bits
  import opened Buckets
  import opened BucketLinks
  import opened ListSort

  /** The stored hash value of every item is the hash of its key. */
  ghost predicate Hashed(hash: Hasher, S: set<Item>)
    reads S`hashv
  {
    forall x | x in S :: x.hashv == hash(x.key)
  }

  /** The multipliers and the non-ideal count after the items of v were moved. */
  ghost predicate Tallied(hash: Hasher, n: nat, buckets: seq<Bucket>, v: seq<Item>, ideal: nat, nonideal: nat) {
    && |buckets| == n > 0
    && (forall b | 0 <= b < |buckets| ::
          buckets[b].expandMult == Multiplier(|DistAll(hash, n, v)[b]|, ideal))
    && nonideal == Excess(Lengths(DistAll(hash, n, v)), ideal)
  }

  /** The new array after the items of v were moved. */
  ghost predicate Moved(hash: Hasher, n: nat, buckets: seq<Bucket>, v: seq<Item>, ideal: nat, nonideal: nat)
    reads Elems(v)`hhNext, Elems(v)`hhPrev
  {
    && Tallied(hash, n, buckets, v, ideal, nonideal)
    && Distinct(v) && BucketsOk(buckets, DistAll(hash, n, v), Elems(v))
  }

  /** The bucket an item was put into, with its multiplier raised where the code raises it. */
  function Bumped(bucket: Bucket, ideal: nat): Bucket {
    if bucket.count > ideal && bucket.count > bucket.expandMult * ideal
    then bucket.(expandMult := bucket.expandMult + 1) else bucket
  }

  lemma TallyOneMore(hash: Hasher, n: nat, buckets: seq<Bucket>, v: seq<Item>, x: Item, b: nat,
                     ideal: nat, nonideal: nat)
    requires Tallied(hash, n, buckets, v, ideal, nonideal) && b == BktOf(hash, x, n) < n
    requires buckets[b].count == |DistAll(hash, n, v)[b]|
    ensures DistAll(hash, n, v + [x])
         == DistAll(hash, n, v)[b := [x] + DistAll(hash, n, v)[b]]
    ensures var pushed := Bucket(x, buckets[b].count + 1, buckets[b].expandMult);
            Tallied(hash, n, buckets[b := Bumped(pushed, ideal)], v + [x], ideal,
                    nonideal + (if pushed.count > ideal then 1 else 0))
  {
    hide Dist, BktOf;
    DistSnoc(hash, n, v, x);
    var counts := Lengths(DistAll(hash, n, v));
    assert Lengths(DistAll(hash, n, v + [x])) == counts[b := counts[b] + 1];
    CountUp(counts, b, ideal);
  }

  lemma AllHashable(hash: Hasher, v: seq<Item>, x: Item, k: nat, n: nat)
    requires n == Pow2(k) && Distinct(v)
    ensures BktOf(hash, x, n) < n && Placed(hash, Elems(v), DistAll(hash, n, v))
  {
    MaskIsMod(hash(x.key), k);
    TourPlaced(hash, v, k, n);
  }

  lemma MovedOneMore(hash: Hasher, n: nat, buckets: seq<Bucket>, v: seq<Item>, x: Item, b: nat,
                     ideal: nat, nonideal: nat)
    requires Tallied(hash, n, buckets, v + [x], ideal, nonideal) && Distinct(v) && x !in v && b < n
    requires DistAll(hash, n, v + [x])
          == DistAll(hash, n, v)[b := [x] + DistAll(hash, n, v)[b]]
    requires BucketsOk(buckets, DistAll(hash, n, v)[b := [x] + DistAll(hash, n, v)[b]], Elems(v) + {x})
    ensures Moved(hash, n, buckets, v + [x], ideal, nonideal)
  {
    assert Elems(v + [x]) == Elems(v) + {x};
  }

  /** Count one more item in a bucket and raise its multiplier if the chain outgrew it. */
  method Tally(bucket0: Bucket, ideal: nat, nonideal0: nat) returns (bucket: Bucket, nonideal: nat)
    ensures bucket == Bumped(bucket0.(count := bucket0.count + 1), ideal)
    ensures nonideal == nonideal0 + if bucket.count > ideal then 1 else 0
  {
    bucket, nonideal := bucket0.(count := bucket0.count + 1), nonideal0;
    if bucket.count > ideal {
      nonideal := nonideal + 1;
      if bucket.count > bucket.expandMult * ideal {
        bucket := bucket.(expandMult := bucket.expandMult + 1);
      }
    }
  }

  /** The body of the inner loop for one item. */
  method MoveItem(buckets: array<Bucket>, x: Item, ideal: nat, nonideal0: nat,
                  ghost hash: Hasher, ghost k: nat, ghost v: seq<Item>) returns (nonideal: nat)
    requires buckets.Length == Pow2(k) && x.hashv == hash(x.key)
    requires Moved(hash, buckets.Length, buckets[..], v, ideal, nonideal0) && x !in v
    modifies buckets, x`hhNext, x`hhPrev, Elems(v)`hhPrev
    ensures Moved(hash, buckets.Length, buckets[..], v + [x], ideal, nonideal)
  {
    hide Placed, BucketsOk, Tallied, Moved, Dist;
    ghost var n, was, S := buckets.Length, buckets[..], Elems(v);
    ghost var chains := DistAll(hash, n, v);
    var b := And(x.hashv, buckets.Length - 1);
    assert b == BktOf(hash, x, n);
    ReadyToMove(hash, k, n, was, v, x, b, ideal, nonideal0);
    var bucket;
    bucket, nonideal := Tally(buckets[b], ideal, nonideal0);
    bucket := bucket.(hhHead := x);
    LinkIntoChain(buckets[b].hhHead, x, b, bucket, was, hash, chains, S);
    MovedOneMore(hash, n, was[b := bucket], v, x, b, ideal, nonideal);
    buckets[b] := bucket;
  }

  lemma ReadyToMove(hash: Hasher, k: nat, n: nat, buckets: seq<Bucket>, v: seq<Item>, x: Item, b: nat,
                    ideal: nat, nonideal: nat)
    requires n == Pow2(k) && Moved(hash, n, buckets, v, ideal, nonideal) && b == BktOf(hash, x, n)
    ensures b < n == |buckets| && Distinct(v)
    ensures Placed(hash, Elems(v), DistAll(hash, n, v)) && BucketsOk(buckets, DistAll(hash, n, v), Elems(v))
    ensures DistAll(hash, n, v + [x]) == DistAll(hash, n, v)[b := [x] + DistAll(hash, n, v)[b]]
    ensures var pushed := Bucket(x, buckets[b].count + 1, buckets[b].expandMult);
            Tallied(hash, n, buckets[b := Bumped(pushed, ideal)], v + [x], ideal,
                    nonideal + (if pushed.count > ideal then 1 else 0))
  {
    AllHashable(hash, v, x, k, n);
    assert buckets[b].count == |DistAll(hash, n, v)[b]|;
    TallyOneMore(hash, n, buckets, v, x, b, ideal, nonideal);
  }

  /** The inner loop: move one old chain, following the links it had before. */
  method MoveChain(buckets: array<Bucket>, head: Item?, ideal: nat, nonideal0: nat,
                   ghost hash: Hasher, ghost k: nat, ghost v: seq<Item>, ghost c: seq<Item>)
    returns (nonideal: nat)
    requires buckets.Length == Pow2(k) && Hashed(hash, Elems(c))
    requires Moved(hash, buckets.Length, buckets[..], v, ideal, nonideal0)
    requires head == FirstOrNull(c) && Distinct(c) && Disjoint(v, c) && Forward(c)
    modifies buckets, Elems(c)`hhNext, Elems(v)`hhPrev, Elems(c)`hhPrev
    ensures Moved(hash, buckets.Length, buckets[..], v + c, ideal, nonideal)
  {
    hide Moved;
    nonideal := nonideal0;
    var thh := head;
    ghost var done: seq<Item>, rest: seq<Item> := v, c;
    while thh != null
      invariant thh == FirstOrNull(rest) && done + rest == v + c && Distinct(rest) && Disjoint(done, rest)
      invariant Forward(rest) && Elems(rest) <= Elems(c) && Elems(done) <= Elems(v) + Elems(c)
      invariant Moved(hash, buckets.Length, buckets[..], done, ideal, nonideal)
      decreases |rest|
    {
      var next := thh.hhNext;
      NextInChain(thh, rest);
      nonideal := MoveItem(buckets, thh, ideal, nonideal, hash, k, done);
      StepOver(done, rest, v, c);
      thh, done, rest := next, done + [rest[0]], rest[1..];
    }
    assert done == v + c;
  }

  lemma NextInChain(x: Item, rest: seq<Item>)
    requires rest != [] && x == rest[0] && Forward(rest)
    ensures x.hhNext == FirstOrNull(rest[1..]) && Forward(rest[1..]) && x in Elems(rest)
  {
  }

  lemma StepOver(done: seq<Item>, rest: seq<Item>, v: seq<Item>, c: seq<Item>)
    requires rest != [] && done + rest == v + c && Distinct(rest) && Disjoint(done, rest)
    requires Elems(rest) <= Elems(c) && Elems(done) <= Elems(v) + Elems(c)
    ensures done + [rest[0]] + rest[1..] == v + c
    ensures Distinct(rest[1..]) && Disjoint(done + [rest[0]], rest[1..])
    ensures Elems(rest[1..]) <= Elems(c) && Elems(done + [rest[0]]) <= Elems(v) + Elems(c)
    ensures rest[0] !in Elems(rest[1..])
  {
    assert rest[0] in Elems(rest);
    assert Elems(rest[1..]) <= Elems(rest);
  }

  /** The chains from i on are still linked and made of items of T. */
  ghost predicate RestForward(chains: seq<seq<Item>>, i: nat, T: set<Item>)
    reads T`hhNext
  {
    forall j | i <= j < |chains| :: Within(chains[j], T) && Forward(chains[j])
  }

  lemma AllForward(buckets: seq<Bucket>, chains: seq<seq<Item>>, S: set<Item>)
    requires BucketsOk(buckets, chains, S)
    ensures RestForward(chains, 0, S)
    ensures forall j | 0 <= j < |chains| :: buckets[j].hhHead == FirstOrNull(chains[j])
  {
  }

  /** The tour so far, the next chain and the chains after it share nothing. */
  lemma NextChain(hash: Hasher, chains: seq<seq<Item>>, S: set<Item>, i: nat)
    requires Placed(hash, S, chains) && i < |chains|
    requires RestForward(chains, i, S - Elems(Flat(chains[..i])))
    ensures Flat(chains[..i + 1]) == Flat(chains[..i]) + chains[i]
    ensures Distinct(chains[i]) && Elems(chains[i]) <= S && Forward(chains[i])
    ensures Elems(Flat(chains[..i])) <= S && Disjoint(Flat(chains[..i]), chains[i])
    ensures RestForward(chains, i + 1, S - Elems(Flat(chains[..i + 1])))
    ensures Elems(Flat(chains[..i + 1])) == Elems(Flat(chains[..i])) + Elems(chains[i])
  {
    assert chains[..i + 1][..i] == chains[..i];
    forall b | 0 <= b < i ensures ChainPlaced(hash, S, chains[..i][b], b, |chains|) {
      assert ChainPlaced(hash, S, chains[b], b, |chains|);
    }
    FlatOfPlaced(hash, S, chains[..i], |chains|);
    var T := S - Elems(Flat(chains[..i])) - Elems(chains[i]);
    assert S - Elems(Flat(chains[..i + 1])) == T;
    assert ChainPlaced(hash, S, chains[i], i, |chains|);
    forall j | i < j < |chains| ensures Within(chains[j], T) {
      assert ChainPlaced(hash, S, chains[j], j, |chains|);
    }
  }

  lemma FreshArray(hash: Hasher, n: nat, buckets: seq<Bucket>, ideal: nat)
    requires |buckets| == n > 0 && forall b | 0 <= b < n :: buckets[b] == Bucket(null, 0, 0)
    ensures Moved(hash, n, buckets, [], ideal, 0)
  {
    DistNothing(hash, n);
    AllZero(Lengths(DistAll(hash, n, [])), ideal);
  }

  /** The outer loop: move every old chain in turn. */
  method MoveAll(buckets: array<Bucket>, newBuckets: array<Bucket>, ideal: nat,
                 ghost hash: Hasher, ghost k: nat, ghost n: nat, ghost chains: seq<seq<Item>>, ghost S: set<Item>)
    returns (nonideal: nat)
    requires buckets != newBuckets && newBuckets.Length == n == Pow2(k)
    requires forall b | 0 <= b < newBuckets.Length :: newBuckets[b] == Bucket(null, 0, 0)
    requires BucketsOk(buckets[..], chains, S) && Placed(hash, S, chains) && Hashed(hash, S)
    modifies newBuckets, S`hhNext, S`hhPrev
    ensures Moved(hash, n, newBuckets[..], Flat(chains), ideal, nonideal)
  {
    hide Moved;
    nonideal := 0;
    FreshArray(hash, n, newBuckets[..], ideal);
    AllForward(buckets[..], chains, S);
    ghost var v := [];
    assert Flat(chains[..0]) == [] && S - Elems([]) == S;
    for i := 0 to buckets.Length
      invariant v == Flat(chains[..i])
      invariant Moved(hash, n, newBuckets[..], v, ideal, nonideal)
      invariant RestForward(chains, i, S - Elems(v))
      invariant Elems(v) <= S
    {
      NextChain(hash, chains, S, i);
      nonideal := MoveChain(newBuckets, buckets[i].hhHead, ideal, nonideal, hash, k, v, chains[i]);
      v := v + chains[i];
    }
    assert chains[..|chains|] == chains;
  }

  /** The array has a power of two of buckets, one per chain. */
  ghost predicate Sized(t: Table, chains: seq<seq<Item>>)
    reads t`buckets, t`numBuckets, t`log2NumBuckets
  {
    t.numBuckets == t.buckets.Length == |chains| && t.numBuckets == Pow2(t.log2NumBuckets)
  }

  /** The figures of an expansion of numItems items into n chains. */
  ghost predicate Figures(numItems: nat, n: nat, buckets: seq<Bucket>, chains: seq<seq<Item>>,
                          ideal: nat, nonideal: nat)
  {
    && |buckets| == |chains| == n > 0
    && ideal == CeilDiv(numItems, n)
    && nonideal == Excess(Lengths(chains), ideal)
    && forall b | 0 <= b < n :: buckets[b].expandMult == Multiplier(|chains[b]|, ideal)
  }

  /** After an expansion every multiplier measures its chain in units of the ideal length. */
  lemma ExpansionMultipliers(numItems: nat, n: nat, buckets: seq<Bucket>, chains: seq<seq<Item>>,
                             ideal: nat, nonideal: nat, b: nat)
    requires Figures(numItems, n, buckets, chains, ideal, nonideal) && numItems > 0 && b < n
    ensures ideal >= 1
    ensures buckets[b].expandMult == 0 <==> |chains[b]| <= ideal
    ensures var e := buckets[b].expandMult;
            e >= 1 ==> (e - 1) * ideal < |chains[b]| <= e * ideal + 1
  {
    hide Multiplier;
    assert numItems == n * (numItems / n) + numItems % n;
    MultiplierBounds(|chains[b]|, ideal);
  }

  /** What an expansion leaves in the table's bookkeeping fields. */
  ghost predicate Expanded(t: Table, buckets: seq<Bucket>, chains: seq<seq<Item>>, ineffExpands: nat, noexpand: bool)
    reads t
  {
    && Figures(t.numItems, t.numBuckets, buckets, chains, t.idealChainMaxlen, t.nonidealItems)
    && t.ineffExpands == (if t.nonidealItems > t.numItems / 2 then ineffExpands + 1 else 0)
    && t.noexpand == (noexpand || t.ineffExpands > 1)
  }

  /** In numbers: the ideal length is the least one at which the items fit the doubled array, and the
      non-ideal items are those beyond it. */
  lemma ExpandedLaw(t: Table, buckets: seq<Bucket>, chains: seq<seq<Item>>, ineffExpands: nat, noexpand: bool)
    requires Expanded(t, buckets, chains, ineffExpands, noexpand)
    ensures t.idealChainMaxlen * t.numBuckets >= t.numItems
    ensures t.idealChainMaxlen > 0 ==> (t.idealChainMaxlen - 1) * t.numBuckets < t.numItems
    ensures |chains| == t.numBuckets && t.nonidealItems == Excess(Lengths(chains), t.idealChainMaxlen)
  {
    hide CeilDiv, Excess, Multiplier;
    CeilDivIsLeast(t.numItems, t.numBuckets);
  }

  /** How many doublings in a row, up to the last one, left more than half of the items beyond the
      ideal length. */
  function Streak(h: seq<Doubling>): nat {
    if h == [] || 2 * h[|h| - 1].nonideal <= h[|h| - 1].items then 0 else 1 + Streak(h[..|h| - 1])
  }

  /** Two doublings in a row left more than half of the items beyond the ideal length. */
  ghost predicate WastedTwice(h: seq<Doubling>) {
    exists i | 1 <= i < |h| :: 2 * h[i - 1].nonideal > h[i - 1].items && 2 * h[i].nonideal > h[i].items
  }

  /** What the doublings so far have made of the table: each doubled its 32 buckets, and expansion is
      inhibited exactly when two in a row did not pay. */
  ghost predicate Recorded(t: Table)
    reads t`numBuckets, t`ineffExpands, t`noexpand, t`history
  {
    && t.numBuckets == 32 * Pow2(|t.history|)
    && t.ineffExpands == Streak(t.history)
    && (t.noexpand <==> WastedTwice(t.history))
  }

  /** Before its first doubling the table has not raised a multiplier and no chain has ten items. */
  ghost predicate Roomy(t: Table)
    reads t`history, t`buckets, t.buckets
  {
    t.history == [] ==> forall b | 0 <= b < t.buckets.Length :: t.buckets[b].expandMult == 0 && t.buckets[b].count < 10
  }

  /** The same but for bucket b, which may just have reached ten. */
  ghost predicate RoomyBut(t: Table, b: nat)
    reads t`history, t`buckets, t.buckets
  {
    t.history == [] ==> forall i | 0 <= i < t.buckets.Length ::
                          t.buckets[i].expandMult == 0 && (i != b ==> t.buckets[i].count < 10)
  }

  lemma Pow2Next(k: nat)
    ensures Pow2(k + 1) == 2 * Pow2(k)
  {
  }

  lemma RecordOneMore(h: seq<Doubling>, d: Doubling)
    ensures Streak(h + [d]) == if 2 * d.nonideal > d.items then 1 + Streak(h) else 0
    ensures WastedTwice(h + [d]) <==> WastedTwice(h) || (2 * d.nonideal > d.items && Streak(h) > 0)
    ensures Pow2(|h + [d]|) == 2 * Pow2(|h|)
  {
    assert (h + [d])[..|h|] == h;
    if WastedTwice(h) {
      var i :| 1 <= i < |h| && 2 * h[i - 1].nonideal > h[i - 1].items && 2 * h[i].nonideal > h[i].items;
      assert (h + [d])[i] == h[i] && (h + [d])[i - 1] == h[i - 1];
    }
    if 2 * d.nonideal > d.items && Streak(h) > 0 {
      assert (h + [d])[|h|] == d && (h + [d])[|h| - 1] == h[|h| - 1];
    }
  }

  /** A zeroed bucket array. */
  method ZeroedBuckets(n: nat) returns (buckets: array<Bucket>)
    ensures fresh(buckets) && buckets.Length == n
    ensures forall b | 0 <= b < n :: buckets[b] == Bucket(null, 0, 0)
  {
    buckets := new Bucket[n](_ => Bucket(null, 0, 0));
  }

  /** ceil(n / new bucket count), computed with a shift and a mask. */
  method IdealLength(numItems: nat, numBuckets: nat, log2NumBuckets: nat, ghost n: nat) returns (ideal: nat)
    requires numBuckets == Pow2(log2NumBuckets) && n == 2 * numBuckets
    ensures ideal == CeilDiv(numItems, n)
  {
    IdealIsCeil(numItems, log2NumBuckets + 1);
    assert n == Pow2(log2NumBuckets + 1);
    ideal := Shr(numItems, log2NumBuckets + 1) + (if And(numItems, numBuckets * 2 - 1) != 0 then 1 else 0);
  }

  lemma OneChainEach(numItems: nat, n: nat, buckets: seq<Bucket>, chains: seq<seq<Item>>, ideal: nat, nonideal: nat)
    requires Figures(numItems, n, buckets, chains, ideal, nonideal)
    ensures |chains| == n
  {
  }

  /** Install the new array and decide whether expansion still pays. */
  method InstallBuckets(t: Table, newBuckets: array<Bucket>, ideal: nat, nonideal: nat,
                        ghost n: nat, ghost chains: seq<seq<Item>>)
    requires t.numBuckets == Pow2(t.log2NumBuckets) && newBuckets.Length == 2 * t.numBuckets == n
    requires Figures(t.numItems, n, newBuckets[..], chains, ideal, nonideal) && Recorded(t)
    modifies t
    ensures Recorded(t) && t.history == old(t.history) + [Doubling(t.nonidealItems, t.numItems)]
    ensures t.tail == old(t.tail) && t.numItems == old(t.numItems) && t.buckets == newBuckets
    ensures Sized(t, chains)
    ensures Expanded(t, newBuckets[..], chains, old(t.ineffExpands), old(t.noexpand))
  {
    hide Figures, Streak, WastedTwice, Pow2;
    Pow2Next(t.log2NumBuckets);
    OneChainEach(t.numItems, n, newBuckets[..], chains, ideal, nonideal);
    t.idealChainMaxlen, t.nonidealItems := ideal, nonideal;
    t.numBuckets := t.numBuckets * 2;
    t.log2NumBuckets := t.log2NumBuckets + 1;
    t.buckets := newBuckets;
    t.ineffExpands := if t.nonidealItems > t.numItems / 2 then t.ineffExpands + 1 else 0;
    if t.ineffExpands > 1 {
      t.noexpand := true;
    }
    RecordOneMore(t.history, Doubling(nonideal, t.numItems));
    t.history := t.history + [Doubling(nonideal, t.numItems)];
  }

  lemma FromMoved(hash: Hasher, n: nat, buckets: seq<Bucket>, v: seq<Item>, ideal: nat, nonideal: nat,
                  chains: seq<seq<Item>>, numItems: nat)
    requires Moved(hash, n, buckets, v, ideal, nonideal) && chains == DistAll(hash, n, v)
    requires ideal == CeilDiv(numItems, n)
    ensures Figures(numItems, n, buckets, chains, ideal, nonideal)
    ensures BucketsOk(buckets, chains, Elems(v))
  {
  }

  /** Allocate the doubled array and move every item into it. */
  method BuildBuckets(buckets: array<Bucket>, numItems: nat, log2NumBuckets: nat,
                      ghost n: nat, ghost hash: Hasher, ghost chains: seq<seq<Item>>, ghost S: set<Item>)
    returns (newBuckets: array<Bucket>, ideal: nat, nonideal: nat)
    requires buckets.Length == |chains| == Pow2(log2NumBuckets) && n == 2 * |chains|
    requires Placed(hash, S, chains) && Hashed(hash, S) && BucketsOk(buckets[..], chains, S)
    modifies S`hhNext, S`hhPrev
    ensures fresh(newBuckets) && newBuckets.Length == n
    ensures Figures(numItems, n, newBuckets[..], DistAll(hash, n, Flat(chains)), ideal, nonideal)
    ensures BucketsOk(newBuckets[..], DistAll(hash, n, Flat(chains)), S)
  {
    ghost var k, was := log2NumBuckets + 1, buckets[..];
    assert n == Pow2(k);
    ideal := IdealLength(numItems, buckets.Length, log2NumBuckets, n);
    newBuckets := ZeroedBuckets(2 * buckets.Length);
    assert buckets[..] == was && BucketsOk(was, chains, S);
    nonideal := MoveAll(buckets, newBuckets, ideal, hash, k, n, chains, S);
    FromMoved(hash, n, newBuckets[..], Flat(chains), ideal, nonideal, DistAll(hash, n, Flat(chains)), numItems);
    PlacedTour(hash, S, chains);
  }

  /** HASH_EXPAND_BUCKETS. */
  method ExpandBuckets(t: Table, ghost hash: Hasher, ghost chains: seq<seq<Item>>, ghost S: set<Item>)
    returns (ghost chains': seq<seq<Item>>)
    requires Sized(t, chains) && Placed(hash, S, chains) && Hashed(hash, S) && Recorded(t)
    requires BucketsOk(t.buckets[..], chains, S)
    modifies t, S`hhNext, S`hhPrev
    ensures t.tail == old(t.tail) && t.numItems == old(t.numItems) && fresh(t.buckets)
    ensures chains' == DistAll(hash, 2 * |chains|, Flat(chains))
    ensures Recorded(t) && t.history == old(t.history) + [Doubling(t.nonidealItems, t.numItems)]
    ensures Sized(t, chains') && BucketsOk(t.buckets[..], chains', S) && Placed(hash, S, chains')
    ensures Expanded(t, t.buckets[..], chains', old(t.ineffExpands), old(t.noexpand))
  {
    hide Placed, BucketsOk, Figures, DistAll;
    ghost var n := 2 * |chains|;
    chains' := DistAll(hash, n, Flat(chains));
    assert Placed(hash, S, chains') by {
      PlacedTour(hash, S, chains);
      TourPlaced(hash, Flat(chains), t.log2NumBuckets + 1, n);
    }
    var newBuckets, ideal, nonideal := BuildBuckets(t.buckets, t.numItems, t.log2NumBuckets, n, hash, chains, S);
    ghost var now := newBuckets[..];
    assert BucketsOk(now, chains', S);
    InstallBuckets(t, newBuckets, ideal, nonideal, n, chains');
    assert t.buckets[..] == now;
  }

  lemma TourPlaced(hash: Hasher, v: seq<Item>, k: nat, n: nat)
    requires n == Pow2(k) && Distinct(v)
    ensures Placed(hash, Elems(v), DistAll(hash, n, v))
  {
    forall i | 0 <= i < |v| ensures BktOf(hash, v[i], n) < n {
      MaskIsMod(hash(v[i].key), k);
    }
    DistPlaced(hash, n, v);
  }
}
