/** The bucket array and the chains linked through hhNext/hhPrev: the single-bucket macros of
    uthash.h and the in-place doubling of the whole array. */
module BucketLinks {
  import opened Items
  import opened Buckets
  import opened ListSort

  ghost predicate Forward(c: seq<Item>)
    reads c`hhNext
  {
    && (forall i | 0 <= i < |c| - 1 :: c[i].hhNext == c[i + 1])
    && (c != [] ==> c[|c| - 1].hhNext == null)
  }

  ghost predicate Backward(c: seq<Item>)
    reads c`hhPrev
  {
    && (c != [] ==> c[0].hhPrev == null)
    && (forall i | 1 <= i < |c| :: c[i].hhPrev == c[i - 1])
  }

  /** The bucket heads the doubly linked chain c and counts it. */
  ghost predicate BucketOk(bucket: Bucket, c: seq<Item>)
    reads c`hhNext, c`hhPrev
  {
    bucket.hhHead == FirstOrNull(c) && bucket.count == |c| && Forward(c) && Backward(c)
  }

  /** The contents of the bucket array head chains made of items of S. */
  ghost predicate BucketsOk(buckets: seq<Bucket>, chains: seq<seq<Item>>, S: set<Item>)
    reads S`hhNext, S`hhPrev
  {
    && |buckets| == |chains|
    && forall b | 0 <= b < |chains| :: Within(chains[b], S) && BucketOk(buckets[b], chains[b])
  }

  /** The same for every bucket but b. */
  ghost predicate OthersOk(buckets: seq<Bucket>, chains: seq<seq<Item>>, b: nat, S: set<Item>)
    reads S`hhNext, S`hhPrev
  {
    && |buckets| == |chains| && b < |chains|
    && forall k | 0 <= k < |chains| && k != b :: Within(chains[k], S) && BucketOk(buckets[k], chains[k])
  }

  /** The other chains share nothing with chain b. */
  lemma SetOthersApart(hash: Hasher, buckets: seq<Bucket>, chains: seq<seq<Item>>, S: set<Item>, b: nat)
    requires Placed(hash, S, chains) && BucketsOk(buckets, chains, S) && b < |chains|
    ensures OthersOk(buckets, chains, b, S - Elems(chains[b]))
    ensures Distinct(chains[b]) && Within(chains[b], S) && BucketOk(buckets[b], chains[b])
  {
    assert ChainPlaced(hash, S, chains[b], b, |chains|);
    forall k | 0 <= k < |chains| && k != b ensures Within(chains[k], S - Elems(chains[b])) {
      assert ChainPlaced(hash, S, chains[k], k, |chains|);
    }
  }

  lemma ReplacedChain(buckets: seq<Bucket>, chains: seq<seq<Item>>, b: nat, T: set<Item>,
                      bucket: Bucket, c: seq<Item>, S': set<Item>)
    requires OthersOk(buckets, chains, b, T) && T <= S'
    requires Within(c, S') && BucketOk(bucket, c)
    ensures BucketsOk(buckets[b := bucket], chains[b := c], S')
  {
  }

  /** Link x in front of one chain. */
  method LinkFront(head: Item?, x: Item, ghost c: seq<Item>)
    requires head == FirstOrNull(c) && Distinct(c) && x !in c && Forward(c) && Backward(c)
    modifies x`hhNext, x`hhPrev
    modifies (if c == [] then {} else {c[0]})`hhPrev
    ensures Forward([x] + c) && Backward([x] + c)
  {
    x.hhNext := head;
    x.hhPrev := null;
    if head != null {
      head.hhPrev := x;
    }
  }

  /** Link x in front of chain b, for an array whose slot b is about to become `bucket`. */
  method LinkIntoChain(head: Item?, x: Item, ghost b: nat, ghost bucket: Bucket, ghost was: seq<Bucket>,
                       ghost hash: Hasher, ghost chains: seq<seq<Item>>, ghost S: set<Item>)
    requires Placed(hash, S, chains) && BucketsOk(was, chains, S)
    requires x !in S && b < |chains| && head == was[b].hhHead
    requires bucket.hhHead == x && bucket.count == was[b].count + 1
    modifies x`hhNext, x`hhPrev, S`hhPrev
    ensures BucketsOk(was[b := bucket], chains[b := [x] + chains[b]], S + {x})
  {
    SetOthersApart(hash, was, chains, S, b);
    LinkFront(head, x, chains[b]);
    ReplacedChain(was, chains, b, S - Elems(chains[b]), bucket, [x] + chains[b], S + {x});
  }

  /** The linking part of HASH_ADD_TO_BKT. */
  method PushFront(buckets: array<Bucket>, b: nat, x: Item,
                   ghost hash: Hasher, ghost chains: seq<seq<Item>>, ghost S: set<Item>)
    requires Placed(hash, S, chains) && BucketsOk(buckets[..], chains, S)
    requires x !in S && b < |chains|
    modifies buckets, x`hhNext, x`hhPrev, S`hhPrev
    ensures BucketsOk(buckets[..], chains[b := [x] + chains[b]], S + {x})
    ensures buckets[..] == old(buckets[..])[b := Bucket(x, old(buckets[b].count) + 1, old(buckets[b].expandMult))]
  {
    var bucket := buckets[b].(hhHead := x, count := buckets[b].count + 1);
    LinkIntoChain(buckets[b].hhHead, x, b, bucket, buckets[..], hash, chains, S);
    buckets[b] := bucket;
  }

  /** Unlink the element at k of one chain; head is the chain's head before. */
  method UnlinkHh(head: Item, del: Item, ghost c: seq<Item>, ghost k: nat) returns (head': Item?)
    requires Distinct(c) && Forward(c) && Backward(c) && k < |c| && head == c[0] && del == c[k]
    modifies c`hhNext, c`hhPrev
    ensures head' == FirstOrNull(c[..k] + c[k + 1..])
    ensures Forward(c[..k] + c[k + 1..]) && Backward(c[..k] + c[k + 1..])
  {
    ghost var d := c[..k] + c[k + 1..];
    assert forall i | 0 <= i < |d| :: d[i] == if i < k then c[i] else c[i + 1];
    assert del.hhPrev == if k > 0 then c[k - 1] else null;
    assert del.hhNext == if k + 1 < |c| then c[k + 1] else null;
    head' := head;
    if head == del {
      head' := del.hhNext;
    }
    if del.hhPrev != null {
      del.hhPrev.hhNext := del.hhNext;
    }
    if del.hhNext != null {
      del.hhNext.hhPrev := del.hhPrev;
    }
  }

  /** HASH_DEL_IN_BKT. */
  method DelInBkt(buckets: array<Bucket>, b: nat, del: Item, ghost k: nat,
                  ghost hash: Hasher, ghost chains: seq<seq<Item>>, ghost S: set<Item>)
    requires Placed(hash, S, chains) && BucketsOk(buckets[..], chains, S)
    requires b < |chains| && k < |chains[b]| && chains[b][k] == del
    modifies buckets, S`hhNext, S`hhPrev
    ensures BucketsOk(buckets[..], chains[b := chains[b][..k] + chains[b][k + 1..]], S - {del})
    ensures forall i | 0 <= i < buckets.Length ::
              && buckets[i].expandMult == old(buckets[i].expandMult)
              && buckets[i].count == old(buckets[i].count) - (if i == b then 1 else 0)
  {
    hide Placed, OthersOk;
    var bucket := buckets[b];
    ghost var c, d := chains[b], chains[b][..k] + chains[b][k + 1..];
    SetOthersApart(hash, buckets[..], chains, S, b);
    RemovedFrom(c, k);
    var head := UnlinkHh(bucket.hhHead, del, c, k);
    ReplacedChain(buckets[..], chains, b, S - Elems(c), Bucket(head, bucket.count - 1, bucket.expandMult),
                  d, S - {del});
    buckets[b] := bucket.(hhHead := head, count := bucket.count - 1);
  }

  /** HASH_FIND_IN_BKT: walk one chain to the first item on which hash value and key agree. */
  method FindInBkt(bucket: Bucket, key: Key, hashv: nat, ghost hash: Hasher, ghost c: seq<Item>)
    returns (out: Item?)
    requires BucketOk(bucket, c) && hashv == hash(key)
    requires forall i | 0 <= i < |c| :: c[i].hashv == hash(c[i].key)
    ensures out == ItemWith(c, key)
  {
    out := bucket.hhHead;
    ghost var i := 0;
    while out != null
      invariant 0 <= i <= |c| && out == (if i < |c| then c[i] else null)
      invariant forall j | 0 <= j < i :: c[j].key != key
      decreases |c| - i
    {
      if out.hashv == hashv {
        if out.key == key {
          break;
        }
      }
      out, i := out.hhNext, i + 1;
    }
    ItemWithSkips(c, key, i);
  }
}
