/** The element that both header libraries link together.

    A C element embeds a hash handle: `next`/`prev` thread the application order
    (or a utlist list) and `hhNext`/`hhPrev` thread one bucket chain.  The payload and
    the key never change while the element is linked, so they are constants here. */
module Items {

  type Key(==, !new)
  type Val(!new)

  /** A strcmp-like comparator on payloads. */
  type Cmp = (Val, Val) -> int

  class Item {
    const key: Key
    const val: Val
    var next: Item?
    var prev: Item?
    var hhNext: Item?
    var hhPrev: Item?
    var hashv: nat
    var tbl: Table?

    constructor (key: Key, val: Val)
      ensures this.key == key && this.val == val
    {
      this.key, this.val := key, val;
    }
  }

  /** One slot of the bucket array. */
  datatype Bucket = Bucket(hhHead: Item?, count: nat, expandMult: nat)

  /** A doubling of the bucket array: how many of how many items it left beyond the ideal length. */
  datatype Doubling = Doubling(nonideal: nat, items: nat)

  class Table {
    var buckets: array<Bucket>
    var numBuckets: nat
    var log2NumBuckets: nat
    var numItems: nat
    var tail: Item
    var idealChainMaxlen: nat
    var nonidealItems: nat
    var ineffExpands: nat
    var noexpand: bool
    ghost var history: seq<Doubling>

    constructor (tail: Item, buckets: array<Bucket>, log2NumBuckets: nat)
      ensures this.tail == tail && this.buckets == buckets
      ensures this.numBuckets == buckets.Length && this.log2NumBuckets == log2NumBuckets
      ensures numItems == idealChainMaxlen == nonidealItems == ineffExpands == 0 && !noexpand && history == []
    {
      this.tail, this.buckets := tail, buckets;
      this.numBuckets, this.log2NumBuckets := buckets.Length, log2NumBuckets;
      numItems, idealChainMaxlen, nonidealItems, ineffExpands, noexpand := 0, 0, 0, 0, false;
      history := [];
    }
  }

  ghost predicate Distinct<T>(s: seq<T>) {
    forall i, j | 0 <= i < j < |s| :: s[i] != s[j]
  }

  function Reverse<T>(s: seq<T>): (r: seq<T>)
    ensures |r| == |s|
    ensures forall i | 0 <= i < |s| :: r[i] == s[|s| - 1 - i]
  {
    if s == [] then [] else Reverse(s[1..]) + [s[0]]
  }

  function LastOrNull(s: seq<Item>): Item? {
    if s == [] then null else s[|s| - 1]
  }

  function FirstOrNull(s: seq<Item>): Item? {
    if s == [] then null else s[0]
  }
}
