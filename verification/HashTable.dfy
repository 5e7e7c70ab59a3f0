/** The uthash table: a head pointer, the items it leads to and the table they share. */
module HashTable {
  import opened Items
  import opened Bits
  import opened Buckets
  import opened BucketLinks
  import opened Expansion
  import opened StableSorting
  import opened ListSort
  import opened ListOps
  import opened AppOrder

  const INITIAL_NUM_BUCKETS := 32
  const INITIAL_NUM_BUCKETS_LOG2 := 5
  const BKT_CAPACITY_THRESH := 10

  /** The hash handle of every item names the table and holds the hash of the key. */
  ghost predicate Handles(t: Table, hash: Hasher, S: set<Item>)
    reads S`tbl, S`hashv
  {
    forall x | x in S :: x.tbl == t && x.hashv == hash(x.key)
  }

  /** HASH_FSCK, strengthened: the bucket array heads chains that hold each item of S once, in the
      bucket its masked hash names, and the array has a power of two of buckets. */
  ghost predicate Bucketed(t: Table, hash: Hasher, chains: seq<seq<Item>>, S: set<Item>)
    reads t`buckets, t`numBuckets, t`log2NumBuckets, t.buckets, S`hhNext, S`hhPrev
  {
    Sized(t, chains) && Placed(hash, S, chains) && BucketsOk(t.buckets[..], chains, S)
  }

  ghost predicate TableOk(t: Table, hash: Hasher, head: Item?, order: seq<Item>, chains: seq<seq<Item>>)
    reads t, t.buckets, order
  {
    && order != [] && IsAppOrder(head, t.tail, order)
    && Handles(t, hash, Elems(order))
    && Bucketed(t, hash, chains, Elems(order))
    && Recorded(t) && Roomy(t)
    && t.numItems == |order|
  }

  /** The chains after HASH_ADD_TO_BKT put x into its bucket, before any expansion. */
  function Pushed(hash: Hasher, chains: seq<seq<Item>>, x: Item): seq<seq<Item>>
    requires |chains| > 0 && BktOf(hash, x, |chains|) < |chains|
  {
    var b := BktOf(hash, x, |chains|);
    chains[b := [x] + chains[b]]
  }

  /** When HASH_ADD_TO_BKT doubles the array: the chain reached a multiple of the threshold. */
  predicate Triggers(count: nat, expandMult: nat, noexpand: bool) {
    count >= (expandMult + 1) * BKT_CAPACITY_THRESH && !noexpand
  }

  /** What became of the chains of a table when bucket b had just reached `count`: doubled if that
      triggers an expansion, otherwise as they were. */
  ghost predicate Grown(t: Table, hash: Hasher, chains: seq<seq<Item>>, chains': seq<seq<Item>>,
                        count: nat, expandMult: nat, ineffExpands: nat, noexpand: bool)
    reads t, t.buckets
  {
    if Triggers(count, expandMult, noexpand) then
      && |chains| > 0
      && chains' == DistAll(hash, 2 * |chains|, Flat(chains))
      && Expanded(t, t.buckets[..], chains', ineffExpands, noexpand)
    else
      chains' == chains && t.ineffExpands == ineffExpands && t.noexpand == noexpand
  }

  /** The size of the array after bucket b reached `count` when there were n buckets, and what bucket
      b looks like if the array stayed as it was. */
  ghost predicate Counted(t: Table, b: nat, n: nat, count: nat, expandMult: nat, noexpand: bool)
    reads t, t.buckets
  {
    if Triggers(count, expandMult, noexpand) then
      t.numBuckets == 2 * n
    else
      && t.numBuckets == n && t.noexpand == noexpand && b < t.buckets.Length
      && t.buckets[b].count == count && t.buckets[b].expandMult == expandMult
  }

  /** HASH_MAKE_TABLE. */
  method MakeTable(head: Item, ghost hash: Hasher) returns (t: Table, ghost chains: seq<seq<Item>>)
    ensures fresh(t) && fresh(t.buckets) && t.tail == head && t.numItems == 0 && !t.noexpand
    ensures Bucketed(t, hash, chains, {})
    ensures |chains| == t.numBuckets == 32 && forall b | 0 <= b < |chains| :: chains[b] == []
    ensures Recorded(t) && Roomy(t) && t.history == []
    ensures forall b | 0 <= b < |chains| :: t.buckets[b] == Bucket(null, 0, 0)
    ensures t.idealChainMaxlen == t.nonidealItems == t.ineffExpands == 0
  {
    var buckets := ZeroedBuckets(INITIAL_NUM_BUCKETS);
    t := new Table(head, buckets, INITIAL_NUM_BUCKETS_LOG2);
    chains := seq(INITIAL_NUM_BUCKETS, _ => []);
    assert Pow2(5) == 32 && Pow2(0) == 1;
  }

  /** The linking half of HASH_ADD_TO_BKT. */
  method AddToBkt(t: Table, b: nat, add: Item, ghost hash: Hasher, ghost chains: seq<seq<Item>>, ghost S: set<Item>)
    returns (ghost chains': seq<seq<Item>>)
    requires Bucketed(t, hash, chains, S) && add !in S && b == BktOf(hash, add, |chains|) < |chains|
    modifies t.buckets, S`hhPrev, add`hhNext, add`hhPrev
    ensures chains' == Pushed(hash, chains, add) && Bucketed(t, hash, chains', S + {add})
    ensures t.buckets[b].count == |chains[b]| + 1 && t.buckets[b].expandMult == old(t.buckets[b].expandMult)
    ensures forall i | 0 <= i < t.buckets.Length && i != b :: t.buckets[i] == old(t.buckets[i])
  {
    PlacedAdd(hash, S, chains, add, b);
    assert t.buckets[b].count == |chains[b]|;
    PushFront(t.buckets, b, add, hash, chains, S);
    chains' := chains[b := [add] + chains[b]];
  }

  /** HASH_ADD_TO_TABLE: count the item, put it into its bucket, and double the bucket array when
      the chain reached its threshold. */
  method AddToTable(t: Table, add: Item, ghost hash: Hasher, ghost chains: seq<seq<Item>>, ghost S: set<Item>)
    returns (ghost chains': seq<seq<Item>>)
    requires Bucketed(t, hash, chains, S) && add !in S && Hashed(hash, S + {add})
    requires BktOf(hash, add, |chains|) < |chains| && Recorded(t) && Roomy(t)
    modifies t, t.buckets, S`hhNext, S`hhPrev, add`hhNext, add`hhPrev
    ensures t.tail == old(t.tail) && t.numItems == old(t.numItems) + 1
    ensures t.buckets == old(t.buckets) || fresh(t.buckets)
    ensures Bucketed(t, hash, chains', S + {add}) && Recorded(t) && Roomy(t)
    ensures var b := BktOf(hash, add, |chains|);
            Counted(t, b, |chains|, |chains[b]| + 1, old(t.buckets[b].expandMult), old(t.noexpand))
    ensures var b := BktOf(hash, add, |chains|);
            Grown(t, hash, Pushed(hash, chains, add), chains', |chains[b]| + 1, old(t.buckets[b].expandMult),
                  old(t.ineffExpands), old(t.noexpand))
  {
    hide Placed, BucketsOk;
    t.numItems := t.numItems + 1;
    var b := And(add.hashv, t.numBuckets - 1);
    assert add in S + {add} && b == BktOf(hash, add, |chains|);
    chains' := AddToBkt(t, b, add, hash, chains, S);
    chains' := ExpandIfCrowded(t, b, hash, chains', S + {add});
  }

  method ExpandIfCrowded(t: Table, b: nat, ghost hash: Hasher, ghost chains: seq<seq<Item>>, ghost S: set<Item>)
    returns (ghost chains': seq<seq<Item>>)
    requires Bucketed(t, hash, chains, S) && Hashed(hash, S) && b < |chains| && Recorded(t) && RoomyBut(t, b)
    modifies t, S`hhNext, S`hhPrev
    ensures t.tail == old(t.tail) && t.numItems == old(t.numItems)
    ensures t.buckets == old(t.buckets) || fresh(t.buckets)
    ensures Bucketed(t, hash, chains', S) && Recorded(t) && Roomy(t)
    ensures Counted(t, b, |chains|, old(t.buckets[b].count), old(t.buckets[b].expandMult), old(t.noexpand))
    ensures Grown(t, hash, chains, chains', old(t.buckets[b].count), old(t.buckets[b].expandMult),
                  old(t.ineffExpands), old(t.noexpand))
  {
    chains' := chains;
    if t.buckets[b].count >= (t.buckets[b].expandMult + 1) * BKT_CAPACITY_THRESH && !t.noexpand {
      chains' := ExpandBuckets(t, hash, chains, S);
    }
  }

  lemma BktInRange(hash: Hasher, x: Item, n: nat, k: nat)
    requires n == Pow2(k)
    ensures BktOf(hash, x, n) < n && BktOf(hash, x, n) == hash(x.key) % n
  {
    MaskIsMod(hash(x.key), k);
  }

  /** The item add is on the application order but not yet in a bucket. */
  ghost predicate Entering(t: Table, hash: Hasher, head: Item?, order: seq<Item>, chains: seq<seq<Item>>,
                           add: Item, S: set<Item>)
    reads t, t.buckets, order, S
  {
    && add !in S && Elems(order) == S + {add} && order != []
    && IsAppOrder(head, t.tail, order) && Handles(t, hash, Elems(order))
    && Bucketed(t, hash, chains, S)
    && Recorded(t) && Roomy(t)
    && t.numItems + 1 == |order|
  }

  /** A table as HASH_MAKE_TABLE leaves it: 32 empty buckets. */
  ghost predicate Empty32(t: Table)
    reads t, t.buckets
  {
    && t.numBuckets == t.buckets.Length == 32 && !t.noexpand
    && forall b | 0 <= b < 32 :: t.buckets[b] == Bucket(null, 0, 0)
  }

  /** The first item: make the table. */
  method EnterFirst(add: Item, hash: Hasher) returns (t: Table, ghost chains: seq<seq<Item>>)
    requires add.hashv == hash(add.key)
    modifies add`next, add`prev, add`tbl
    ensures fresh(t) && fresh(t.buckets) && Entering(t, hash, add, [add], chains, add, {})
    ensures Empty32(t)
  {
    add.next := null;
    add.prev := null;
    t, chains := MakeTable(add, hash);
    add.tbl := t;
  }

  /** A further item: append it to the application order. */
  method EnterLast(t: Table, add: Item, ghost hash: Hasher, ghost head: Item,
                   ghost order: seq<Item>, ghost chains: seq<seq<Item>>)
    requires TableOk(t, hash, head, order, chains) && add !in order && add.hashv == hash(add.key)
    modifies t`tail, order`next, add`next, add`prev, add`tbl
    ensures Entering(t, hash, head, order + [add], chains, add, Elems(order))
  {
    hide Placed, BucketsOk;
    add.tbl := t;
    AppendList(t, add, head, order);
  }

  /** A further item: link it in front of the first greater one, or append it. */
  method EnterBetween(t: Table, head: Item, add: Item, cmp: Cmp, ghost hash: Hasher,
                      ghost order: seq<Item>, ghost chains: seq<seq<Item>>) returns (head': Item)
    requires TableOk(t, hash, head, order, chains) && add !in order && add.hashv == hash(add.key)
    modifies t`tail, order`next, order`prev, add`next, add`prev, add`tbl
    ensures Entering(t, hash, head', InsertUpper(cmp, order, add), chains, add, Elems(order))
  {
    hide Placed, BucketsOk, Distinct, Chain, BackLinks, InsertUpper;
    InsertUpperElems(cmp, order, add);
    add.tbl := t;
    head' := LinkInorder(cmp, t, head, add, order);
  }

  lemma {:induction false} InsertUpperElems(cmp: Cmp, s: seq<Item>, x: Item)
    ensures Elems(InsertUpper(cmp, s, x)) == Elems(s) + {x}
    ensures |InsertUpper(cmp, s, x)| == |s| + 1
  {
    if s != [] && cmp(s[0].val, x.val) <= 0 {
      InsertUpperElems(cmp, s[1..], x);
      assert Elems(s) == {s[0]} + Elems(s[1..]);
      assert Elems(InsertUpper(cmp, s, x)) == {s[0]} + Elems(InsertUpper(cmp, s[1..], x));
    }
  }

  lemma CountOf(t: Table, chains: seq<seq<Item>>, S: set<Item>, b: nat)
    requires BucketsOk(t.buckets[..], chains, S) && b < |chains|
    ensures t.buckets.Length == |chains| && t.buckets[b].count == |chains[b]|
  {
    assert t.buckets[b] == t.buckets[..][b];
  }

  /** Put the entering item into its bucket. */
  method FinishEntering(t: Table, add: Item, ghost hash: Hasher, ghost head: Item?, ghost order: seq<Item>,
                        ghost chains: seq<seq<Item>>, ghost S: set<Item>)
    returns (ghost chains': seq<seq<Item>>)
    requires Entering(t, hash, head, order, chains, add, S)
    modifies t, t.buckets, S`hhNext, S`hhPrev, add`hhNext, add`hhPrev
    ensures t.buckets == old(t.buckets) || fresh(t.buckets)
    ensures TableOk(t, hash, head, order, chains')
    ensures var b := hash(add.key) % old(t.numBuckets);
            Counted(t, b, old(t.numBuckets), old(t.buckets[b].count) + 1, old(t.buckets[b].expandMult), old(t.noexpand))
  {
    hide Placed, BucketsOk, Counted, Recorded, Roomy;
    BktInRange(hash, add, |chains|, t.log2NumBuckets);
    CountOf(t, chains, S, BktOf(hash, add, |chains|));
    assert Hashed(hash, S + {add});
    chains' := AddToTable(t, add, hash, chains, S);
  }

  /** An empty hash is a null head; otherwise everything HASH_FSCK checks holds, and more. */
  ghost predicate HashOk(head: Item?, table: Table?, hash: Hasher, order: seq<Item>, chains: seq<seq<Item>>)
    reads table, if table == null then {} else {table.buckets}
    reads order
  {
    if head == null then order == [] && chains == [] && table == null
    else table != null && TableOk(table, hash, head, order, chains)
  }

  /** HASH_ADD up to the bucket. */
  method Enter(head: Item?, add: Item, hash: Hasher, ghost table: Table?,
               ghost order: seq<Item>, ghost chains: seq<seq<Item>>)
    returns (head': Item, t: Table, ghost chains': seq<seq<Item>>)
    requires HashOk(head, table, hash, order, chains) && add !in order && add.hashv == hash(add.key)
    modifies (if table == null then {} else {table})`tail, order`next, add`next, add`prev, add`tbl
    ensures Entering(t, hash, head', order + [add], chains', add, Elems(order))
    ensures if head == null then fresh(t) && fresh(t.buckets) && Empty32(t)
            else t == table && t.buckets == old(table.buckets)
  {
    if head == null {
      assert [] + [add] == [add];
      t, chains' := EnterFirst(add, hash);
      head' := add;
    } else {
      assert head in Elems(order);
      t, head', chains' := head.tbl, head, chains;
      EnterLast(t, add, hash, head, order, chains);
    }
  }

  /** HASH_ADD. */
  method AddItem(head: Item?, add: Item, hash: Hasher, ghost table: Table?,
                 ghost order: seq<Item>, ghost chains: seq<seq<Item>>)
    returns (head': Item, t: Table, ghost chains': seq<seq<Item>>)
    requires HashOk(head, table, hash, order, chains) && add !in order
    modifies (if table == null then {} else {table as object, table.buckets as object}), order, add
    ensures HashOk(head', t, hash, order + [add], chains')
    ensures table == null || t == table
    ensures table == null ==> fresh(t) && t.numBuckets == 32
    ensures table != null ==>
              var b := hash(add.key) % old(table.numBuckets);
              Counted(t, b, old(table.numBuckets), old(table.buckets[b].count) + 1,
                      old(table.buckets[b].expandMult), old(table.noexpand))
    ensures fresh(t.buckets) || (table != null && t.buckets == old(table.buckets))
  {
    add.hashv := hash(add.key);
    head', t, chains' := Enter(head, add, hash, table, order, chains);
    chains' := FinishEntering(t, add, hash, head', order + [add], chains', Elems(order));
  }

  /** HASH_ADD_INORDER. */
  method AddItemInorder(cmp: Cmp, head: Item?, add: Item, hash: Hasher, ghost table: Table?,
                        ghost order: seq<Item>, ghost chains: seq<seq<Item>>)
    returns (head': Item, t: Table, ghost chains': seq<seq<Item>>)
    requires HashOk(head, table, hash, order, chains) && add !in order
    modifies (if table == null then {} else {table as object, table.buckets as object}), order, add
    ensures HashOk(head', t, hash, InsertUpper(cmp, order, add), chains')
    ensures table == null || t == table
    ensures table == null ==> fresh(t) && t.numBuckets == 32
    ensures table != null ==>
              var b := hash(add.key) % old(table.numBuckets);
              Counted(t, b, old(table.numBuckets), old(table.buckets[b].count) + 1,
                      old(table.buckets[b].expandMult), old(table.noexpand))
    ensures fresh(t.buckets) || (table != null && t.buckets == old(table.buckets))
  {
    add.hashv := hash(add.key);
    head', t, chains' := EnterInorder(cmp, head, add, hash, table, order, chains);
    chains' := FinishEntering(t, add, hash, head', InsertUpper(cmp, order, add), chains', Elems(order));
  }

  method EnterInorder(cmp: Cmp, head: Item?, add: Item, hash: Hasher, ghost table: Table?,
                      ghost order: seq<Item>, ghost chains: seq<seq<Item>>)
    returns (head': Item, t: Table, ghost chains': seq<seq<Item>>)
    requires HashOk(head, table, hash, order, chains) && add !in order && add.hashv == hash(add.key)
    modifies (if table == null then {} else {table})`tail, order`next, order`prev, add`next, add`prev, add`tbl
    ensures Entering(t, hash, head', InsertUpper(cmp, order, add), chains', add, Elems(order))
    ensures if head == null then fresh(t) && fresh(t.buckets) && Empty32(t)
            else t == table && t.buckets == old(table.buckets)
  {
    if head == null {
      t, chains' := EnterFirst(add, hash);
      head' := add;
    } else {
      assert head in Elems(order);
      t, chains' := head.tbl, chains;
      head' := EnterBetween(t, head, add, cmp, hash, order, chains);
    }
  }

  // ---------------------------------------------------------------- deletion

  /** The bucket part of HASH_DELETE_HH. */
  method LeaveBucket(t: Table, del: Item, ghost hash: Hasher, ghost chains: seq<seq<Item>>, ghost S: set<Item>)
    returns (ghost chains': seq<seq<Item>>)
    requires Bucketed(t, hash, chains, S) && del in S && del.hashv == hash(del.key)
    requires t.numItems > 0
    modifies t`numItems, t.buckets, S`hhNext, S`hhPrev
    ensures Bucketed(t, hash, chains', S - {del}) && t.numItems == old(t.numItems) - 1
    ensures old(Roomy(t)) ==> Roomy(t)
  {
    hide BucketsOk;
    var b := And(del.hashv, t.numBuckets - 1);
    assert b == BktOf(hash, del, |chains|) && del in chains[b];
    ghost var k :| 0 <= k < |chains[b]| && chains[b][k] == del;
    PlacedRemove(hash, S, chains, del, b, k);
    DelInBkt(t.buckets, b, del, k, hash, chains, S);
    chains' := chains[b := chains[b][..k] + chains[b][k + 1..]];
    t.numItems := t.numItems - 1;
  }

  /** HASH_DELETE_HH on a hash of several items. */
  method LeaveTable(t: Table, head: Item, del: Item, ghost hash: Hasher,
                    ghost order: seq<Item>, ghost chains: seq<seq<Item>>, ghost k: nat)
    returns (head': Item, ghost chains': seq<seq<Item>>)
    requires TableOk(t, hash, head, order, chains) && |order| > 1 && k < |order| && order[k] == del
    modifies t, t.buckets, order
    ensures t.buckets == old(t.buckets)
    ensures TableOk(t, hash, head', RemoveAt(order, k), chains')
  {
    hide Placed, BucketsOk, Distinct, Sized, Chain, BackLinks, Recorded, Roomy;
    ghost var S := Elems(order);
    assert del in S;
    head' := Unlink(t, head, del, order, k);
    chains' := LeaveBucket(t, del, hash, chains, S);
    Left(t, head', hash, order, chains', k, S);
  }

  lemma Left(t: Table, head: Item, hash: Hasher, order: seq<Item>, chains: seq<seq<Item>>, k: nat, S: set<Item>)
    requires Distinct(order) && k < |order| && |order| > 1 && S == Elems(order)
    requires IsAppOrder(head, t.tail, RemoveAt(order, k)) && Handles(t, hash, S)
    requires Bucketed(t, hash, chains, S - {order[k]}) && t.numItems == |order| - 1 && Recorded(t) && Roomy(t)
    ensures TableOk(t, hash, head, RemoveAt(order, k), chains)
  {
    RemoveElems(order, k);
  }

  lemma RemoveElems(s: seq<Item>, k: nat)
    requires Distinct(s) && k < |s|
    ensures Elems(RemoveAt(s, k)) == Elems(s) - {s[k]}
  {
    RemovedFrom(s, k);
  }

  /** HASH_DELETE_HH: the last item takes the table with it. */
  method DeleteItem(head: Item, del: Item, hash: Hasher, ghost table: Table,
                    ghost order: seq<Item>, ghost chains: seq<seq<Item>>)
    returns (head': Item?, ghost table': Table?, ghost chains': seq<seq<Item>>)
    requires TableOk(table, hash, head, order, chains) && del in order
    modifies table, table.buckets, order
    ensures HashOk(head', table', hash, RemoveElem(order, del), chains')
    ensures table' == null || (table' == table && table.buckets == old(table.buckets))
    ensures head' == null <==> |order| == 1
  {
    hide Placed, BucketsOk;
    ghost var k :| 0 <= k < |order| && order[k] == del;
    RemoveElemAt(order, del, k);
    Neighbours(head, table.tail, order, k);
    assert del in Elems(order) && head in Elems(order);
    if del.prev == null && del.next == null {
      head', table', chains' := null, null, [];
    } else {
      table' := table;
      head', chains' := LeaveTable(head.tbl, head, del, hash, order, chains, k);
    }
  }

  lemma SortElems(cmp: Cmp, s: seq<Item>)
    requires Preorder(cmp)
    ensures Elems(StableSort(cmp, s)) == Elems(s) && |StableSort(cmp, s)| == |s|
  {
    hide StableSort;
    StableSortIsStable(cmp, s);
    SameElems(StableSort(cmp, s), s);
  }

  lemma SameElems(s: seq<Item>, t: seq<Item>)
    requires multiset(s) == multiset(t)
    ensures Elems(s) == Elems(t)
  {
    forall i | 0 <= i < |s| ensures s[i] in t { assert s[i] in multiset(t); }
    forall i | 0 <= i < |t| ensures t[i] in s { assert t[i] in multiset(s); }
  }

  /** HASH_SRT: only the application order changes. */
  method SortItems(cmp: Cmp, head: Item, hash: Hasher, ghost t: Table,
                   ghost order: seq<Item>, ghost chains: seq<seq<Item>>) returns (head': Item)
    requires Preorder(cmp) && TableOk(t, hash, head, order, chains)
    modifies t`tail, order`next, order`prev
    ensures TableOk(t, hash, head', StableSort(cmp, order), chains)
  {
    hide Placed, BucketsOk, StableSort;
    assert head in Elems(order);
    SortElems(cmp, order);
    var tbl := head.tbl;
    var list, tail;
    ghost var cmps, passes;
    list, tail, cmps, passes := HashSort(cmp, head, tbl.tail, order);
    tbl.tail := tail;
    head' := list;
  }

  // ---------------------------------------------------------------- the integrity check

  /** The bucket's forward links walk the chain c: what lets HASH_FSCK finish. */
  ghost predicate Walks(bucket: Bucket, c: seq<Item>)
    reads c`hhNext
  {
    bucket.hhHead == FirstOrNull(c) && Forward(c)
  }

  ghost predicate AllWalk(buckets: seq<Bucket>, chains: seq<seq<Item>>)
    reads set b, i | 0 <= b < |chains| && 0 <= i < |chains[b]| :: chains[b][i]
  {
    |buckets| == |chains| && forall b | 0 <= b < |chains| :: Walks(buckets[b], chains[b])
  }

  /** What HASH_FSCK is there to establish: back links, bucket counts and both totals. */
  ghost predicate Intact(t: Table, order: seq<Item>, chains: seq<seq<Item>>)
    reads t, t.buckets, order
    reads set b, i | 0 <= b < |chains| && 0 <= i < |chains[b]| :: chains[b][i]
  {
    && t.buckets.Length == |chains|
    && (forall b | 0 <= b < |chains| :: Backward(chains[b]) && t.buckets[b].count == |chains[b]|)
    && Sum(Lengths(chains)) == t.numItems
    && BackLinks(order, null) && |order| == t.numItems
  }

  /** One bucket of HASH_FSCK: check the back links and count the chain. */
  method FsckChain(bucket: Bucket, ghost c: seq<Item>) returns (ok: bool, count: nat)
    requires Walks(bucket, c)
    ensures count == |c|
    ensures ok <==> Backward(c) && bucket.count == |c|
  {
    ok, count := true, 0;
    var thh, prev := bucket.hhHead, null;
    while thh != null
      invariant count <= |c| && thh == (if count < |c| then c[count] else null)
      invariant prev == (if count > 0 then c[count - 1] else null)
      invariant ok <==> Backward(c[..count])
      decreases |c| - count
    {
      BackwardOneMore(c, count);
      if prev != thh.hhPrev { ok := false; }
      count := count + 1;
      prev, thh := thh, thh.hhNext;
    }
    assert c[..|c|] == c;
    if bucket.count != count { ok := false; }
  }

  lemma BackwardOneMore(c: seq<Item>, k: nat)
    requires k < |c|
    ensures Backward(c[..k + 1]) <==> Backward(c[..k]) && c[k].hhPrev == if k > 0 then c[k - 1] else null
  {
    var short, long := c[..k], c[..k + 1];
    assert forall i | 0 <= i < k :: short[i] == long[i];
  }

  lemma SumPrefix(counts: seq<nat>, i: nat)
    requires i < |counts|
    ensures Sum(counts[..i + 1]) == Sum(counts[..i]) + counts[i]
  {
    assert counts[..i + 1] == counts[..i] + [counts[i]];
    SumSnoc(counts[..i], counts[i]);
  }

  /** The bucket half of HASH_FSCK. */
  method FsckBuckets(buckets: array<Bucket>, numItems: nat, ghost chains: seq<seq<Item>>) returns (ok: bool)
    requires AllWalk(buckets[..], chains)
    ensures ok <==> (forall b | 0 <= b < |chains| :: Backward(chains[b]) && buckets[b].count == |chains[b]|)
                    && Sum(Lengths(chains)) == numItems
  {
    hide Backward, Sum;
    ok := true;
    var count := 0;
    SumOfNone();
    for i := 0 to buckets.Length
      invariant count == Sum(Lengths(chains)[..i])
      invariant ok <==> forall b | 0 <= b < i :: Backward(chains[b]) && buckets[b].count == |chains[b]|
    {
      assert Walks(buckets[..][i], chains[i]);
      var fine, n := FsckChain(buckets[i], chains[i]);
      SumPrefix(Lengths(chains), i);
      if !fine { ok := false; }
      count := count + n;
    }
    assert Lengths(chains)[..|chains|] == Lengths(chains);
    if count != numItems { ok := false; }
  }

  lemma SumOfNone()
    ensures Sum([]) == 0
  {
  }

  /** The application-order half of HASH_FSCK. */
  method FsckOrder(head: Item, numItems: nat, ghost order: seq<Item>) returns (ok: bool)
    requires head == FirstOrNull(order) && Chain(order, null)
    ensures ok <==> BackLinks(order, null) && |order| == numItems
  {
    ok := true;
    var count := 0;
    var thh: Item?, prev: Item? := head, null;
    while thh != null
      invariant 0 <= count <= |order| && thh == (if count < |order| then order[count] else null)
      invariant prev == (if count > 0 then order[count - 1] else null)
      invariant ok <==> BackLinks(order[..count], null)
      decreases |order| - count
    {
      BackLinksOneMore(order, count);
      count := count + 1;
      if prev != thh.prev { ok := false; }
      prev, thh := thh, thh.next;
    }
    assert order[..|order|] == order;
    if count != numItems { ok := false; }
  }

  lemma BackLinksOneMore(s: seq<Item>, k: nat)
    requires k < |s|
    ensures BackLinks(s[..k + 1], null) <==> BackLinks(s[..k], null) && s[k].prev == if k > 0 then s[k - 1] else null
  {
    var short, long := s[..k], s[..k + 1];
    assert forall i | 0 <= i < k :: short[i] == long[i];
  }

  /** HASH_FSCK accepts exactly the intact tables, among those it can walk. */
  method FsckTable(head: Item, t: Table, ghost order: seq<Item>, ghost chains: seq<seq<Item>>) returns (ok: bool)
    requires head == FirstOrNull(order) && Chain(order, null) && AllWalk(t.buckets[..], chains)
    ensures ok <==> Intact(t, order, chains)
  {
    ok := FsckBuckets(t.buckets, t.numItems, chains);
    var inOrder := FsckOrder(head, t.numItems, order);
    ok := ok && inOrder;
  }

  lemma ValidIsIntact(t: Table, hash: Hasher, head: Item, order: seq<Item>, chains: seq<seq<Item>>)
    requires TableOk(t, hash, head, order, chains)
    ensures head == FirstOrNull(order) && Chain(order, null) && AllWalk(t.buckets[..], chains)
    ensures Intact(t, order, chains)
  {
    hide Placed, Sum;
    DistinctCount(order);
    PlacedCount(hash, Elems(order), chains);
    forall b | 0 <= b < |chains|
      ensures Walks(t.buckets[..][b], chains[b]) && Backward(chains[b]) && t.buckets[b].count == |chains[b]|
    {
      assert BucketOk(t.buckets[..][b], chains[b]);
    }
  }

  /** What a find returns, read off the chains. */
  function Findable(hash: Hasher, chains: seq<seq<Item>>, key: Key): Item? {
    if |chains| == 0 || And(hash(key), |chains| - 1) >= |chains| then null
    else ItemWith(chains[And(hash(key), |chains| - 1)], key)
  }

  lemma ChainHashed(t: Table, hash: Hasher, chains: seq<seq<Item>>, order: seq<Item>, b: nat)
    requires Placed(hash, Elems(order), chains) && Handles(t, hash, Elems(order)) && b < |chains|
    ensures forall i | 0 <= i < |chains[b]| :: chains[b][i].hashv == hash(chains[b][i].key)
  {
    assert ChainPlaced(hash, Elems(order), chains[b], b, |chains|);
  }

  /** The chain of the masked hash decides membership of a key. */
  lemma FoundIn(hash: Hasher, chains: seq<seq<Item>>, order: seq<Item>, key: Key, b: nat, out: Item?)
    requires Placed(hash, Elems(order), chains)
    requires b == And(hash(key), |chains| - 1) < |chains| && out == ItemWith(chains[b], key)
    ensures out == null <==> !Holds(order, key)
    ensures out != null ==> out in order && out.key == key
  {
    ItemWithSpec(chains[b], key);
    assert ChainPlaced(hash, Elems(order), chains[b], b, |chains|);
    if out == null {
      forall i | 0 <= i < |order| ensures order[i].key != key {
        var x := order[i];
        assert x in Elems(order);
        assert x in chains[BktOf(hash, x, |chains|)];
      }
    } else {
      assert out in Elems(order);
    }
  }

  /** The variable `head` of the application, with the table hanging off it. */
  class Hash {
    const hash: Hasher
    var head: Item?
    ghost var table: Table?
    ghost var order: seq<Item>
    ghost var chains: seq<seq<Item>>

    /** The allocations behind the head: the table and its bucket array. */
    ghost function Tables(): set<object>
      reads this, table
    {
      if table == null then {} else {table as object, table.buckets as object}
    }

    ghost predicate Valid()
      reads this, table, Tables(), order
    {
      HashOk(head, table, hash, order, chains)
    }

    constructor (hash: Hasher)
      ensures Valid() && order == [] && this.hash == hash && Tables() == {}
    {
      this.hash, head := hash, null;
      table, order, chains := null, [], [];
    }

    /** HASH_FIND: the first item with the key in the chain the key hashes to, which exists
        exactly when some item has the key. */
    method Find(key: Key) returns (out: Item?)
      requires Valid()
      ensures out == null <==> !Holds(order, key)
      ensures out != null ==> out in order && out.key == key
      ensures head != null ==> out == Findable(hash, chains, key)
    {
      out := null;
      if head != null {
        assert head in Elems(order) && head.tbl == table;
        var hashv := hash(key);
        var b := And(hashv, head.tbl.numBuckets - 1);
        assert b < |chains| by { MaskIsMod(hashv, table.log2NumBuckets); }
        ChainHashed(table, hash, chains, order, b);
        out := FindInBkt(head.tbl.buckets[b], key, hashv, hash, chains[b]);
        FoundIn(hash, chains, order, key, b, out);
      }
    }

    /** The array of any hash that is not empty has 32 buckets, doubled once per recorded expansion.
        While it has 32, expansion is allowed and no chain has ten items. */
    lemma SizeLaw()
      requires Valid() && head != null
      ensures table.buckets.Length == table.numBuckets == |chains| == 32 * Pow2(|table.history|) >= 32
      ensures table.numBuckets == 32 ==>
                !table.noexpand && forall b | 0 <= b < 32 :: |chains[b]| <= 9 && table.buckets[b].expandMult == 0
      ensures table.numBuckets != 32 ==> table.numBuckets >= 64
    {
      forall b | 0 <= b < |chains| ensures |chains[b]| == table.buckets[b].count {
        CountOf(table, chains, Elems(order), b);
      }
    }

    /** Expansion is inhibited exactly when two doublings in a row each left more than half of the items
        beyond the ideal length; a doubling that pays starts the count again. */
    lemma InhibitLaw()
      requires Valid() && head != null
      ensures var h := table.history;
              table.noexpand <==> exists i | 1 <= i < |h| :: 2 * h[i - 1].nonideal > h[i - 1].items
                                                             && 2 * h[i].nonideal > h[i].items
      ensures var h := table.history;
              h != [] && 2 * h[|h| - 1].nonideal <= h[|h| - 1].items ==> table.ineffExpands == 0
    {
    }

    /** Ten items that share one of 32 buckets make the array double. */
    lemma TenInABucket(S: set<Item>, b: nat)
      requires Valid() && |S| >= 10 && S <= Elems(order) && forall x | x in S :: hash(x.key) % 32 == b
      ensures head != null && table.numBuckets >= 64
    {
      hide IsAppOrder, BucketsOk;
      var x :| x in S;
      assert x in order;
      SizeLaw();
      if table.numBuckets == 32 {
        assert Pow2(5) == 32;
        forall y | y in S ensures y in Elems(chains[b]) {
          assert y in Elems(order);
          MaskIsMod(hash(y.key), 5);
        }
        SubsetSize(S, Elems(chains[b]));
        assert ChainPlaced(hash, Elems(order), chains[b], b, |chains|);
        DistinctCount(chains[b]);
      }
    }

    /** HASH_ADD. */
    method Add(add: Item)
      requires Valid() && add !in order
      modifies this, Tables(), order, add
      ensures Valid() && fresh(Tables() - old(Tables()))
      ensures order == old(order) + [add]
      ensures old(head) == null ==> table.numBuckets == 32
      ensures old(head) != null ==>
                var n, was := old(table.numBuckets), old(table.buckets[hash(add.key) % table.numBuckets]);
                table.numBuckets ==
                if was.count + 1 >= 10 * (was.expandMult + 1) && !old(table.noexpand) then 2 * n else n
      ensures old(head) != null && table.numBuckets == old(table.numBuckets) ==>
                var now := table.buckets[hash(add.key) % table.numBuckets];
                now.count < 10 * (now.expandMult + 1) || table.noexpand
    {
      hide TableOk, Counted;
      if head != null { SizeLaw(); }
      var head', t;
      ghost var chains';
      head', t, chains' := AddItem(head, add, hash, table, order, chains);
      if head != null { CountedLaw(t, hash(add.key) % old(table.numBuckets), old(table.numBuckets),
                                   old(table.buckets[hash(add.key) % table.numBuckets]), old(table.noexpand)); }
      head, table, order, chains := head', t, order + [add], chains';
    }

    /** HASH_ADD_INORDER. */
    method AddInorder(cmp: Cmp, add: Item)
      requires Valid() && add !in order
      modifies this, Tables(), order, add
      ensures Valid() && fresh(Tables() - old(Tables()))
      ensures order == InsertUpper(cmp, old(order), add)
      ensures old(head) == null ==> table.numBuckets == 32
      ensures old(head) != null ==>
                var n, was := old(table.numBuckets), old(table.buckets[hash(add.key) % table.numBuckets]);
                table.numBuckets ==
                if was.count + 1 >= 10 * (was.expandMult + 1) && !old(table.noexpand) then 2 * n else n
      ensures old(head) != null && table.numBuckets == old(table.numBuckets) ==>
                var now := table.buckets[hash(add.key) % table.numBuckets];
                now.count < 10 * (now.expandMult + 1) || table.noexpand
    {
      hide TableOk, Counted;
      if head != null { SizeLaw(); }
      var head', t;
      ghost var chains';
      head', t, chains' := AddItemInorder(cmp, head, add, hash, table, order, chains);
      if head != null { CountedLaw(t, hash(add.key) % old(table.numBuckets), old(table.numBuckets),
                                   old(table.buckets[hash(add.key) % table.numBuckets]), old(table.noexpand)); }
      head, table, order, chains := head', t, InsertUpper(cmp, order, add), chains';
    }

    /** HASH_DELETE: the table is freed exactly when the last item goes. */
    method Delete(del: Item)
      requires Valid() && del in order
      modifies this, Tables(), order
      ensures Valid() && Tables() <= old(Tables())
      ensures order == RemoveElem(old(order), del)
      ensures head == null <==> |old(order)| == 1
    {
      hide TableOk;
      var head';
      ghost var table', chains';
      head', table', chains' := DeleteItem(head, del, hash, table, order, chains);
      head, table, order, chains := head', table', RemoveElem(order, del), chains';
    }

    /** HASH_REPLACE: the new item goes to the end of the application order.  An item that is in
        the table already may replace itself. */
    method Replace(add: Item) returns (replaced: Item?)
      requires Valid()
      requires add in order ==> forall i | 0 <= i < |order| && order[i].key == add.key :: order[i] == add
      modifies this, Tables(), order, add
      ensures Valid() && fresh(Tables() - old(Tables()))
      ensures replaced == null <==> !Holds(old(order), add.key)
      ensures replaced != null ==> replaced in old(order) && replaced.key == add.key
      ensures order == (if replaced == null then old(order) else RemoveElem(old(order), replaced)) + [add]
    {
      hide TableOk, RemoveElem;
      replaced := Find(add.key);
      if replaced != null {
        RemoveElemSubset(order, replaced);
        if add in order {
          OrderDistinct();
          RemovedIsGone(order, add);
        }
        Delete(replaced);
      }
      Add(add);
    }

    lemma OrderDistinct()
      requires Valid()
      ensures Distinct(order)
    {
    }

    /** HASH_SRT. */
    method Sort(cmp: Cmp)
      requires Valid() && Preorder(cmp)
      modifies this, Tables(), order
      ensures Valid() && Tables() == old(Tables())
      ensures order == StableSort(cmp, old(order)) && chains == old(chains)
    {
      hide TableOk;
      if head != null {
        head := SortItems(cmp, head, hash, table, order, chains);
        order := StableSort(cmp, order);
      }
    }

    /** The deletion-safe HASH_ITER of dict_deinit: delete every item while walking the order. */
    method DeleteAll() returns (ghost visited: seq<Item>)
      requires Valid()
      modifies this, Tables(), order
      ensures Valid() && head == null && order == []
      ensures visited == old(order)
    {
      hide TableOk, RemoveElem;
      visited := [];
      var el := head;
      var tmp := if el != null then el.next else null;
      StartIter();
      while el != null
        invariant Valid() && Tables() <= old(Tables())
        invariant |visited| <= |old(order)| && visited == old(order)[..|visited|] && order == old(order)[|visited|..]
        invariant el == head == FirstOrNull(order) && tmp == (if |order| > 1 then order[1] else null)
        decreases |order|
      {
        RemoveFirst(order);
        visited := visited + [order[0]];
        Delete(el);
        el := tmp;
        tmp := if tmp != null then tmp.next else null;
        StartIter();
      }
    }

    /** The first two items as the iteration macro reads them. */
    lemma StartIter()
      requires Valid()
      ensures head == FirstOrNull(order)
      ensures head != null ==> head.next == if |order| > 1 then order[1] else null
    {
      if head != null { Neighbours(head, table.tail, order, 0); }
    }

    /** HASH_FSCK reports nothing on a valid hash. */
    method Fsck() returns (ok: bool)
      requires Valid()
      ensures ok
    {
      ok := true;
      if head != null {
        assert head in Elems(order);
        ValidIsIntact(table, hash, head, order, chains);
        ok := FsckTable(head, head.tbl, order, chains);
      }
    }

    /** HASH_CLEAR: drop the table without touching the items. */
    method Clear()
      requires Valid()
      modifies this
      ensures Valid() && order == []
    {
      if head != null {
        head, table, order, chains := null, null, [], [];
      }
    }
  }

  lemma CountedLaw(t: Table, b: nat, n: nat, was: Bucket, noexpand: bool)
    requires Counted(t, b, n, was.count + 1, was.expandMult, noexpand) && n > 0
    ensures t.numBuckets == if was.count + 1 >= 10 * (was.expandMult + 1) && !noexpand then 2 * n else n
    ensures t.numBuckets == n ==>
              b < t.buckets.Length && (t.buckets[b].count < 10 * (t.buckets[b].expandMult + 1) || t.noexpand)
  {
  }

  lemma {:induction false} SubsetSize(S: set<Item>, T: set<Item>)
    requires S <= T
    ensures |S| <= |T|
    decreases S
  {
    if S != {} {
      var x :| x in S;
      SubsetSize(S - {x}, T - {x});
    }
  }

  lemma RemoveFirst(s: seq<Item>)
    requires s != []
    ensures RemoveElem(s, s[0]) == s[1..]
  {
  }

  lemma {:induction false} RemovedIsGone(s: seq<Item>, x: Item)
    requires Distinct(s)
    ensures x !in RemoveElem(s, x)
  {
    if s != [] && s[0] != x { RemovedIsGone(s[1..], x); }
  }

  lemma {:induction false} RemoveElemSubset(s: seq<Item>, x: Item)
    ensures forall i | 0 <= i < |RemoveElem(s, x)| :: RemoveElem(s, x)[i] in s
    ensures x in s ==> |RemoveElem(s, x)| == |s| - 1
  {
    if s != [] && s[0] != x { RemoveElemSubset(s[1..], x); }
  }
}
