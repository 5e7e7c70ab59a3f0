/** The application order of uthash.h: a doubly linked list that is null-terminated in both
    directions and whose last handle the table remembers as its tail. */
module AppOrder {
  import opened Items
  import opened StableSorting
  import opened ListSort
  import opened ListOps

  lemma Neighbours(head: Item?, tail: Item?, s: seq<Item>, k: nat)
    requires IsAppOrder(head, tail, s) && k < |s|
    ensures s[k].next == if k + 1 < |s| then s[k + 1] else null
    ensures s[k].prev == if k > 0 then s[k - 1] else null
    ensures tail == s[|s| - 1]
  {
  }

  /** HASH_APPEND_LIST. */
  method AppendList(t: Table, add: Item, ghost head: Item, ghost s: seq<Item>)
    requires s != [] && IsAppOrder(head, t.tail, s) && add !in s
    modifies t`tail, s`next, add`next, add`prev
    ensures IsAppOrder(head, t.tail, s + [add])
  {
    add.next := null;
    add.prev := t.tail;
    t.tail.next := add;
    t.tail := add;
  }

  /** How many leading elements of s are not greater than x: where the insertion scan stops. */
  function UpperBound(cmp: Cmp, s: seq<Item>, x: Item): (k: nat)
    ensures k <= |s|
    ensures forall i | 0 <= i < k :: cmp(s[i].val, x.val) <= 0
    ensures k < |s| ==> cmp(s[k].val, x.val) > 0
  {
    if s == [] || cmp(s[0].val, x.val) > 0 then 0 else 1 + UpperBound(cmp, s[1..], x)
  }

  /** Inserting at the upper bound is the specification's in-order insertion. */
  lemma {:induction false} InsertAtUpperBound(cmp: Cmp, s: seq<Item>, x: Item)
    ensures InsertUpper(cmp, s, x) == InsertAt(s, UpperBound(cmp, s, x), x)
  {
    if s != [] && cmp(s[0].val, x.val) <= 0 {
      InsertAtUpperBound(cmp, s[1..], x);
      assert InsertAt(s, UpperBound(cmp, s, x), x) == [s[0]] + InsertAt(s[1..], UpperBound(cmp, s[1..], x), x);
    }
  }

  /** The scan of HASH_AKBI_INNER_LOOP: the first element greater than add, or null. */
  method FindUpperBound(cmp: Cmp, head: Item, add: Item, ghost tail: Item, ghost s: seq<Item>)
    returns (iter: Item?)
    requires s != [] && IsAppOrder(head, tail, s)
    ensures iter == if UpperBound(cmp, s, add) < |s| then s[UpperBound(cmp, s, add)] else null
  {
    iter := head;
    ghost var k := 0;
    while iter != null
      invariant 0 <= k <= |s| && iter == (if k < |s| then s[k] else null)
      invariant forall i | 0 <= i < k :: cmp(s[i].val, add.val) <= 0
      decreases |s| - k
    {
      if cmp(iter.val, add.val) > 0 {
        break;
      }
      Neighbours(head, tail, s, k);
      iter, k := iter.next, k + 1;
    }
    assert k == UpperBound(cmp, s, add);
  }

  /** Link add in front of the element at k. */
  method InsertBefore(t: Table, head: Item, iter: Item, add: Item, ghost s: seq<Item>, ghost k: nat)
    returns (head': Item)
    requires IsAppOrder(head, t.tail, s) && add !in s && k < |s| && iter == s[k]
    modifies s`next, s`prev, add`next, add`prev
    ensures IsAppOrder(head', t.tail, InsertAt(s, k, add))
  {
    Neighbours(head, t.tail, s, k);
    InsertDistinct(s, k, add);
    ghost var d := InsertAt(s, k, add);
    assert d[|d| - 1] == s[|s| - 1];
    head' := head;
    add.next := iter;
    add.prev := iter.prev;
    if add.prev != null {
      add.prev.next := add;
    } else {
      head' := add;
    }
    iter.prev := add;
  }

  /** The list part of HASH_ADD_KEYPTR_BYHASHVALUE_INORDER: in front of the first greater element,
      otherwise at the end. */
  method LinkInorder(cmp: Cmp, t: Table, head: Item, add: Item, ghost s: seq<Item>) returns (head': Item)
    requires s != [] && IsAppOrder(head, t.tail, s) && add !in s
    modifies t`tail, s`next, s`prev, add`next, add`prev
    ensures IsAppOrder(head', t.tail, InsertUpper(cmp, s, add))
  {
    ghost var k := UpperBound(cmp, s, add);
    InsertAtUpperBound(cmp, s, add);
    var iter := FindUpperBound(cmp, head, add, t.tail, s);
    if iter != null {
      head' := InsertBefore(t, head, iter, add, s, k);
    } else {
      head' := head;
      AppendList(t, add, head, s);
      assert InsertAt(s, k, add) == s + [add];
    }
  }

  /** The list part of HASH_DELETE_HH on a list of at least two elements. */
  method Unlink(t: Table, head: Item, del: Item, ghost s: seq<Item>, ghost k: nat) returns (head': Item)
    requires IsAppOrder(head, t.tail, s) && k < |s| && del == s[k] && |s| > 1
    modifies t`tail, s`next, s`prev
    ensures IsAppOrder(head', t.tail, RemoveAt(s, k))
  {
    Neighbours(head, t.tail, s, k);
    RemoveDistinct(s, k);
    if del == t.tail {
      t.tail := del.prev;
    }
    if del.prev != null {
      head' := head;
      del.prev.next := del.next;
    } else {
      head' := del.next;
    }
    if del.next != null {
      del.next.prev := del.prev;
    }
  }
}
