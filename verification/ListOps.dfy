/** The list surgery macros of utlist.h, each proved to perform one sequence operation while
    keeping the shape of its list: null-terminated (LL), with a head that links back to the
    tail (DL), or a ring (CDL).  The ghost index k says where the element stands. */
module ListOps {
  import opened Items
  import opened StableSorting
  import opened ListSort

  function RemoveAt(s: seq<Item>, k: nat): seq<Item>
    requires k < |s|
  {
    s[..k] + s[k + 1..]
  }

  /** The neighbours of the element at k, as its links name them. */
  lemma NeighboursAt(head: Item?, s: seq<Item>, k: nat, end: Item?)
    requires head == FirstOrNull(s) && k < |s| && Chain(s, end)
    ensures s[k].next == if k + 1 < |s| then s[k + 1] else end
    ensures k > 0 ==> s[k - 1].next == s[k]
    ensures BackLinks(s, LastOrNull(s)) ==> s[k].prev == (if k == 0 then s[|s| - 1] else s[k - 1])
    ensures BackLinks(s, LastOrNull(s)) && k + 1 < |s| ==> s[k + 1].prev == s[k]
    ensures BackLinks(s, LastOrNull(s)) ==> s[0].prev == s[|s| - 1]
  {
  }

  function InsertAt(s: seq<Item>, k: nat, x: Item): seq<Item>
    requires k <= |s|
  {
    s[..k] + [x] + s[k..]
  }

  /** s without its first occurrence of x. */
  function RemoveElem(s: seq<Item>, x: Item): seq<Item> {
    if s == [] then []
    else if s[0] == x then s[1..]
    else [s[0]] + RemoveElem(s[1..], x)
  }

  lemma {:induction false} RemoveElemAt(s: seq<Item>, x: Item, k: nat)
    requires k <= |s| && x !in s[..k] && (k < |s| ==> s[k] == x)
    ensures RemoveElem(s, x) == if k < |s| then RemoveAt(s, k) else s
  {
    if k > 0 {
      assert s[0] in s[..k] && s[1..][..k - 1] == s[..k][1..];
      RemoveElemAt(s[1..], x, k - 1);
    }
  }

  /** How many leading elements of s are smaller than x: where LOWER_BOUND stops. */
  function LowerBound(cmp: Cmp, s: seq<Item>, x: Item): (k: nat)
    ensures k <= |s|
    ensures forall i | 0 <= i < k :: cmp(s[i].val, x.val) < 0
    ensures k < |s| ==> cmp(s[k].val, x.val) >= 0
  {
    if s == [] || cmp(s[0].val, x.val) >= 0 then 0 else 1 + LowerBound(cmp, s[1..], x)
  }

  /** Inserting at the lower bound is the specification's in-order insertion. */
  lemma {:induction false} InsertAtLowerBound(cmp: Cmp, s: seq<Item>, x: Item, k: nat)
    requires k <= |s| && (forall i | 0 <= i < k :: cmp(s[i].val, x.val) < 0)
    requires k < |s| ==> cmp(s[k].val, x.val) >= 0
    ensures InsertLower(cmp, s, x) == InsertAt(s, k, x)
  {
    if s != [] && k > 0 {
      InsertAtLowerBound(cmp, s[1..], x, k - 1);
      assert InsertAt(s, k, x) == [s[0]] + InsertAt(s[1..], k - 1, x);
    }
  }

  lemma InsertDistinct(s: seq<Item>, k: nat, x: Item)
    requires Distinct(s) && x !in s && k <= |s|
    ensures Distinct(InsertAt(s, k, x)) && InsertAt(s, k, x)[k] == x
    ensures k > 0 ==> InsertAt(s, k, x)[k - 1] == s[k - 1]
    ensures k < |s| ==> InsertAt(s, k, x)[k + 1] == s[k]
  {
  }

  lemma RemoveDistinct(s: seq<Item>, k: nat)
    requires Distinct(s) && k < |s|
    ensures Distinct(RemoveAt(s, k)) && s[k] !in RemoveAt(s, k)
    ensures forall i | 0 <= i < |s| - 1 :: RemoveAt(s, k)[i] == if i < k then s[i] else s[i + 1]
  {
  }

  // ---------------------------------------------------------------- singly linked lists

  method LlAppend(head: Item?, add: Item, ghost s: seq<Item>) returns (head': Item)
    requires IsLl(head, s) && add !in s
    modifies s`next, add`next
    ensures IsLl(head', s + [add])
  {
    add.next := null;
    if head != null {
      head' := head;
      var tmp := head;
      ghost var i := 0;
      while tmp.next != null
        invariant 0 <= i < |s| && tmp == s[i] && Chain(s, null)
        decreases |s| - i
      {
        tmp, i := tmp.next, i + 1;
      }
      NeighboursAt(head, s, i, null);
      assert i == |s| - 1 && (s + [add])[i] == tmp && (s + [add])[i + 1] == add;
      assert forall j | 0 <= j < |s| :: (s + [add])[j] == s[j];
      tmp.next := add;
    } else {
      head' := add;
    }
  }

  /** Walk to the element before del, or to the last element if del is not on the list. */
  method FindBefore(head: Item, del: Item, ghost s: seq<Item>) returns (tmp: Item, ghost i: nat)
    requires IsLl(head, s) && head != del
    ensures i < |s| && tmp == s[i] && del !in s[..i + 1]
    ensures tmp.next == (if i + 1 < |s| then s[i + 1] else null) && (tmp.next != null ==> tmp.next == del)
  {
    tmp, i := head, 0;
    while tmp.next != null && tmp.next != del
      invariant 0 <= i < |s| && tmp == s[i] && del !in s[..i + 1]
      decreases |s| - i
    {
      NeighboursAt(head, s, i, null);
      tmp, i := tmp.next, i + 1;
    }
    NeighboursAt(head, s, i, null);
  }

  method CutAfter(ghost head: Item, tmp: Item, del: Item, ghost s: seq<Item>, ghost i: nat)
    requires IsLl(head, s) && i + 1 < |s| && tmp == s[i] && del == s[i + 1]
    modifies tmp`next
    ensures IsLl(head, RemoveAt(s, i + 1))
  {
    RemoveDistinct(s, i + 1);
    NeighboursAt(head, s, i + 1, null);
    tmp.next := del.next;
  }

  /** LL_DELETE2: an element that is not on the list leaves it alone. */
  method LlDelete(head: Item, del: Item, ghost s: seq<Item>) returns (head': Item?)
    requires IsLl(head, s)
    modifies s`next
    ensures IsLl(head', RemoveElem(s, del))
  {
    hide RemoveElem;
    if head == del {
      RemoveElemAt(s, del, 0);
      NeighboursAt(head, s, 0, null);
      head' := head.next;
    } else {
      head' := head;
      var tmp;
      ghost var i;
      tmp, i := FindBefore(head, del, s);
      RemoveElemAt(s, del, i + 1);
      if tmp.next != null {
        CutAfter(head, tmp, del, s, i);
      }
    }
  }

  /** LL_, DL_ and CDL_LOWER_BOUND2 on a list whose last element links to end (null, or the head
      of a ring): the element after which `like` belongs, null for the front. */
  method FindLowerBound(cmp: Cmp, head: Item?, end: Item?, like: Item, ghost s: seq<Item>) returns (elt: Item?)
    requires head == FirstOrNull(s) && Distinct(s) && Chain(s, end) && (end == null || end == head)
    ensures elt == if LowerBound(cmp, s, like) == 0 then null else s[LowerBound(cmp, s, like) - 1]
  {
    if head == null || cmp(head.val, like.val) >= 0 {
      elt := null;
    } else {
      elt := head;
      ghost var i := 0;
      while elt.next != end
        invariant 0 <= i < |s| && elt == s[i]
        invariant forall j | 0 <= j <= i :: cmp(s[j].val, like.val) < 0
        decreases |s| - i
      {
        NeighboursAt(head, s, i, end);
        if cmp(elt.next.val, like.val) >= 0 {
          break;
        }
        elt, i := elt.next, i + 1;
      }
      NeighboursAt(head, s, i, end);
      assert i + 1 == LowerBound(cmp, s, like);
    }
  }

  method LlAppendElem(head: Item?, el: Item?, add: Item, ghost s: seq<Item>, ghost k: nat) returns (head': Item)
    requires IsLl(head, s) && add !in s && k <= |s| && el == (if k == 0 then null else s[k - 1])
    modifies s`next, add`next
    ensures IsLl(head', InsertAt(s, k, add))
  {
    if el != null {
      add.next := el.next;
      el.next := add;
      head' := head;
    } else {
      add.next := head;
      head' := add;
    }
  }

  method LlInsertInorder(cmp: Cmp, head: Item?, add: Item, ghost s: seq<Item>) returns (head': Item)
    requires IsLl(head, s) && add !in s
    modifies s`next, add`next
    ensures IsLl(head', InsertLower(cmp, s, add))
  {
    ghost var k := LowerBound(cmp, s, add);
    InsertAtLowerBound(cmp, s, add, k);
    if head != null {
      var tmp := FindLowerBound(cmp, head, null, add, s);
      head' := LlAppendElem(head, tmp, add, s, k);
    } else {
      head' := add;
      head'.next := null;
    }
  }

  // ---------------------------------------------------------------- doubly linked lists

  method DlPrepend(head: Item?, add: Item, ghost s: seq<Item>) returns (head': Item)
    requires IsDl(head, s) && add !in s
    modifies s`prev, add`next, add`prev
    ensures IsDl(head', [add] + s)
  {
    add.next := head;
    if head != null {
      add.prev := head.prev;
      head.prev := add;
    } else {
      add.prev := add;
    }
    head' := add;
  }

  method DlAppend(head: Item?, add: Item, ghost s: seq<Item>) returns (head': Item)
    requires IsDl(head, s) && add !in s
    modifies s`next, s`prev, add`next, add`prev
    ensures IsDl(head', s + [add])
  {
    if head != null {
      head' := head;
      add.prev := head.prev;
      head.prev.next := add;
      head.prev := add;
      add.next := null;
    } else {
      head' := add;
      head'.prev := head';
      head'.next := null;
    }
  }

  method DlConcat(head1: Item?, head2: Item?, ghost s: seq<Item>, ghost t: seq<Item>) returns (head': Item?)
    requires IsDl(head1, s) && IsDl(head2, t) && Disjoint(s, t)
    modifies s`next, s`prev, t`prev
    ensures IsDl(head', s + t)
  {
    head' := head1;
    if head2 != null {
      if head1 != null {
        var tmp := head2.prev;
        head2.prev := head1.prev;
        head1.prev.next := head2;
        head1.prev := tmp;
      } else {
        head' := head2;
        assert s + t == t;
      }
    } else {
      assert s + t == s;
    }
  }

  method DlDelete(head: Item, del: Item, ghost s: seq<Item>, ghost k: nat) returns (head': Item?)
    requires IsDl(head, s) && k < |s| && s[k] == del
    modifies s`next, s`prev
    ensures IsDl(head', RemoveAt(s, k))
  {
    NeighboursAt(head, s, k, null);
    RemoveDistinct(s, k);
    if del.prev == del {
      head' := null;
      assert |s| == 1;
    } else if del == head {
      del.next.prev := del.prev;
      head' := del.next;
    } else {
      head' := head;
      del.prev.next := del.next;
      if del.next != null {
        del.next.prev := del.prev;
      } else {
        head.prev := del.prev;
      }
    }
  }

  method DlReplaceElem(head: Item, el: Item, add: Item, ghost s: seq<Item>, ghost k: nat) returns (head': Item)
    requires IsDl(head, s) && k < |s| && s[k] == el && add !in s
    modifies s`next, s`prev, add`next, add`prev
    ensures IsDl(head', s[k := add])
  {
    NeighboursAt(head, s, k, null);
    if head == el {
      head' := add;
      add.next := el.next;
      if el.next == null {
        add.prev := add;
      } else {
        add.prev := el.prev;
        add.next.prev := add;
      }
    } else {
      head' := head;
      add.next := el.next;
      add.prev := el.prev;
      add.prev.next := add;
      if el.next == null {
        head.prev := add;
      } else {
        add.next.prev := add;
      }
    }
  }

  method DlPrependElem(head: Item?, el: Item?, add: Item, ghost s: seq<Item>, ghost k: nat) returns (head': Item)
    requires IsDl(head, s) && add !in s && k <= |s| && el == (if k == |s| then null else s[k])
    modifies s`next, s`prev, add`next, add`prev
    ensures IsDl(head', InsertAt(s, k, add))
  {
    hide Distinct;
    InsertDistinct(s, k, add);
    if el != null {
      NeighboursAt(head, s, k, null);
      add.next := el;
      add.prev := el.prev;
      el.prev := add;
      if head == el {
        head' := add;
      } else {
        head' := head;
        add.prev.next := add;
      }
    } else {
      head' := DlAppend(head, add, s);
      assert InsertAt(s, k, add) == s + [add];
    }
  }

  method DlAppendElem(head: Item?, el: Item?, add: Item, ghost s: seq<Item>, ghost k: nat) returns (head': Item)
    requires IsDl(head, s) && add !in s && k <= |s| && el == (if k == 0 then null else s[k - 1])
    modifies s`next, s`prev, add`next, add`prev
    ensures IsDl(head', InsertAt(s, k, add))
  {
    InsertDistinct(s, k, add);
    if el != null {
      NeighboursAt(head, s, k - 1, null);
      head' := head;
      add.next := el.next;
      add.prev := el;
      el.next := add;
      if add.next != null {
        add.next.prev := add;
      } else {
        assert InsertAt(s, k, add) == s + [add];
        head.prev := add;
      }
    } else {
      head' := DlPrepend(head, add, s);
      assert InsertAt(s, k, add) == [add] + s;
    }
  }

  method DlInsertInorder(cmp: Cmp, head: Item?, add: Item, ghost s: seq<Item>) returns (head': Item)
    requires IsDl(head, s) && add !in s
    modifies s`next, s`prev, add`next, add`prev
    ensures IsDl(head', InsertLower(cmp, s, add))
  {
    ghost var k := LowerBound(cmp, s, add);
    InsertAtLowerBound(cmp, s, add, k);
    if head != null {
      var tmp := FindLowerBound(cmp, head, null, add, s);
      head' := DlAppendElem(head, tmp, add, s, k);
    } else {
      head' := add;
      head'.prev := head';
      head'.next := null;
    }
  }

  // ---------------------------------------------------------------- rings

  method CdlAppend(head: Item?, add: Item, ghost s: seq<Item>) returns (head': Item)
    requires IsCdl(head, s) && add !in s
    modifies s`next, s`prev, add`next, add`prev
    ensures IsCdl(head', s + [add])
  {
    if head != null {
      head' := head;
      add.prev := head.prev;
      add.next := head;
      head.prev := add;
      add.prev.next := add;
    } else {
      add.prev := add;
      add.next := add;
      head' := add;
    }
  }

  method CdlPrepend(head: Item?, add: Item, ghost s: seq<Item>) returns (head': Item)
    requires IsCdl(head, s) && add !in s
    modifies s`next, s`prev, add`next, add`prev
    ensures IsCdl(head', [add] + s)
  {
    if head != null {
      add.prev := head.prev;
      add.next := head;
      head.prev := add;
      add.prev.next := add;
    } else {
      add.prev := add;
      add.next := add;
    }
    head' := add;
  }

  method CdlDelete(head: Item, del: Item, ghost s: seq<Item>, ghost k: nat) returns (head': Item?)
    requires IsCdl(head, s) && k < |s| && s[k] == del
    modifies s`next, s`prev
    ensures IsCdl(head', RemoveAt(s, k))
  {
    NeighboursAt(head, s, k, head);
    NeighboursAt(head, s, |s| - 1, head);
    RemoveDistinct(s, k);
    if head == del && head.next == head {
      head' := null;
    } else {
      del.next.prev := del.prev;
      del.prev.next := del.next;
      head' := head;
      if del == head {
        head' := del.next;
      }
    }
  }

  method CdlReplaceElem(head: Item, el: Item, add: Item, ghost s: seq<Item>, ghost k: nat) returns (head': Item)
    requires IsCdl(head, s) && k < |s| && s[k] == el && add !in s
    modifies s`next, s`prev, add`next, add`prev
    ensures IsCdl(head', s[k := add])
  {
    NeighboursAt(head, s, k, head);
    NeighboursAt(head, s, |s| - 1, head);
    head' := head;
    if el.next == el {
      add.next := add;
      add.prev := add;
      head' := add;
    } else {
      add.next := el.next;
      add.prev := el.prev;
      add.next.prev := add;
      add.prev.next := add;
      if head == el {
        head' := add;
      }
    }
  }

  method CdlPrependElem(head: Item?, el: Item?, add: Item, ghost s: seq<Item>, ghost k: nat) returns (head': Item)
    requires IsCdl(head, s) && add !in s && k <= |s| && el == (if k == |s| then null else s[k])
    modifies s`next, s`prev, add`next, add`prev
    ensures IsCdl(head', InsertAt(s, k, add))
  {
    InsertDistinct(s, k, add);
    if el != null {
      NeighboursAt(head, s, k, head);
      NeighboursAt(head, s, |s| - 1, head);
      add.next := el;
      add.prev := el.prev;
      el.prev := add;
      add.prev.next := add;
      head' := head;
      if head == el {
        head' := add;
      }
    } else {
      head' := CdlAppend(head, add, s);
      assert InsertAt(s, k, add) == s + [add];
    }
  }

  method CdlAppendElem(head: Item?, el: Item?, add: Item, ghost s: seq<Item>, ghost k: nat) returns (head': Item)
    requires IsCdl(head, s) && add !in s && k <= |s| && el == (if k == 0 then null else s[k - 1])
    modifies s`next, s`prev, add`next, add`prev
    ensures IsCdl(head', InsertAt(s, k, add))
  {
    InsertDistinct(s, k, add);
    if el != null {
      NeighboursAt(head, s, k - 1, head);
      NeighboursAt(head, s, |s| - 1, head);
      head' := head;
      add.next := el.next;
      add.prev := el;
      el.next := add;
      add.next.prev := add;
    } else {
      head' := CdlPrepend(head, add, s);
      assert InsertAt(s, k, add) == [add] + s;
    }
  }

  method CdlInsertInorder(cmp: Cmp, head: Item?, add: Item, ghost s: seq<Item>) returns (head': Item)
    requires IsCdl(head, s) && add !in s
    modifies s`next, s`prev, add`next, add`prev
    ensures IsCdl(head', InsertLower(cmp, s, add))
  {
    ghost var k := LowerBound(cmp, s, add);
    InsertAtLowerBound(cmp, s, add, k);
    if head != null {
      var tmp := FindLowerBound(cmp, head, head, add, s);
      head' := CdlAppendElem(head, tmp, add, s, k);
    } else {
      head' := add;
      head'.next := head';
      head'.prev := head';
    }
  }

  // ---------------------------------------------------------------- one insertion after the other

  lemma {:induction false} InsertLowerMembers(cmp: Cmp, s: seq<Item>, x: Item)
    ensures forall i | 0 <= i < |InsertLower(cmp, s, x)| :: InsertLower(cmp, s, x)[i] in s + [x]
  {
    if s != [] && cmp(s[0].val, x.val) < 0 { InsertLowerMembers(cmp, s[1..], x); }
  }

  lemma {:induction false} InsertAllMembers(cmp: Cmp, s: seq<Item>)
    ensures forall i | 0 <= i < |InsertAllLower(cmp, s)| :: InsertAllLower(cmp, s)[i] in s
  {
    hide InsertLower;
    if s != [] {
      InsertAllMembers(cmp, s[..|s| - 1]);
      InsertLowerMembers(cmp, InsertAllLower(cmp, s[..|s| - 1]), s[|s| - 1]);
    }
  }

  lemma NoInsertions(cmp: Cmp, items: seq<Item>)
    ensures InsertAllLower(cmp, items[..0]) == []
  {
  }

  lemma NextInsertion(cmp: Cmp, items: seq<Item>, k: nat)
    requires Distinct(items) && k < |items|
    ensures var s := InsertAllLower(cmp, items[..k]);
            && InsertAllLower(cmp, items[..k + 1]) == InsertLower(cmp, s, items[k])
            && items[k] !in s && forall i | 0 <= i < |s| :: s[i] in items
  {
    hide InsertLower;
    InsertAllMembers(cmp, items[..k]);
    assert items[..k + 1][..k] == items[..k];
  }

  /** Inserting the items one by one into an empty list sorts them, later equals first. */
  method LlInsertAll(cmp: Cmp, items: seq<Item>) returns (head: Item?)
    requires Preorder(cmp) && Distinct(items)
    modifies items`next
    ensures IsLl(head, InsertAllLower(cmp, items)) && IsLl(head, StableSort(cmp, Reverse(items)))
  {
    hide InsertAllLower, InsertLower, StableSort, Preorder;
    head := null;
    NoInsertions(cmp, items);
    for k := 0 to |items|
      invariant IsLl(head, InsertAllLower(cmp, items[..k]))
    {
      NextInsertion(cmp, items, k);
      head := LlInsertInorder(cmp, head, items[k], InsertAllLower(cmp, items[..k]));
    }
    assert items[..|items|] == items;
    InsertAllLowerSortsReverse(cmp, items);
  }

  method DlInsertAll(cmp: Cmp, items: seq<Item>) returns (head: Item?)
    requires Preorder(cmp) && Distinct(items)
    modifies items`next, items`prev
    ensures IsDl(head, InsertAllLower(cmp, items)) && IsDl(head, StableSort(cmp, Reverse(items)))
  {
    hide InsertAllLower, InsertLower, StableSort, Preorder;
    head := null;
    NoInsertions(cmp, items);
    for k := 0 to |items|
      invariant IsDl(head, InsertAllLower(cmp, items[..k]))
    {
      NextInsertion(cmp, items, k);
      head := DlInsertInorder(cmp, head, items[k], InsertAllLower(cmp, items[..k]));
    }
    assert items[..|items|] == items;
    InsertAllLowerSortsReverse(cmp, items);
  }

  method CdlInsertAll(cmp: Cmp, items: seq<Item>) returns (head: Item?)
    requires Preorder(cmp) && Distinct(items)
    modifies items`next, items`prev
    ensures IsCdl(head, InsertAllLower(cmp, items)) && IsCdl(head, StableSort(cmp, Reverse(items)))
  {
    hide InsertAllLower, InsertLower, StableSort, Preorder;
    head := null;
    NoInsertions(cmp, items);
    for k := 0 to |items|
      invariant IsCdl(head, InsertAllLower(cmp, items[..k]))
    {
      NextInsertion(cmp, items, k);
      head := CdlInsertInorder(cmp, head, items[k], InsertAllLower(cmp, items[..k]));
    }
    assert items[..|items|] == items;
    InsertAllLowerSortsReverse(cmp, items);
  }
}
