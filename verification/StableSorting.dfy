/** The reference theory of stable sorting over element sequences: what a correct result is,
    why it is unique, and how merging, in-order insertion and bottom-up passes compute it. */
module StableSorting {
  import opened Items

  /** What the sort macros need from a comparator: a strcmp-style total preorder. */
  ghost predicate Preorder(cmp: Cmp) {
    && (forall x, y :: cmp(x, y) < 0 <==> cmp(y, x) > 0)
    && (forall x, y, z :: cmp(x, y) <= 0 && cmp(y, z) <= 0 ==> cmp(x, z) <= 0)
  }

  ghost predicate Sorted(cmp: Cmp, s: seq<Item>) {
    forall i, j | 0 <= i < j < |s| :: cmp(s[i].val, s[j].val) <= 0
  }

  /** The elements of s that compare equal to v, in the order s holds them. */
  function Class(cmp: Cmp, s: seq<Item>, v: Val): seq<Item> {
    if s == [] then []
    else (if cmp(s[0].val, v) == 0 then [s[0]] else []) + Class(cmp, s[1..], v)
  }

  /** t is a stable sort of s: sorted, the same elements, equals in their original order. */
  ghost predicate StableSortOf(cmp: Cmp, t: seq<Item>, s: seq<Item>) {
    && Sorted(cmp, t)
    && multiset(t) == multiset(s)
    && forall v :: Class(cmp, t, v) == Class(cmp, s, v)
  }

  /** Left-biased merge: the `<= 0` test takes from the first run on ties. */
  function Merge(cmp: Cmp, a: seq<Item>, b: seq<Item>): (r: seq<Item>)
    ensures |r| == |a| + |b|
    decreases |a| + |b|
  {
    if a == [] then b
    else if b == [] then a
    else if cmp(a[0].val, b[0].val) <= 0 then [a[0]] + Merge(cmp, a[1..], b)
    else [b[0]] + Merge(cmp, a, b[1..])
  }

  /** Insertion after every element that is not greater (HASH_ADD_INORDER). */
  function InsertUpper(cmp: Cmp, s: seq<Item>, x: Item): seq<Item> {
    if s == [] then [x]
    else if cmp(s[0].val, x.val) > 0 then [x] + s
    else [s[0]] + InsertUpper(cmp, s[1..], x)
  }

  /** Insertion before every element that is not smaller (LL_, DL_ and CDL_INSERT_INORDER). */
  function InsertLower(cmp: Cmp, s: seq<Item>, x: Item): seq<Item> {
    if s == [] then [x]
    else if cmp(s[0].val, x.val) >= 0 then [x] + s
    else [s[0]] + InsertLower(cmp, s[1..], x)
  }

  /** The stable sort as the fold of in-order insertions, oldest first. */
  function StableSort(cmp: Cmp, s: seq<Item>): (r: seq<Item>)
  {
    if s == [] then [] else InsertUpper(cmp, StableSort(cmp, s[..|s| - 1]), s[|s| - 1])
  }

  /** The fold of lower-bound insertions, oldest first. */
  function InsertAllLower(cmp: Cmp, s: seq<Item>): seq<Item> {
    if s == [] then [] else InsertLower(cmp, InsertAllLower(cmp, s[..|s| - 1]), s[|s| - 1])
  }

  // ---------------------------------------------------------------- classes and uniqueness

  lemma NoClass(cmp: Cmp, v: Val)
    ensures Class(cmp, [], v) == []
  {
  }

  lemma {:induction false} ClassAppend(cmp: Cmp, a: seq<Item>, b: seq<Item>, v: Val)
    ensures Class(cmp, a + b, v) == Class(cmp, a, v) + Class(cmp, b, v)
  {
    hide Class;
    if a == [] {
      assert a + b == b;
      NoClass(cmp, v);
    } else {
      assert a == [a[0]] + a[1..] && a + b == [a[0]] + (a[1..] + b);
      ClassAppend(cmp, a[1..], b, v);
      ClassCons(cmp, a[0], a[1..], v);
      ClassCons(cmp, a[0], a[1..] + b, v);
    }
  }

  lemma {:induction false} ClassMembers(cmp: Cmp, s: seq<Item>, v: Val)
    ensures forall x :: x in Class(cmp, s, v) <==> x in s && cmp(x.val, v) == 0
  {
    if s != [] {
      ClassMembers(cmp, s[1..], v);
      assert s == [s[0]] + s[1..];
    }
  }

  lemma SameClassesSameHead(cmp: Cmp, t: seq<Item>, u: seq<Item>)
    requires Preorder(cmp) && Sorted(cmp, t) && Sorted(cmp, u) && t != []
    requires forall v :: Class(cmp, t, v) == Class(cmp, u, v)
    ensures u != [] && t[0] == u[0]
  {
    var x := t[0];
    ClassMembers(cmp, t, x.val);
    ClassMembers(cmp, u, x.val);
    assert x in Class(cmp, u, x.val);
    var y := u[0];
    ClassMembers(cmp, t, y.val);
    ClassMembers(cmp, u, y.val);
    assert y in Class(cmp, t, y.val);
    assert cmp(x.val, y.val) <= 0 && cmp(y.val, x.val) <= 0;
    assert Class(cmp, t, x.val)[0] == x && Class(cmp, u, x.val)[0] == y;
  }

  /** Two sorted sequences with the same classes are the same sequence. */
  lemma {:induction false} SortedByClassUnique(cmp: Cmp, t: seq<Item>, u: seq<Item>)
    requires Preorder(cmp) && Sorted(cmp, t) && Sorted(cmp, u)
    requires forall v :: Class(cmp, t, v) == Class(cmp, u, v)
    ensures t == u
  {
    if t == [] {
      if u != [] { SameClassesSameHead(cmp, u, t); }
    } else {
      SameClassesSameHead(cmp, t, u);
      forall v ensures Class(cmp, t[1..], v) == Class(cmp, u[1..], v) {
        var c := Class(cmp, t, v);
        assert c == Class(cmp, u, v);
        if cmp(t[0].val, v) == 0 {
          assert c == [t[0]] + Class(cmp, t[1..], v);
          assert c == [t[0]] + Class(cmp, u[1..], v);
          assert Class(cmp, t[1..], v) == c[1..] == Class(cmp, u[1..], v);
        } else {
          assert Class(cmp, t[1..], v) == c == Class(cmp, u[1..], v);
        }
      }
      SortedByClassUnique(cmp, t[1..], u[1..]);
      assert t == [t[0]] + t[1..] && u == [u[0]] + u[1..];
    }
  }

  // ---------------------------------------------------------------- merging

  lemma MergeTakesFirst(cmp: Cmp, P: seq<Item>, Q: seq<Item>)
    requires P != [] && (Q == [] || cmp(P[0].val, Q[0].val) <= 0)
    ensures Merge(cmp, P, Q) == [P[0]] + Merge(cmp, P[1..], Q)
  {
  }

  lemma MergeTakesSecond(cmp: Cmp, P: seq<Item>, Q: seq<Item>)
    requires Q != [] && (P == [] || cmp(P[0].val, Q[0].val) > 0)
    ensures Merge(cmp, P, Q) == [Q[0]] + Merge(cmp, P, Q[1..])
  {
  }

  lemma MergeWithNone(cmp: Cmp, a: seq<Item>, b: seq<Item>)
    requires a == [] || b == []
    ensures Merge(cmp, a, b) == a + b
  {
  }

  lemma {:induction false} MergePermutes(cmp: Cmp, a: seq<Item>, b: seq<Item>)
    ensures multiset(Merge(cmp, a, b)) == multiset(a) + multiset(b)
    decreases |a| + |b|
  {
    hide Merge;
    if a == [] || b == [] {
      MergeWithNone(cmp, a, b);
    } else if cmp(a[0].val, b[0].val) <= 0 {
      MergeTakesFirst(cmp, a, b);
      MergePermutes(cmp, a[1..], b);
      assert a == [a[0]] + a[1..];
    } else {
      MergeTakesSecond(cmp, a, b);
      MergePermutes(cmp, a, b[1..]);
      assert b == [b[0]] + b[1..];
    }
  }

  lemma SortedTail(cmp: Cmp, s: seq<Item>)
    requires Sorted(cmp, s) && s != []
    ensures Sorted(cmp, s[1..])
  {
  }

  /** The head of a sorted sequence is below whatever it is above. */
  lemma HeadIsLeast(cmp: Cmp, s: seq<Item>, x: Item)
    requires Preorder(cmp) && Sorted(cmp, s) && (s != [] ==> cmp(x.val, s[0].val) <= 0)
    ensures forall i | 0 <= i < |s| :: cmp(x.val, s[i].val) <= 0
  {
    forall i | 0 <= i < |s| ensures cmp(x.val, s[i].val) <= 0 {
      assert i > 0 ==> cmp(s[0].val, s[i].val) <= 0;
    }
  }

  lemma Asymmetric(cmp: Cmp, x: Val, y: Val)
    requires Preorder(cmp)
    ensures cmp(x, y) < 0 <==> cmp(y, x) > 0
    ensures cmp(x, x) == 0
  {
    assert cmp(x, x) < 0 <==> cmp(x, x) > 0;
  }

  lemma {:induction false} MergeSorted(cmp: Cmp, a: seq<Item>, b: seq<Item>)
    requires Preorder(cmp) && Sorted(cmp, a) && Sorted(cmp, b)
    ensures Sorted(cmp, Merge(cmp, a, b))
    decreases |a| + |b|
  {
    hide Merge, Sorted, Preorder;
    if a == [] || b == [] {
      MergeWithNone(cmp, a, b);
      assert a + b == if a == [] then b else a;
    } else if cmp(a[0].val, b[0].val) <= 0 {
      MergeTakesFirst(cmp, a, b);
      SortedTail(cmp, a);
      MergeSorted(cmp, a[1..], b);
      MergePermutes(cmp, a[1..], b);
      HeadBelowTail(cmp, a);
      HeadIsLeast(cmp, b, a[0]);
      ConsSorted(cmp, a[0], Merge(cmp, a[1..], b), a[1..], b);
    } else {
      MergeTakesSecond(cmp, a, b);
      SortedTail(cmp, b);
      MergeSorted(cmp, a, b[1..]);
      MergePermutes(cmp, a, b[1..]);
      HeadBelowTail(cmp, b);
      Asymmetric(cmp, b[0].val, a[0].val);
      HeadIsLeast(cmp, a, b[0]);
      ConsSorted(cmp, b[0], Merge(cmp, a, b[1..]), a, b[1..]);
    }
  }

  lemma HeadBelowTail(cmp: Cmp, s: seq<Item>)
    requires Sorted(cmp, s) && s != []
    ensures forall i | 0 <= i < |s| - 1 :: cmp(s[0].val, s[1..][i].val) <= 0
  {
  }

  lemma ConsSorted(cmp: Cmp, x: Item, r: seq<Item>, a: seq<Item>, b: seq<Item>)
    requires Sorted(cmp, r) && multiset(r) == multiset(a) + multiset(b)
    requires forall i | 0 <= i < |a| :: cmp(x.val, a[i].val) <= 0
    requires forall i | 0 <= i < |b| :: cmp(x.val, b[i].val) <= 0
    ensures Sorted(cmp, [x] + r)
  {
    forall j | 0 <= j < |r| ensures cmp(x.val, r[j].val) <= 0 {
      assert r[j] in multiset(r);
      assert r[j] in a || r[j] in b;
    }
  }

  lemma {:induction false} EmptyClass(cmp: Cmp, s: seq<Item>, v: Val)
    requires forall i | 0 <= i < |s| :: cmp(s[i].val, v) != 0
    ensures Class(cmp, s, v) == []
  {
    if s != [] { EmptyClass(cmp, s[1..], v); }
  }

  lemma ClassCons(cmp: Cmp, x: Item, s: seq<Item>, v: Val)
    ensures Class(cmp, [x] + s, v) == (if cmp(x.val, v) == 0 then [x] else []) + Class(cmp, s, v)
  {
    assert ([x] + s)[1..] == s;
  }

  /** Nothing in a sorted sequence whose head is above x is equal to what x is equal to. */
  lemma NoneEqual(cmp: Cmp, a: seq<Item>, x: Item, v: Val)
    requires Preorder(cmp) && Sorted(cmp, a) && a != [] && cmp(a[0].val, x.val) > 0 && cmp(x.val, v) == 0
    ensures Class(cmp, a, v) == []
  {
    forall i | 0 <= i < |a| ensures cmp(a[i].val, v) != 0 {
      Asymmetric(cmp, x.val, v);
      assert cmp(a[0].val, a[i].val) <= 0 || i == 0;
    }
    EmptyClass(cmp, a, v);
  }

  /** Merging keeps every class in order: first run, then second. */
  lemma {:induction false} MergeClass(cmp: Cmp, a: seq<Item>, b: seq<Item>, v: Val)
    requires Preorder(cmp) && Sorted(cmp, a)
    ensures Class(cmp, Merge(cmp, a, b), v) == Class(cmp, a, v) + Class(cmp, b, v)
    decreases |a| + |b|
  {
    hide Merge, Sorted, Preorder, Class;
    if a == [] || b == [] {
      MergeWithNone(cmp, a, b);
      ClassAppend(cmp, a, b, v);
    } else if cmp(a[0].val, b[0].val) <= 0 {
      MergeTakesFirst(cmp, a, b);
      SortedTail(cmp, a);
      MergeClass(cmp, a[1..], b, v);
      assert a == [a[0]] + a[1..];
      ClassCons(cmp, a[0], a[1..], v);
      ClassCons(cmp, a[0], Merge(cmp, a[1..], b), v);
    } else {
      MergeTakesSecond(cmp, a, b);
      MergeClass(cmp, a, b[1..], v);
      assert b == [b[0]] + b[1..];
      ClassCons(cmp, b[0], b[1..], v);
      ClassCons(cmp, b[0], Merge(cmp, a, b[1..]), v);
      if cmp(b[0].val, v) == 0 { NoneEqual(cmp, a, b[0], v); }
    }
  }

  lemma {:induction false} InsertUpperIsMerge(cmp: Cmp, s: seq<Item>, x: Item)
    ensures InsertUpper(cmp, s, x) == Merge(cmp, s, [x])
  {
    if s != [] && cmp(s[0].val, x.val) <= 0 {
      InsertUpperIsMerge(cmp, s[1..], x);
    }
  }

  lemma {:induction false} InsertLowerIsMerge(cmp: Cmp, s: seq<Item>, x: Item)
    requires Preorder(cmp)
    ensures InsertLower(cmp, s, x) == Merge(cmp, [x], s)
  {
    if s != [] && cmp(s[0].val, x.val) < 0 {
      InsertLowerIsMerge(cmp, s[1..], x);
    }
  }

  // ---------------------------------------------------------------- the stable sort

  lemma NothingSorted(cmp: Cmp)
    ensures StableSort(cmp, []) == [] && Sorted(cmp, [])
  {
  }

  lemma SortedOne(cmp: Cmp, x: Item)
    ensures Sorted(cmp, [x])
  {
  }

  lemma StableSortSnoc(cmp: Cmp, s: seq<Item>, x: Item)
    ensures StableSort(cmp, s + [x]) == InsertUpper(cmp, StableSort(cmp, s), x)
  {
    assert (s + [x])[..|s|] == s;
  }

  lemma {:induction false} StableSortIsStable(cmp: Cmp, s: seq<Item>)
    requires Preorder(cmp)
    ensures StableSortOf(cmp, StableSort(cmp, s), s)
    ensures |StableSort(cmp, s)| == |s|
  {
    hide StableSort, Merge, Class, InsertUpper, Sorted, Preorder;
    if s == [] {
      NothingSorted(cmp);
    } else {
      var front, x := s[..|s| - 1], s[|s| - 1];
      StableSortIsStable(cmp, front);
      var t := StableSort(cmp, front);
      StableSortSnoc(cmp, front, x);
      SortedOne(cmp, x);
      InsertUpperIsMerge(cmp, t, x);
      MergeSorted(cmp, t, [x]);
      MergePermutes(cmp, t, [x]);
      assert s == front + [x];
      forall v ensures Class(cmp, StableSort(cmp, s), v) == Class(cmp, s, v) {
        MergeClass(cmp, t, [x], v);
        ClassAppend(cmp, front, [x], v);
      }
    }
  }

  /** StableSort is the only stable sort. */
  lemma StableSortUnique(cmp: Cmp, t: seq<Item>, s: seq<Item>)
    requires Preorder(cmp)
    ensures StableSortOf(cmp, t, s) <==> t == StableSort(cmp, s)
  {
    StableSortIsStable(cmp, s);
    if StableSortOf(cmp, t, s) {
      SortedByClassUnique(cmp, t, StableSort(cmp, s));
    }
  }

  /** Sorting two halves and merging them sorts the whole. */
  lemma MergeOfStableSorts(cmp: Cmp, a: seq<Item>, b: seq<Item>)
    requires Preorder(cmp)
    ensures Merge(cmp, StableSort(cmp, a), StableSort(cmp, b)) == StableSort(cmp, a + b)
  {
    hide StableSort, Merge, Class, Sorted, Preorder;
    var sa, sb := StableSort(cmp, a), StableSort(cmp, b);
    StableSortIsStable(cmp, a);
    StableSortIsStable(cmp, b);
    MergeSorted(cmp, sa, sb);
    MergePermutes(cmp, sa, sb);
    forall v ensures Class(cmp, Merge(cmp, sa, sb), v) == Class(cmp, a + b, v) {
      MergeClass(cmp, sa, sb, v);
      ClassAppend(cmp, a, b, v);
    }
    StableSortUnique(cmp, Merge(cmp, sa, sb), a + b);
  }

  /** Inserting at the lower bound, which places an element before its equals, sorts the
      reversed sequence stably. */
  lemma {:induction false} InsertAllLowerSortsReverse(cmp: Cmp, s: seq<Item>)
    requires Preorder(cmp)
    ensures InsertAllLower(cmp, s) == StableSort(cmp, Reverse(s))
  {
    hide StableSort, InsertLower, Merge, Reverse, Preorder;
    if s == [] {
      NothingSorted(cmp);
    } else {
      var front, x := s[..|s| - 1], s[|s| - 1];
      InsertAllLowerSortsReverse(cmp, front);
      InsertLowerIsMerge(cmp, InsertAllLower(cmp, front), x);
      StableSortOfOne(cmp, x);
      MergeOfStableSorts(cmp, [x], Reverse(front));
      assert Reverse(s) == [x] + Reverse(front);
    }
  }

  // ---------------------------------------------------------------- bottom-up passes

  function Min(a: nat, b: nat): nat { if a <= b then a else b }

  /** One pass of the bottom-up mergesort: merge runs of length k two by two. */
  function Pass(cmp: Cmp, s: seq<Item>, k: nat): (r: seq<Item>)
    requires k > 0
    ensures |r| == |s|
    decreases |s|
  {
    if s == [] then []
    else
      var p := Min(k, |s|);
      var q := Min(2 * k, |s|);
      Merge(cmp, s[..p], s[p..q]) + Pass(cmp, s[q..], k)
  }

  /** s cut into blocks of length k, each block stably sorted. */
  function Blocks(cmp: Cmp, s: seq<Item>, k: nat): seq<Item>
    requires k > 0
    decreases |s|
  {
    if |s| <= k then StableSort(cmp, s)
    else StableSort(cmp, s[..k]) + Blocks(cmp, s[k..], k)
  }

  lemma {:induction false} BlocksLength(cmp: Cmp, s: seq<Item>, k: nat)
    requires Preorder(cmp) && k > 0
    ensures |Blocks(cmp, s, k)| == |s|
    decreases |s|
  {
    if |s| <= k {
      StableSortIsStable(cmp, s);
    } else {
      StableSortIsStable(cmp, s[..k]);
      BlocksLength(cmp, s[k..], k);
    }
  }

  lemma StableSortOfOne(cmp: Cmp, x: Item)
    ensures StableSort(cmp, [x]) == [x]
  {
    assert [x][..0] == [];
    assert StableSort(cmp, [x][..0]) == [];
  }

  lemma {:induction false} BlocksOfOne(cmp: Cmp, s: seq<Item>)
    ensures Blocks(cmp, s, 1) == s
  {
    if |s| > 1 {
      BlocksOfOne(cmp, s[1..]);
      assert s[..1] == [s[0]];
      StableSortOfOne(cmp, s[0]);
      assert s == [s[0]] + s[1..];
    } else if |s| == 1 {
      assert s == [s[0]];
      StableSortOfOne(cmp, s[0]);
    }
  }

  lemma PassUnfolds(cmp: Cmp, a: seq<Item>, b: seq<Item>, rest: seq<Item>, k: nat)
    requires k > 0 && |a| <= k && |b| <= k
    requires b != [] ==> |a| == k
    requires rest != [] ==> |a| == |b| == k
    ensures Pass(cmp, a + b + rest, k) == Merge(cmp, a, b) + Pass(cmp, rest, k)
  {
    var s := a + b + rest;
    if s != [] {
      var p, q := Min(k, |s|), Min(2 * k, |s|);
      assert s[..p] == a && s[p..q] == b && s[q..] == rest;
    }
  }

  lemma BlocksOfThree(cmp: Cmp, s: seq<Item>, k: nat, m: nat)
    requires k > 0 && |s| > k && m == Min(2 * k, |s|)
    ensures Blocks(cmp, s, k) == StableSort(cmp, s[..k]) + StableSort(cmp, s[k..m])
                                 + (if m == |s| then [] else Blocks(cmp, s[m..], k))
  {
    if m == |s| {
      assert s[k..m] == s[k..];
    } else {
      assert s[k..][..k] == s[k..m] && s[k..][k..] == s[m..];
    }
  }

  lemma PassOfOneBlock(cmp: Cmp, s: seq<Item>, k: nat)
    requires Preorder(cmp) && 0 < |s| <= k
    ensures Pass(cmp, Blocks(cmp, s, k), k) == Blocks(cmp, s, 2 * k)
  {
    var b := StableSort(cmp, s);
    StableSortIsStable(cmp, s);
    PassUnfolds(cmp, b, [], [], k);
    assert b + [] + [] == b;
  }

  /** The first merge of a pass joins the first two blocks. */
  lemma PassMergesTwoBlocks(cmp: Cmp, a: seq<Item>, c: seq<Item>, rest: seq<Item>, k: nat)
    requires Preorder(cmp) && |a| == k > 0 && |c| <= k && (rest != [] ==> |c| == k)
    ensures Pass(cmp, StableSort(cmp, a) + StableSort(cmp, c) + rest, k)
         == StableSort(cmp, a + c) + Pass(cmp, rest, k)
  {
    var sa, sc := StableSort(cmp, a), StableSort(cmp, c);
    assert |sa| == |a| && |sc| == |c| by {
      StableSortIsStable(cmp, a);
      StableSortIsStable(cmp, c);
    }
    assert Merge(cmp, sa, sc) == StableSort(cmp, a + c) by {
      MergeOfStableSorts(cmp, a, c);
    }
    PassUnfolds(cmp, sa, sc, rest, k);
  }

  /** A pass doubles the length of the sorted blocks. */
  lemma NoBlocks(cmp: Cmp, k: nat)
    requires k > 0
    ensures Pass(cmp, Blocks(cmp, [], k), k) == Blocks(cmp, [], 2 * k)
  {
  }

  lemma BlocksUnfold(cmp: Cmp, s: seq<Item>, k: nat, m: nat)
    requires k > 0 && m == Min(k, |s|)
    ensures Blocks(cmp, s, k) == StableSort(cmp, s[..m]) + if m == |s| then [] else Blocks(cmp, s[m..], k)
  {
    assert |s| <= k ==> s[..m] == s;
    assert |s| == k ==> s[m..] == [];
  }

  lemma {:induction false} PassDoublesBlocks(cmp: Cmp, s: seq<Item>, k: nat)
    requires Preorder(cmp) && k > 0
    ensures Pass(cmp, Blocks(cmp, s, k), k) == Blocks(cmp, s, 2 * k)
    decreases |s|
  {
    hide Pass, Blocks, StableSort, Preorder;
    if s == [] {
      NoBlocks(cmp, k);
    } else if |s| <= k {
      PassOfOneBlock(cmp, s, k);
    } else {
      var m := Min(2 * k, |s|);
      BlocksOfThree(cmp, s, k, m);
      BlocksUnfold(cmp, s, 2 * k, m);
      assert s[..k] + s[k..m] == s[..m];
      PassMergesTwoBlocks(cmp, s[..k], s[k..m], if m == |s| then [] else Blocks(cmp, s[m..], k), k);
      if m == |s| {
        assert s[..m] == s;
      } else {
        PassDoublesBlocks(cmp, s[m..], k);
      }
    }
  }
}
