/** The in-place bottom-up mergesorts of utlist.h and HASH_SRT of uthash.h.

    The four macros share one body.  They differ in how the end of the list is recognised
    (a null link, or for a ring the old head) and in whether back links are rewritten, so the
    merge and the pass take those two facts as parameters. */
module ListSort {
  import opened Items
  import opened StableSorting

  ghost predicate Links(s: seq<Item>)
    reads s`next
  {
    forall i | 0 <= i < |s| - 1 :: s[i].next == s[i + 1]
  }

  /** s is linked through next and its last element links to end. */
  ghost predicate Chain(s: seq<Item>, end: Item?)
    reads s`next
  {
    Links(s) && (s != [] ==> s[|s| - 1].next == end)
  }

  /** Every element links back to its predecessor, the first one to first. */
  ghost predicate BackLinks(s: seq<Item>, first: Item?)
    reads s`prev
  {
    && (s != [] ==> s[0].prev == first)
    && forall i | 1 <= i < |s| :: s[i].prev == s[i - 1]
  }

  /** A null-terminated singly linked list. */
  ghost predicate IsLl(head: Item?, s: seq<Item>)
    reads s`next
  {
    head == FirstOrNull(s) && Distinct(s) && Chain(s, null)
  }

  /** A utlist doubly linked list: the head links back to the tail. */
  ghost predicate IsDl(head: Item?, s: seq<Item>)
    reads s`next, s`prev
  {
    head == FirstOrNull(s) && Distinct(s) && Chain(s, null) && BackLinks(s, LastOrNull(s))
  }

  /** A ring, closed in both directions. */
  ghost predicate IsCdl(head: Item?, s: seq<Item>)
    reads s`next, s`prev
  {
    head == FirstOrNull(s) && Distinct(s) && Chain(s, head) && BackLinks(s, LastOrNull(s))
  }

  /** uthash's application order: null-terminated in both directions. */
  ghost predicate IsAppOrder(head: Item?, tail: Item?, s: seq<Item>)
    reads s`next, s`prev
  {
    && head == FirstOrNull(s) && tail == LastOrNull(s)
    && Distinct(s) && Chain(s, null) && BackLinks(s, null)
  }

  ghost predicate Within(a: seq<Item>, S: set<Item>) {
    forall i | 0 <= i < |a| :: a[i] in S
  }

  ghost predicate Disjoint(a: seq<Item>, b: seq<Item>) {
    forall i, j | 0 <= i < |a| && 0 <= j < |b| :: a[i] != b[j]
  }

  /** The output so far, the rest of the first run and the rest of the list share nothing. */
  ghost predicate Apart(out: seq<Item>, p: seq<Item>, r: seq<Item>) {
    && Distinct(out) && Distinct(p) && Distinct(r)
    && Disjoint(out, p) && Disjoint(out, r) && Disjoint(p, r)
  }

  lemma ApartTakeFirst(out: seq<Item>, p: seq<Item>, r: seq<Item>)
    requires Apart(out, p, r) && p != []
    ensures Apart(out + [p[0]], p[1..], r)
  {
  }

  lemma ApartTakeSecond(out: seq<Item>, p: seq<Item>, r: seq<Item>)
    requires Apart(out, p, r) && r != []
    ensures Apart(out + [r[0]], p, r[1..])
  {
  }

  /** The element after x, or null at the end of the list. */
  method Advance(x: Item, end: Item?) returns (y: Item?)
    ensures y == if x.next == end then null else x.next
  {
    y := if x.next == end then null else x.next;
  }

  /** The merge in progress: out is the output list, P the rest of the first run and R the rest
      of the input list, all of them elements of S. */
  ghost predicate Merging(end: Item?, doubly: bool, list: Item?, tail: Item?, p: Item?, q: Item?,
                          out: seq<Item>, P: seq<Item>, R: seq<Item>, S: set<Item>)
    reads S
    reads out`next, P`next, R`next, out`prev
  {
    && list == FirstOrNull(out) && tail == LastOrNull(out)
    && (P != [] ==> p == P[0] && end !in P[1..]) && q == FirstOrNull(R) && end !in R
    && Within(out, S) && Within(P, S) && Within(R, S) && Apart(out, P, R)
    && Links(P) && Chain(R, end) && Links(out) && (doubly ==> BackLinks(out, null))
  }

  /** Append e to the output list. */
  method LinkOut(doubly: bool, e: Item, list0: Item?, tail: Item?, ghost out: seq<Item>)
    returns (list: Item?)
    requires list0 == FirstOrNull(out) && tail == LastOrNull(out)
    requires Distinct(out + [e]) && Links(out) && (doubly ==> BackLinks(out, null))
    modifies (if out == [] then {} else {out[|out| - 1]})`next
    modifies (if doubly then {e} else {})`prev
    ensures list == FirstOrNull(out + [e])
    ensures Links(out + [e]) && (doubly ==> BackLinks(out + [e], null))
  {
    list := list0;
    ghost var out' := out + [e];
    assert forall i | 0 <= i < |out| :: out'[i] == out[i] && out'[i] != out'[|out|];
    assert out != [] ==> out'[|out| - 1] == tail;
    if tail != null {
      tail.next := e;
    } else {
      list := e;
    }
    if doubly {
      e.prev := tail;
      assert forall i | 0 <= i < |out| :: out'[i].prev == out[i].prev == old(out[i].prev);
    }
  }

  /** Move the head of the first run to the output. */
  method TakeFirst(end: Item?, doubly: bool, list0: Item?, tail: Item?, p: Item, q: Item?,
                   ghost out: seq<Item>, ghost P: seq<Item>, ghost R: seq<Item>, ghost S: set<Item>)
    returns (p': Item?, list: Item?)
    requires P != [] && Merging(end, doubly, list0, tail, p, q, out, P, R, S)
    modifies S`next
    modifies (if doubly then S else {})`prev
    ensures Merging(end, doubly, list, p, p', q, out + [P[0]], P[1..], R, S)
  {
    ApartTakeFirst(out, P, R);
    p' := Advance(p, end);
    assert p in S;
    list := LinkOut(doubly, p, list0, tail, out);
  }

  /** Move the head of the rest of the list to the output. */
  method TakeSecond(end: Item?, doubly: bool, list0: Item?, tail: Item?, p: Item?, q: Item,
                    ghost out: seq<Item>, ghost P: seq<Item>, ghost R: seq<Item>, ghost S: set<Item>)
    returns (q': Item?, list: Item?)
    requires R != [] && Merging(end, doubly, list0, tail, p, q, out, P, R, S)
    modifies S`next
    modifies (if doubly then S else {})`prev
    ensures Merging(end, doubly, list, q, p, q', out + [R[0]], P, R[1..], S)
  {
    ApartTakeSecond(out, P, R);
    q' := Advance(q, end);
    assert q in S;
    list := LinkOut(doubly, q, list0, tail, out);
  }

  lemma MergingDone(end: Item?, doubly: bool, list: Item?, tail: Item?, p: Item?, q: Item?,
                    qsize: nat, out: seq<Item>, P: seq<Item>, Q: seq<Item>, rest: seq<Item>, S: set<Item>)
    requires Merging(end, doubly, list, tail, p, q, out, P, Q + rest, S)
    requires P == [] && |Q| <= qsize && (qsize == 0 || q == null)
    ensures Q == [] && Merging(end, doubly, list, tail, null, q, out, [], rest, S)
  {
    assert Q + rest == rest;
  }

  lemma MergingHeads(end: Item?, doubly: bool, list: Item?, tail: Item?, p: Item?, q: Item?,
                     out: seq<Item>, P: seq<Item>, R: seq<Item>, S: set<Item>)
    requires Merging(end, doubly, list, tail, p, q, out, P, R, S)
    ensures (P != [] ==> p == P[0]) && q == FirstOrNull(R)
  {
  }

  /** One turn of the innermost loop: pick the next element and append it to the output. */
  method MergeNext(cmp: Cmp, end: Item?, doubly: bool, list0: Item?, tail0: Item?,
                   p0: Item?, psize0: nat, q0: Item?, qsize0: nat,
                   ghost out: seq<Item>, ghost P: seq<Item>, ghost Q: seq<Item>, ghost rest: seq<Item>,
                   ghost S: set<Item>)
    returns (list: Item?, e: Item, p: Item?, psize: nat, q: Item?, qsize: nat,
             ghost P': seq<Item>, ghost Q': seq<Item>, ghost cmps: nat)
    requires psize0 > 0 || (qsize0 > 0 && q0 != null)
    requires Merging(end, doubly, list0, tail0, p0, q0, out, P, Q + rest, S)
    requires psize0 == |P| && |Q| <= qsize0 && (rest != [] ==> |Q| == qsize0)
    modifies S`next
    modifies (if doubly then S else {})`prev
    ensures Merging(end, doubly, list, e, p, q, out + [e], P', Q' + rest, S)
    ensures psize == |P'| && |Q'| <= qsize && (rest != [] ==> |Q'| == qsize)
    ensures psize + qsize + 1 == psize0 + qsize0
    ensures Merge(cmp, P, Q) == [e] + Merge(cmp, P', Q')
    ensures cmps <= 1
  {
    hide Merging, Merge;
    p, psize, q, qsize, P', Q', cmps := p0, psize0, q0, qsize0, P, Q, 0;
    MergingHeads(end, doubly, list0, tail0, p0, q0, out, P, Q + rest, S);
    var takeFirst;
    if psize == 0 {
      takeFirst := false;
    } else if qsize == 0 || q == null {
      takeFirst := true;
    } else {
      takeFirst := cmp(p.val, q.val) <= 0;
      cmps := 1;
    }
    if takeFirst {
      MergeTakesFirst(cmp, P, Q);
      e := p;
      p, list := TakeFirst(end, doubly, list0, tail0, p, q, out, P, Q + rest, S);
      psize := psize - 1;
      P' := P[1..];
    } else {
      MergeTakesSecond(cmp, P, Q);
      e := q;
      q, list := TakeSecond(end, doubly, list0, tail0, p, q, out, P, Q + rest, S);
      qsize := qsize - 1;
      Q' := Q[1..];
      assert (Q + rest)[1..] == Q' + rest;
    }
  }

  /** The innermost loop: merge the run p of psize elements with the run at q. */
  method MergeRuns(cmp: Cmp, end: Item?, doubly: bool, list0: Item?, tail0: Item?,
                   p0: Item, psize0: nat, q0: Item?, qsize0: nat,
                   ghost out0: seq<Item>, ghost P0: seq<Item>, ghost Q0: seq<Item>, ghost rest: seq<Item>,
                   ghost S: set<Item>)
    returns (q: Item?, list: Item?, tail: Item?, ghost out: seq<Item>, ghost cmps: nat)
    requires Merging(end, doubly, list0, tail0, p0, q0, out0, P0, Q0 + rest, S)
    requires 0 < psize0 == |P0| && |Q0| <= qsize0 && (rest != [] ==> |Q0| == qsize0)
    modifies S`next
    modifies (if doubly then S else {})`prev
    ensures Merging(end, doubly, list, tail, null, q, out, [], rest, S)
    ensures out == out0 + Merge(cmp, P0, Q0)
    ensures cmps <= |P0| + |Q0|
  {
    hide Merging;
    var p: Item? := p0;
    var psize, qsize := psize0, qsize0;
    q, list, tail := q0, list0, tail0;
    ghost var P, Q, target := P0, Q0, out0 + Merge(cmp, P0, Q0);
    out, cmps := out0, 0;
    while psize > 0 || (qsize > 0 && q != null)
      invariant Merging(end, doubly, list, tail, p, q, out, P, Q + rest, S)
      invariant psize == |P| && |Q| <= qsize && (rest != [] ==> |Q| == qsize)
      invariant out + Merge(cmp, P, Q) == target
      invariant cmps <= |out| - |out0|
      decreases psize + qsize
    {
      var e;
      ghost var c;
      ghost var P', Q';
      list, e, p, psize, q, qsize, P', Q', c :=
        MergeNext(cmp, end, doubly, list, tail, p, psize, q, qsize, out, P, Q, rest, S);
      assert out + [e] + Merge(cmp, P', Q') == out + ([e] + Merge(cmp, P', Q'));
      out, tail, P, Q, cmps := out + [e], e, P', Q', cmps + c;
    }
    MergingDone(end, doubly, list, tail, p, q, qsize, out, P, Q, rest, S);
    assert out + Merge(cmp, P, Q) == out;
  }

  // ---------------------------------------------------------------- one pass

  /** The counting loop: step over at most insize elements; q is the element after them. */
  method CutRun(end: Item?, p: Item, insize: nat, ghost R: seq<Item>)
    returns (psize: nat, q: Item?)
    requires insize > 0 && R != [] && p == R[0] && Chain(R, end) && end !in R[1..]
    ensures psize == Min(insize, |R|) && q == FirstOrNull(R[psize..])
  {
    q, psize := p, 0;
    for i := 0 to insize
      invariant psize == i <= |R| && (i < |R| ==> q == R[i]) && (i == |R| ==> i == 0)
    {
      psize := psize + 1;
      assert psize < |R| ==> R[psize] == R[1..][psize - 1];
      q := Advance(q, end);
      if q == null { break; }
    }
  }

  /** The number of merges in one pass over n elements with runs of length k. */
  function Merges(n: nat, k: nat): nat
    requires k > 0
  {
    if n == 0 then 0 else 1 + Merges(n - Min(2 * k, n), k)
  }

  /** Between two merges: out is linked up and R is still the untouched rest of the list. */
  ghost predicate Passing(end: Item?, doubly: bool, list: Item?, tail: Item?, p: Item?,
                          out: seq<Item>, R: seq<Item>, S: set<Item>)
    reads S
    reads out`next, R`next, out`prev
  {
    && list == FirstOrNull(out) && tail == LastOrNull(out)
    && p == FirstOrNull(R) && (R != [] ==> end !in R[1..])
    && Within(out, S) && Within(R, S) && Distinct(out) && Distinct(R) && Disjoint(out, R)
    && Chain(R, end) && Links(out) && (doubly ==> BackLinks(out, null))
  }

  lemma StartMerge(end: Item?, doubly: bool, list: Item?, tail: Item?, p: Item, q: Item?, psize: nat,
                   out: seq<Item>, R: seq<Item>, S: set<Item>)
    requires Passing(end, doubly, list, tail, p, out, R, S)
    requires R != [] && 0 < psize <= |R| && q == FirstOrNull(R[psize..])
    ensures Merging(end, doubly, list, tail, p, q, out, R[..psize], R[psize..], S)
  {
  }

  /** One merge of a pass: cut a run off the rest of the list and merge it with the next run. */
  method MergeTwoRuns(cmp: Cmp, end: Item?, doubly: bool, list0: Item?, tail0: Item?, p0: Item, insize: nat,
                      ghost out0: seq<Item>, ghost R: seq<Item>, ghost S: set<Item>)
    returns (p: Item?, list: Item?, tail: Item?, ghost out: seq<Item>, ghost cmps: nat)
    requires insize > 0 && R != [] && Passing(end, doubly, list0, tail0, p0, out0, R, S)
    modifies S`next
    modifies (if doubly then S else {})`prev
    ensures Passing(end, doubly, list, tail, p, out, R[Min(2 * insize, |R|)..], S)
    ensures p == FirstOrNull(R[Min(2 * insize, |R|)..])
    ensures out == out0 + Merge(cmp, R[..Min(insize, |R|)], R[Min(insize, |R|)..Min(2 * insize, |R|)])
    ensures cmps <= Min(2 * insize, |R|)
  {
    var psize, q := CutRun(end, p0, insize, R);
    StartMerge(end, doubly, list0, tail0, p0, q, psize, out0, R, S);
    ghost var m := Min(2 * insize, |R|);
    assert R[psize..] == R[psize..m] + R[m..];
    p, list, tail, out, cmps := MergeRuns(cmp, end, doubly, list0, tail0, p0, psize, q, insize,
                                          out0, R[..psize], R[psize..m], R[m..], S);
  }

  lemma PassStep(cmp: Cmp, out: seq<Item>, R: seq<Item>, k: nat)
    requires k > 0 && R != []
    ensures out + Pass(cmp, R, k)
         == out + Merge(cmp, R[..Min(k, |R|)], R[Min(k, |R|)..Min(2 * k, |R|)]) + Pass(cmp, R[Min(2 * k, |R|)..], k)
  {
  }

  lemma StartPass(end: Item?, doubly: bool, first: Item, L: seq<Item>, S: set<Item>)
    requires L != [] && first == L[0] && Distinct(L) && Chain(L, end) && end !in L[1..] && Within(L, S)
    ensures Passing(end, doubly, null, null, first, [], L, S)
  {
  }

  lemma PassDone(end: Item?, doubly: bool, list: Item?, tail: Item?, p: Item?,
                 out: seq<Item>, R: seq<Item>, S: set<Item>)
    requires Passing(end, doubly, list, tail, p, out, R, S) && p == null
    ensures R == [] && (out != [] ==> list != null && tail != null)
  {
  }

  /** One pass: merge the runs of length insize two by two into a new list. */
  method SortPass(cmp: Cmp, end: Item?, doubly: bool, first: Item, insize: nat, ghost L: seq<Item>,
                  ghost S: set<Item>)
    returns (list: Item, tail: Item, nmerges: nat, ghost out: seq<Item>, ghost cmps: nat)
    requires insize > 0 && L != [] && first == L[0] && Distinct(L) && Chain(L, end) && end !in L[1..]
    requires Within(L, S)
    modifies S`next
    modifies (if doubly then S else {})`prev
    ensures Passing(end, doubly, list, tail, null, out, [], S) && out == Pass(cmp, L, insize)
    ensures nmerges == Merges(|L|, insize) && cmps <= |L|
  {
    hide Passing;
    var p: Item? := first;
    var list', tail': Item? := null, null;
    StartPass(end, doubly, first, L, S);
    nmerges, cmps := 0, 0;
    out := [];
    ghost var R := L;
    while p != null
      invariant p == FirstOrNull(R)
      invariant Passing(end, doubly, list', tail', p, out, R, S)
      invariant out + Pass(cmp, R, insize) == Pass(cmp, L, insize)
      invariant nmerges + Merges(|R|, insize) == Merges(|L|, insize)
      invariant cmps + |R| <= |L|
      decreases |R|
    {
      PassStep(cmp, out, R, insize);
      ghost var c;
      p, list', tail', out, c := MergeTwoRuns(cmp, end, doubly, list', tail', p, insize, out, R, S);
      nmerges, cmps, R := nmerges + 1, cmps + c, R[Min(2 * insize, |R|)..];
    }
    PassDone(end, doubly, list', tail', p, out, R, S);
    list, tail := list', tail';
  }

  // ---------------------------------------------------------------- the sort macros

  /** The comparison bound of the outer loop: n for every pass it makes over n elements,
      starting with runs of length k. */
  function SortCost(n: nat, k: nat): nat
    requires k > 0
    decreases if n > k then n - k else 0
  {
    if n <= 2 * k then n else n + SortCost(n, 2 * k)
  }

  /** The passes of the outer loop over n elements, starting with runs of length k. */
  function Passes(n: nat, k: nat): nat
    requires k > 0
    decreases if n > k then n - k else 0
  {
    if n <= 2 * k then 1 else 1 + Passes(n, 2 * k)
  }

  lemma OneMergeLeft(n: nat, k: nat)
    requires 0 < k <= n
    ensures Merges(n, k) <= 1 <==> n <= 2 * k
  {
  }

  /** What the outer loop has established when it holds the list cur. */
  ghost predicate Sorting(cmp: Cmp, s: seq<Item>, cur: seq<Item>, insize: nat, looping: bool) {
    && |cur| == |s|
    && (looping ==> 0 < insize <= |s| && cur == Blocks(cmp, s, insize))
    && (!looping ==> cur == StableSort(cmp, s))
  }

  lemma StartSorting(cmp: Cmp, s: seq<Item>)
    requires s != []
    ensures Sorting(cmp, s, s, 1, true)
  {
    BlocksOfOne(cmp, s);
  }

  lemma OneBlock(cmp: Cmp, s: seq<Item>, k: nat)
    requires |s| <= k && k > 0
    ensures Blocks(cmp, s, k) == StableSort(cmp, s)
  {
  }

  /** One pass doubles the sorted blocks, and a pass of a single merge has sorted the list. */
  lemma PassProgress(cmp: Cmp, s: seq<Item>, cur: seq<Item>, insize: nat, nmerges: nat)
    requires Preorder(cmp) && Sorting(cmp, s, cur, insize, true) && nmerges == Merges(|s|, insize)
    ensures Sorting(cmp, s, Pass(cmp, cur, insize), insize * 2, nmerges > 1)
    ensures nmerges > 1 ==> 2 * insize < |s|
    ensures SortCost(|s|, insize) == |s| + (if nmerges > 1 then SortCost(|s|, insize * 2) else 0)
    ensures Passes(|s|, insize) == 1 + (if nmerges > 1 then Passes(|s|, insize * 2) else 0)
  {
    hide Blocks, Pass, StableSort, Merges, Preorder;
    PassDoublesBlocks(cmp, s, insize);
    OneMergeLeft(|s|, insize);
    if |s| <= 2 * insize { OneBlock(cmp, s, 2 * insize); }
  }

  /** LL_SORT2. */
  method LlPass(cmp: Cmp, head: Item, insize: nat, ghost cur: seq<Item>, ghost S: set<Item>)
    returns (list: Item, nmerges: nat, ghost out: seq<Item>, ghost cmps: nat)
    requires insize > 0 && IsLl(head, cur) && Within(cur, S)
    modifies S`next
    ensures out == Pass(cmp, cur, insize) && IsLl(list, out) && Within(out, S)
    ensures nmerges == Merges(|cur|, insize) && cmps <= |cur|
  {
    var tail;
    list, tail, nmerges, out, cmps := SortPass(cmp, null, false, head, insize, cur, S);
    tail.next := null;
  }

  method LlSort(cmp: Cmp, head: Item?, ghost s: seq<Item>) returns (list: Item?, ghost cmps: nat, ghost passes: nat)
    requires Preorder(cmp) && IsLl(head, s)
    modifies s`next
    ensures IsLl(list, StableSort(cmp, s))
    ensures cmps <= SortCost(|s|, 1)
    ensures passes == if s == [] then 0 else Passes(|s|, 1)
  {
    list, cmps, passes := head, 0, 0;
    if list != null {
      var insize, looping := 1, true;
      ghost var cur, S := s, set x | x in s;
      StartSorting(cmp, s);
      while looping
        invariant insize > 0 && IsLl(list, cur) && Within(cur, S) && Sorting(cmp, s, cur, insize, looping)
        invariant cmps + (if looping then SortCost(|s|, insize) else 0) <= SortCost(|s|, 1)
        invariant passes + (if looping then Passes(|s|, insize) else 0) == Passes(|s|, 1)
        decreases looping, |s| - insize
      {
        ghost var prior := cur;
        var nmerges;
        ghost var c;
        list, nmerges, cur, c := LlPass(cmp, list, insize, cur, S);
        PassProgress(cmp, s, prior, insize, nmerges);
        if nmerges <= 1 {
          looping := false;
        }
        insize, cmps, passes := insize * 2, cmps + c, passes + 1;
      }
    }
  }

  /** DL_SORT2. */
  method DlPass(cmp: Cmp, head: Item, insize: nat, ghost cur: seq<Item>, ghost S: set<Item>)
    returns (list: Item, nmerges: nat, ghost out: seq<Item>, ghost cmps: nat)
    requires insize > 0 && IsDl(head, cur) && Within(cur, S)
    modifies S`next, S`prev
    ensures out == Pass(cmp, cur, insize) && IsDl(list, out) && Within(out, S)
    ensures nmerges == Merges(|cur|, insize) && cmps <= |cur|
  {
    var tail;
    list, tail, nmerges, out, cmps := SortPass(cmp, null, true, head, insize, cur, S);
    list.prev := tail;
    tail.next := null;
  }

  method DlSort(cmp: Cmp, head: Item?, ghost s: seq<Item>) returns (list: Item?, ghost cmps: nat, ghost passes: nat)
    requires Preorder(cmp) && IsDl(head, s)
    modifies s`next, s`prev
    ensures IsDl(list, StableSort(cmp, s))
    ensures cmps <= SortCost(|s|, 1)
    ensures passes == if s == [] then 0 else Passes(|s|, 1)
  {
    list, cmps, passes := head, 0, 0;
    if list != null {
      var insize, looping := 1, true;
      ghost var cur, S := s, set x | x in s;
      StartSorting(cmp, s);
      while looping
        invariant insize > 0 && IsDl(list, cur) && Within(cur, S) && Sorting(cmp, s, cur, insize, looping)
        invariant cmps + (if looping then SortCost(|s|, insize) else 0) <= SortCost(|s|, 1)
        invariant passes + (if looping then Passes(|s|, insize) else 0) == Passes(|s|, 1)
        decreases looping, |s| - insize
      {
        ghost var prior := cur;
        var nmerges;
        ghost var c;
        list, nmerges, cur, c := DlPass(cmp, list, insize, cur, S);
        PassProgress(cmp, s, prior, insize, nmerges);
        if nmerges <= 1 {
          looping := false;
        }
        insize, cmps, passes := insize * 2, cmps + c, passes + 1;
      }
    }
  }

  /** CDL_SORT2: the end of the old ring is recognised by its old head. */
  method CdlPass(cmp: Cmp, head: Item, insize: nat, ghost cur: seq<Item>, ghost S: set<Item>)
    returns (list: Item, nmerges: nat, ghost out: seq<Item>, ghost cmps: nat)
    requires insize > 0 && IsCdl(head, cur) && Within(cur, S)
    modifies S`next, S`prev
    ensures out == Pass(cmp, cur, insize) && IsCdl(list, out) && Within(out, S)
    ensures nmerges == Merges(|cur|, insize) && cmps <= |cur|
  {
    var tail;
    list, tail, nmerges, out, cmps := SortPass(cmp, head, true, head, insize, cur, S);
    list.prev := tail;
    tail.next := list;
  }

  method CdlSort(cmp: Cmp, head: Item?, ghost s: seq<Item>) returns (list: Item?, ghost cmps: nat, ghost passes: nat)
    requires Preorder(cmp) && IsCdl(head, s)
    modifies s`next, s`prev
    ensures IsCdl(list, StableSort(cmp, s))
    ensures cmps <= SortCost(|s|, 1)
    ensures passes == if s == [] then 0 else Passes(|s|, 1)
  {
    list, cmps, passes := head, 0, 0;
    if list != null {
      var insize, looping := 1, true;
      ghost var cur, S := s, set x | x in s;
      StartSorting(cmp, s);
      while looping
        invariant insize > 0 && IsCdl(list, cur) && Within(cur, S) && Sorting(cmp, s, cur, insize, looping)
        invariant cmps + (if looping then SortCost(|s|, insize) else 0) <= SortCost(|s|, 1)
        invariant passes + (if looping then Passes(|s|, insize) else 0) == Passes(|s|, 1)
        decreases looping, |s| - insize
      {
        ghost var prior := cur;
        var nmerges;
        ghost var c;
        list, nmerges, cur, c := CdlPass(cmp, list, insize, cur, S);
        PassProgress(cmp, s, prior, insize, nmerges);
        if nmerges <= 1 {
          looping := false;
        }
        insize, cmps, passes := insize * 2, cmps + c, passes + 1;
      }
    }
  }

  /** HASH_SRT on the application order; the table's owner stores the new head and tail. */
  method HashPass(cmp: Cmp, head: Item, insize: nat, ghost tail0: Item, ghost cur: seq<Item>, ghost S: set<Item>)
    returns (list: Item, tail: Item, nmerges: nat, ghost out: seq<Item>, ghost cmps: nat)
    requires insize > 0 && IsAppOrder(head, tail0, cur) && Within(cur, S)
    modifies S`next, S`prev
    ensures out == Pass(cmp, cur, insize) && IsAppOrder(list, tail, out) && Within(out, S)
    ensures nmerges == Merges(|cur|, insize) && cmps <= |cur|
  {
    list, tail, nmerges, out, cmps := SortPass(cmp, null, true, head, insize, cur, S);
    tail.next := null;
  }

  method HashSort(cmp: Cmp, head: Item?, tail0: Item?, ghost s: seq<Item>)
    returns (list: Item?, tail: Item?, ghost cmps: nat, ghost passes: nat)
    requires Preorder(cmp) && IsAppOrder(head, tail0, s)
    modifies s`next, s`prev
    ensures IsAppOrder(list, tail, StableSort(cmp, s))
    ensures cmps <= SortCost(|s|, 1)
    ensures passes == if s == [] then 0 else Passes(|s|, 1)
  {
    list, tail, cmps, passes := head, tail0, 0, 0;
    if list != null {
      var insize, looping := 1, true;
      ghost var cur, S := s, set x | x in s;
      StartSorting(cmp, s);
      while looping
        invariant insize > 0 && IsAppOrder(list, tail, cur) && Within(cur, S) && Sorting(cmp, s, cur, insize, looping)
        invariant cmps + (if looping then SortCost(|s|, insize) else 0) <= SortCost(|s|, 1)
        invariant passes + (if looping then Passes(|s|, insize) else 0) == Passes(|s|, 1)
        decreases looping, |s| - insize
      {
        ghost var prior := cur;
        var nmerges;
        ghost var c;
        list, tail, nmerges, cur, c := HashPass(cmp, list, insize, tail, cur, S);
        PassProgress(cmp, s, prior, insize, nmerges);
        if nmerges <= 1 {
          looping := false;
        }
        insize, cmps, passes := insize * 2, cmps + c, passes + 1;
      }
    }
  }
}
