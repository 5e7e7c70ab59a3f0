/** Whole runs over a hash: the application order and the finite map it stands for. */
module HashRuns {
  import opened Items
  import opened Buckets
  import opened StableSorting
  import opened ListOps
  import opened HashTable

  datatype Op =
    | Add(x: Item)
    | AddInorder(x: Item, cmp: Cmp)
    | Replace(x: Item)
    | Delete(x: Item)
    | Sort(cmp: Cmp)
    | Find(key: Key)

  // ---------------------------------------------------------------- the finite map

  type Dict = map<Key, Item>

  function MapStep(m: Dict, op: Op): Dict {
    match op
    case Add(x) => m[x.key := x]
    case AddInorder(x, _) => m[x.key := x]
    case Replace(x) => m[x.key := x]
    case Delete(x) => m - {x.key}
    case Sort(_) => m
    case Find(_) => m
  }

  function MapRun(m: Dict, ops: seq<Op>): Dict
    decreases |ops|
  {
    if ops == [] then m else MapRun(MapStep(m, ops[0]), ops[1..])
  }

  function Lookup(m: Dict, key: Key): Item? {
    if key in m then m[key] else null
  }

  /** What one operation returns when it is answered from the map: a find the item with the key, a
      replace the item it takes out. */
  function MapResult(m: Dict, op: Op): seq<Item?> {
    match op
    case Find(key) => [Lookup(m, key)]
    case Replace(x) => [Lookup(m, x.key)]
    case _ => []
  }

  function MapResults(m: Dict, ops: seq<Op>): seq<Item?>
    decreases |ops|
  {
    if ops == [] then [] else MapResult(m, ops[0]) + MapResults(MapStep(m, ops[0]), ops[1..])
  }

  lemma FirstOp(m: Dict, op: Op, rest: seq<Op>)
    ensures MapRun(m, [op] + rest) == MapRun(MapStep(m, op), rest)
    ensures MapResults(m, [op] + rest) == MapResult(m, op) + MapResults(MapStep(m, op), rest)
  {
    assert ([op] + rest)[1..] == rest;
  }

  lemma NoOps(m: Dict)
    ensures MapRun(m, []) == m && MapResults(m, []) == []
  {
  }

  /** What an operation adds to the results of a run. */
  lemma {:induction false} ResultsAppend(m: Dict, ops: seq<Op>, op: Op)
    ensures MapResults(m, ops + [op]) == MapResults(m, ops) + MapResult(MapRun(m, ops), op)
    decreases |ops|
  {
    hide MapStep, MapRun, MapResults, MapResult;
    if ops == [] {
      assert ops + [op] == [op] + [];
      FirstOp(m, op, []);
      NoOps(m);
      NoOps(MapStep(m, op));
    } else {
      var rest := ops[1..];
      assert ops == [ops[0]] + rest && ops + [op] == [ops[0]] + (rest + [op]);
      FirstOp(m, ops[0], rest);
      FirstOp(m, ops[0], rest + [op]);
      ResultsAppend(MapStep(m, ops[0]), rest, op);
    }
  }

  /** A find adds to the results the item that the map built so far holds under the key, or null; a
      replace adds the item it takes out; nothing else adds anything. */
  lemma ResultsOneMore(m: Dict, ops: seq<Op>, op: Op)
    ensures var now := MapRun(m, ops);
            MapResults(m, ops + [op]) == MapResults(m, ops) +
              if op.Find? then [if op.key in now then now[op.key] else null]
              else if op.Replace? then [if op.x.key in now then now[op.x.key] else null]
              else []
  {
    hide MapRun, MapResults;
    ResultsAppend(m, ops, op);
  }

  // ---------------------------------------------------------------- the application order

  /** The application order after one operation. */
  function OrderStep(order: seq<Item>, op: Op): seq<Item> {
    match op
    case Add(x) => order + [x]
    case AddInorder(x, cmp) => InsertUpper(cmp, order, x)
    case Replace(x) =>
      var prior := ItemWith(order, x.key);
      (if prior == null then order else RemoveElem(order, prior)) + [x]
    case Delete(x) => RemoveElem(order, x)
    case Sort(cmp) => StableSort(cmp, order)
    case Find(_) => order
  }

  function OrderRun(order: seq<Item>, ops: seq<Op>): seq<Item>
    decreases |ops|
  {
    if ops == [] then order else OrderRun(OrderStep(order, ops[0]), ops[1..])
  }

  /** What uthash asks of its callers: add only items and keys that are not in the table, delete
      only items that are.  Replace takes any item, also one that is in the table. */
  ghost predicate Legal(order: seq<Item>, op: Op) {
    match op
    case Add(x) => x !in order && !Holds(order, x.key)
    case AddInorder(x, _) => x !in order && !Holds(order, x.key)
    case Replace(x) => true
    case Delete(x) => x in order
    case Sort(cmp) => Preorder(cmp)
    case Find(_) => true
  }

  ghost predicate LegalRun(order: seq<Item>, ops: seq<Op>)
    decreases |ops|
  {
    ops == [] || (Legal(order, ops[0]) && LegalRun(OrderStep(order, ops[0]), ops[1..]))
  }

  // ---------------------------------------------------------------- the order stands for the map

  /** No two items share a key and the map sends each key to its item. */
  ghost predicate Represents(order: seq<Item>, m: Dict) {
    && (forall i, j | 0 <= i < j < |order| :: order[i].key != order[j].key)
    && (forall i | 0 <= i < |order| :: order[i].key in m && m[order[i].key] == order[i])
    && (forall k | k in m :: m[k] in order && m[k].key == k)
  }

  lemma {:induction false} ItemWithMeets(order: seq<Item>, m: Dict, key: Key)
    requires Represents(order, m)
    ensures ItemWith(order, key) == Lookup(m, key)
    ensures Holds(order, key) <==> key in m
  {
    ItemWithSpec(order, key);
    if key in m {
      var i :| 0 <= i < |order| && order[i] == m[key];
    }
  }

  lemma RepresentsAppend(order: seq<Item>, m: Dict, x: Item)
    requires Represents(order, m) && x.key !in m
    ensures Represents(order + [x], m[x.key := x])
  {
    var order', m' := order + [x], m[x.key := x];
    forall k | k in m' ensures m'[k] in order' {
      if k != x.key { assert m[k] in order; } else { assert order'[|order|] == x; }
    }
  }

  lemma RepresentsRemove(order: seq<Item>, m: Dict, x: Item)
    requires Represents(order, m) && x in order
    ensures Represents(RemoveElem(order, x), m - {x.key})
  {
    hide RemoveElem, Represents;
    var k :| 0 <= k < |order| && order[k] == x;
    DistinctByKey(order, m);
    RemoveElemAt(order, x, k);
    RepresentsRemoveAt(order, m, k);
  }

  lemma DistinctByKey(order: seq<Item>, m: Dict)
    requires Represents(order, m)
    ensures Distinct(order)
  {
  }

  lemma KeysStayApart(order: seq<Item>, k: nat)
    requires k < |order| && forall i, j | 0 <= i < j < |order| :: order[i].key != order[j].key
    ensures var rest := RemoveAt(order, k);
            && (forall i, j | 0 <= i < j < |rest| :: rest[i].key != rest[j].key)
            && (forall i | 0 <= i < |rest| :: rest[i] in order && rest[i].key != order[k].key)
  {
    var rest := RemoveAt(order, k);
    assert forall i | 0 <= i < |rest| :: rest[i] == if i < k then order[i] else order[i + 1];
  }

  lemma RepresentsRemoveAt(order: seq<Item>, m: Dict, k: nat)
    requires Represents(order, m) && k < |order|
    ensures Represents(RemoveAt(order, k), m - {order[k].key})
  {
    KeysStayApart(order, k);
    DistinctByKey(order, m);
    RemovedFrom(order, k);
    var m' := m - {order[k].key};
    forall key | key in m' ensures m'[key] in RemoveAt(order, k) {
      assert m[key] in order && m[key] != order[k];
    }
  }

  /** Reordering does not change the map. */
  lemma RepresentsPermuted(order: seq<Item>, m: Dict, order': seq<Item>)
    requires Represents(order, m) && multiset(order) == multiset(order')
    ensures Represents(order', m)
  {
    forall i | 0 <= i < |order'| ensures order'[i] in order {
      assert order'[i] in multiset(order);
    }
    forall k | k in m ensures m[k] in order' {
      assert m[k] in multiset(order');
    }
    forall i, j | 0 <= i < j < |order'| ensures order'[i].key != order'[j].key {
      if order'[i].key == order'[j].key {
        assert order'[i] == order'[j];
        TwiceIn(order', i, j);
        var k :| 0 <= k < |order| && order[k] == order'[i];
        OnceIn(order, k);
      }
    }
  }

  lemma TwiceIn(s: seq<Item>, i: nat, j: nat)
    requires i < j < |s| && s[i] == s[j]
    ensures multiset(s)[s[i]] >= 2
  {
    assert s == s[..j] + s[j..];
    assert s[..j][i] == s[i] && s[j..][0] == s[j];
    assert multiset(s) == multiset(s[..j]) + multiset(s[j..]);
    assert s[i] in s[..j] && s[i] in s[j..];
  }

  lemma OnceIn(s: seq<Item>, k: nat)
    requires k < |s| && forall i, j | 0 <= i < j < |s| :: s[i].key != s[j].key
    ensures multiset(s)[s[k]] == 1
  {
    assert s == s[..k] + [s[k]] + s[k + 1..];
    assert s[k] !in s[..k] && s[k] !in s[k + 1..];
  }

  /** One operation keeps the order and the map in step. */
  lemma StepRefinesMap(order: seq<Item>, m: Dict, op: Op)
    requires Represents(order, m) && Legal(order, op)
    ensures Represents(OrderStep(order, op), MapStep(m, op))
  {
    hide Represents, StableSort, InsertUpper, RemoveElem, ItemWith;
    match op
    case Add(x) =>
      ItemWithMeets(order, m, x.key);
      RepresentsAppend(order, m, x);
    case AddInorder(x, cmp) =>
      ItemWithMeets(order, m, x.key);
      RepresentsAppend(order, m, x);
      InsertUpperPermutes(cmp, order, x);
      RepresentsPermuted(order + [x], m[x.key := x], InsertUpper(cmp, order, x));
    case Replace(x) =>
      ReplaceRefinesMap(order, m, x);
    case Delete(x) =>
      RepresentsRemove(order, m, x);
    case Sort(cmp) =>
      StableSortIsStable(cmp, order);
      RepresentsPermuted(order, m, StableSort(cmp, order));
    case Find(_) =>
  }

  lemma ReplaceRefinesMap(order: seq<Item>, m: Dict, x: Item)
    requires Represents(order, m)
    ensures Represents(OrderStep(order, Replace(x)), m[x.key := x])
  {
    hide Represents, RemoveElem, ItemWith;
    ItemWithMeets(order, m, x.key);
    ItemWithSpec(order, x.key);
    var prior := ItemWith(order, x.key);
    if prior == null {
      RepresentsAppend(order, m, x);
    } else {
      RepresentsRemove(order, m, prior);
      RepresentsAppend(RemoveElem(order, prior), m - {x.key}, x);
      assert (m - {x.key})[x.key := x] == m[x.key := x];
    }
  }

  lemma InsertUpperPermutes(cmp: Cmp, s: seq<Item>, x: Item)
    ensures multiset(s + [x]) == multiset(InsertUpper(cmp, s, x))
  {
    InsertUpperIsMerge(cmp, s, x);
    MergePermutes(cmp, s, [x]);
  }

  /** Over any legal run the application order stands for the map. */
  lemma {:induction false} RunRefinesMap(order: seq<Item>, m: Dict, ops: seq<Op>)
    requires Represents(order, m) && LegalRun(order, ops)
    ensures Represents(OrderRun(order, ops), MapRun(m, ops))
    decreases |ops|
  {
    hide Represents;
    if ops != [] {
      StepRefinesMap(order, m, ops[0]);
      RunRefinesMap(OrderStep(order, ops[0]), MapStep(m, ops[0]), ops[1..]);
    }
  }

  // ---------------------------------------------------------------- insertions minus deletions

  /** Runs without in-order additions and sorts. */
  predicate Plain(ops: seq<Op>) {
    forall i | 0 <= i < |ops| :: !ops[i].AddInorder? && !ops[i].Sort?
  }

  /** The items a plain run puts in, in the order it does. */
  function Inserted(ops: seq<Op>): seq<Item>
    decreases |ops|
  {
    if ops == [] then []
    else (if ops[0].Add? || ops[0].Replace? then [ops[0].x] else []) + Inserted(ops[1..])
  }

  /** The elements of s that are live, each at its last occurrence. */
  function Latest(s: seq<Item>, live: set<Item>): seq<Item> {
    if s == [] then []
    else (if s[0] in live && s[0] !in s[1..] then [s[0]] else []) + Latest(s[1..], live)
  }

  lemma {:induction false} LatestOfAll(s: seq<Item>, live: set<Item>)
    requires Distinct(s) && Elems(s) <= live
    ensures Latest(s, live) == s
  {
    if s != [] {
      assert s[0] in Elems(s) && Elems(s[1..]) <= Elems(s);
      LatestOfAll(s[1..], live);
    }
  }

  /** An element that is not live, or occurs again later, can be dropped. */
  lemma {:induction false} LatestWithout(s: seq<Item>, k: nat, live: set<Item>)
    requires k < |s| && (s[k] !in live || s[k] in s[k + 1..])
    ensures Latest(RemoveAt(s, k), live) == Latest(s, live)
  {
    if k == 0 {
      assert RemoveAt(s, 0) == s[1..];
    } else {
      var rest := s[1..];
      assert rest[k - 1..] == s[k..] && rest[k..] == s[k + 1..];
      LatestWithout(rest, k - 1, live);
      assert RemoveAt(s, k) == [s[0]] + RemoveAt(rest, k - 1);
      assert rest == rest[..k - 1] + [s[k]] + s[k + 1..];
    }
  }

  lemma RemoveBeforeOthers(s: seq<Item>, t: seq<Item>, k: nat)
    requires k < |s|
    ensures RemoveAt(s + t, k) == RemoveAt(s, k) + t
    ensures (s + t)[k] == s[k] && forall y | y in t :: y in (s + t)[k + 1..]
  {
    assert (s + t)[k + 1..] == s[k + 1..] + t;
  }

  /** Taking x out of the order does not matter for what is live later on, unless x is put back. */
  lemma LatestWithoutElem(order: seq<Item>, x: Item, later: seq<Item>, live: set<Item>)
    requires Distinct(order) && x in order && (x !in live || x in later)
    ensures Latest(RemoveElem(order, x) + later, live) == Latest(order + later, live)
  {
    hide Latest, RemoveElem;
    var k :| 0 <= k < |order| && order[k] == x;
    RemoveElemAt(order, x, k);
    RemoveBeforeOthers(order, later, k);
    LatestWithout(order + later, k, live);
  }

  lemma {:induction false} RunElems(order: seq<Item>, ops: seq<Op>)
    requires LegalRun(order, ops) && Plain(ops)
    ensures Elems(OrderRun(order, ops)) <= Elems(order) + Elems(Inserted(ops))
    decreases |ops|
  {
    hide OrderStep;
    if ops != [] {
      StepElems(order, ops[0]);
      assert Plain(ops[1..]);
      RunElems(OrderStep(order, ops[0]), ops[1..]);
      assert OpItem(ops[0]) + Elems(Inserted(ops[1..])) == Elems(Inserted(ops));
    }
  }

  lemma RepresentedElems(order: seq<Item>, m: Dict)
    requires Represents(order, m)
    ensures Elems(order) == m.Values && Distinct(order)
  {
    forall x | x in m.Values ensures x in order {
      var k :| k in m && m[k] == x;
    }
  }

  /** The application order is the insertion sequence restricted to the items the map holds in the
      end, each at the place of its last insertion. */
  lemma {:induction false} OrderIsSurvivors(order: seq<Item>, m: Dict, ops: seq<Op>)
    requires Represents(order, m) && LegalRun(order, ops) && Plain(ops)
    ensures OrderRun(order, ops) == Latest(order + Inserted(ops), MapRun(m, ops).Values)
    decreases |ops|
  {
    hide Represents, Latest, RemoveElem, ItemWith, OrderStep;
    if ops == [] {
      assert order + Inserted(ops) == order;
      RepresentedElems(order, m);
      LatestOfAll(order, m.Values);
    } else {
      var op, rest := ops[0], ops[1..];
      var order' := OrderStep(order, op);
      StepRefinesMap(order, m, op);
      assert Plain(rest);
      OrderIsSurvivors(order', MapStep(m, op), rest);
      FinalItems(order', MapStep(m, op), rest);
      SurvivorStep(order, m, op, Inserted(rest), MapRun(m, ops).Values);
    }
  }

  /** What the map holds in the end was there or was put in. */
  lemma FinalItems(order: seq<Item>, m: Dict, ops: seq<Op>)
    requires Represents(order, m) && LegalRun(order, ops) && Plain(ops)
    ensures MapRun(m, ops).Values <= Elems(order) + Elems(Inserted(ops))
  {
    RunRefinesMap(order, m, ops);
    RepresentedElems(OrderRun(order, ops), MapRun(m, ops));
    RunElems(order, ops);
  }

  /** Running one operation first does not change which items come last. */
  lemma SurvivorStep(order: seq<Item>, m: Dict, op: Op, later: seq<Item>, live: set<Item>)
    requires Represents(order, m) && Legal(order, op) && !op.AddInorder? && !op.Sort?
    requires live <= Elems(OrderStep(order, op)) + Elems(later)
    ensures Latest(OrderStep(order, op) + later, live)
         == Latest(order + ((if op.Add? || op.Replace? then [op.x] else []) + later), live)
  {
    hide Represents, Latest, RemoveElem, ItemWith;
    RepresentedElems(order, m);
    match op
    case Add(x) =>
      assert order + [x] + later == order + ([x] + later);
    case Replace(x) =>
      ItemWithSpec(order, x.key);
      var prior := ItemWith(order, x.key);
      if prior != null {
        RemovedIsGone(order, prior);
        LatestWithoutElem(order, prior, [x] + later, live);
        assert RemoveElem(order, prior) + [x] + later == RemoveElem(order, prior) + ([x] + later);
      } else {
        assert order + [x] + later == order + ([x] + later);
      }
    case Delete(x) =>
      RemovedIsGone(order, x);
      assert order + ([] + later) == order + later;
      LatestWithoutElem(order, x, later, live);
    case Find(_) =>
      assert order + ([] + later) == order + later;
  }

  // ---------------------------------------------------------------- in-order additions and sorting

  function AddAll(items: seq<Item>): (ops: seq<Op>)
    ensures |ops| == |items|
  {
    seq(|items|, i requires 0 <= i < |items| => Add(items[i]))
  }

  function AddAllInorder(items: seq<Item>, cmp: Cmp): (ops: seq<Op>)
    ensures |ops| == |items|
  {
    seq(|items|, i requires 0 <= i < |items| => AddInorder(items[i], cmp))
  }

  lemma {:induction false} RunAppend(order: seq<Item>, ops: seq<Op>, more: seq<Op>)
    ensures OrderRun(order, ops + more) == OrderRun(OrderRun(order, ops), more)
    decreases |ops|
  {
    hide OrderStep;
    if ops == [] {
      assert ops + more == more;
    } else {
      assert (ops + more)[1..] == ops[1..] + more;
      RunAppend(OrderStep(order, ops[0]), ops[1..], more);
    }
  }

  lemma {:induction false} RunOfAdds(order: seq<Item>, items: seq<Item>)
    ensures OrderRun(order, AddAll(items)) == order + items
    decreases |items|
  {
    if items == [] {
      assert order + items == order;
    } else {
      assert AddAll(items)[1..] == AddAll(items[1..]);
      RunOfAdds(order + [items[0]], items[1..]);
      assert order + [items[0]] + items[1..] == order + items;
    }
  }

  /** Adding to the stable sort of s in order gives the stable sort of s and the new items. */
  lemma {:induction false} RunOfInorderAdds(s: seq<Item>, items: seq<Item>, cmp: Cmp)
    ensures OrderRun(StableSort(cmp, s), AddAllInorder(items, cmp)) == StableSort(cmp, s + items)
    decreases |items|
  {
    hide StableSort, InsertUpper;
    if items == [] {
      assert s + items == s;
    } else {
      assert AddAllInorder(items, cmp)[1..] == AddAllInorder(items[1..], cmp);
      StableSortSnoc(cmp, s, items[0]);
      RunOfInorderAdds(s + [items[0]], items[1..], cmp);
      assert s + [items[0]] + items[1..] == s + items;
    }
  }

  /** In-order additions to a sorted hash leave the same application order as appending the items
      and sorting afterwards. */
  lemma InorderAddsMatchSort(order: seq<Item>, items: seq<Item>, cmp: Cmp)
    requires Preorder(cmp) && Sorted(cmp, order)
    ensures OrderRun(order, AddAllInorder(items, cmp)) == OrderRun(order, AddAll(items) + [Sort(cmp)])
  {
    hide StableSort, InsertUpper, Class;
    StableSortUnique(cmp, order, order);
    RunOfInorderAdds(order, items, cmp);
    RunAppend(order, AddAll(items), [Sort(cmp)]);
    RunOfAdds(order, items);
  }

  // ---------------------------------------------------------------- the concrete table follows

  function OpItem(op: Op): set<Item> {
    if op.Add? || op.AddInorder? || op.Replace? then {op.x} else {}
  }

  function OpItems(ops: seq<Op>): set<Item>
    decreases |ops|
  {
    if ops == [] then {} else OpItem(ops[0]) + OpItems(ops[1..])
  }

  lemma StepElems(order: seq<Item>, op: Op)
    requires Legal(order, op)
    ensures Elems(OrderStep(order, op)) <= Elems(order) + OpItem(op)
  {
    hide StableSort, InsertUpper, RemoveElem, ItemWith;
    match op
    case Add(x) =>
    case AddInorder(x, cmp) => InsertUpperElems(cmp, order, x);
    case Replace(x) =>
      var prior := ItemWith(order, x.key);
      if prior != null { RemoveElemSubset(order, prior); }
    case Delete(x) => RemoveElemSubset(order, x);
    case Sort(cmp) => SortElems(cmp, order);
    case Find(_) =>
  }

  lemma KeyIsUnique(order: seq<Item>, m: Dict, x: Item)
    requires Represents(order, m) && x in order
    ensures forall i | 0 <= i < |order| && order[i].key == x.key :: order[i] == x
  {
  }

  /** One operation on the real table. */
  method Perform(h: Hash, op: Op, ghost m: Dict) returns (results: seq<Item?>)
    requires h.Valid() && Represents(h.order, m) && Legal(h.order, op)
    modifies h, h.Tables(), h.order, OpItem(op)
    ensures h.Valid() && fresh(h.Tables() - old(h.Tables()))
    ensures h.order == OrderStep(old(h.order), op)
    ensures results == MapResult(m, op)
  {
    hide TableOk, StableSort, InsertUpper, RemoveElem, ItemWith, HashOk;
    results := [];
    match op
    case Add(x) => h.Add(x);
    case AddInorder(x, cmp) => h.AddInorder(cmp, x);
    case Replace(x) =>
      ItemWithMeets(h.order, m, x.key);
      if x in h.order { KeyIsUnique(h.order, m, x); }
      var replaced := h.Replace(x);
      results := [replaced];
    case Delete(x) => h.Delete(x);
    case Sort(cmp) => h.Sort(cmp);
    case Find(key) =>
      ItemWithMeets(h.order, m, key);
      var out := h.Find(key);
      results := [out];
  }

  /** Any legal run on the real table, whatever the hash function and however often the bucket
      array doubles, answers every find as the finite map does and ends in the specified order. */
  method Drive(h: Hash, ops: seq<Op>, ghost m: Dict) returns (results: seq<Item?>)
    requires h.Valid() && Represents(h.order, m) && LegalRun(h.order, ops)
    modifies h, h.Tables(), h.order, OpItems(ops)
    ensures h.Valid() && h.order == OrderRun(old(h.order), ops)
    ensures Represents(h.order, MapRun(m, ops))
    ensures results == MapResults(m, ops)
    decreases |ops|
  {
    hide TableOk, HashOk, Represents, OrderStep;
    if ops == [] {
      results := [];
    } else {
      StepRefinesMap(h.order, m, ops[0]);
      StepElems(h.order, ops[0]);
      results := Perform(h, ops[0], m);
      assert forall i | 0 <= i < |h.order| :: h.order[i] in Elems(h.order);
      var more := Drive(h, ops[1..], MapStep(m, ops[0]));
      results := results + more;
    }
  }
}
