/** The table of socklist.c that maps websocket names to daemon sockets. */
module SocketTable {

  /** strcmp on strings without NUL characters: the sign of the first difference. */
  function StrCmp(a: string, b: string): int {
    if a == [] then (if b == [] then 0 else -1)
    else if b == [] then 1
    else if a[0] < b[0] then -1
    else if a[0] > b[0] then 1
    else StrCmp(a[1..], b[1..])
  }

  lemma {:induction false} StrCmpEqual(a: string, b: string)
    ensures StrCmp(a, b) == 0 <==> a == b
  {
    if a != [] && b != [] && a[0] == b[0] {
      StrCmpEqual(a[1..], b[1..]);
      assert a == [a[0]] + a[1..] && b == [b[0]] + b[1..];
    }
  }

  lemma {:induction false} StrCmpSwap(a: string, b: string)
    ensures StrCmp(a, b) == -StrCmp(b, a)
  {
    if a != [] && b != [] && a[0] == b[0] { StrCmpSwap(a[1..], b[1..]); }
  }

  lemma {:induction false} StrCmpTransitive(a: string, b: string, c: string)
    requires StrCmp(a, b) < 0 && StrCmp(b, c) < 0
    ensures StrCmp(a, c) < 0
  {
    if a != [] && a[0] == b[0] == c[0] { StrCmpTransitive(a[1..], b[1..], c[1..]); }
  }

  /** The first k characters agree and then a ends or has the smaller character. */
  ghost predicate SmallerAt(a: string, b: string, k: int) {
    0 <= k <= |a| && k < |b| && a[..k] == b[..k] && (k == |a| || a[k] < b[k])
  }

  lemma SmallerTail(a: string, b: string, k: nat)
    requires a != [] && b != [] && a[0] == b[0]
    ensures SmallerAt(a, b, k + 1) <==> SmallerAt(a[1..], b[1..], k)
  {
    if k < |a| && k + 1 < |b| {
      assert a[..k + 1] == [a[0]] + a[1..][..k];
      assert b[..k + 1] == [b[0]] + b[1..][..k];
    }
  }

  lemma SmallerHead(a: string, b: string)
    ensures SmallerAt(a, b, 0) <==> b != [] && (a == [] || a[0] < b[0])
    ensures b != [] && (a == [] || a[0] != b[0]) ==> forall k :: SmallerAt(a, b, k) ==> k == 0
  {
    if a != [] && b != [] && a[0] != b[0] {
      forall k | 0 < k <= |a| && k < |b| ensures a[..k] != b[..k] {
        assert a[..k][0] != b[..k][0];
      }
    }
  }

  /** The order is the lexicographic one. */
  lemma {:induction false} StrCmpDirection(a: string, b: string)
    ensures StrCmp(a, b) < 0 <==> exists k :: SmallerAt(a, b, k)
  {
    SmallerHead(a, b);
    if a != [] && b != [] && a[0] == b[0] {
      StrCmpDirection(a[1..], b[1..]);
      if k :| SmallerAt(a[1..], b[1..], k) {
        SmallerTail(a, b, k);
        assert SmallerAt(a, b, k + 1);
      }
      if k :| SmallerAt(a, b, k) {
        assert k > 0;
        SmallerTail(a, b, k - 1);
        assert SmallerAt(a[1..], b[1..], k - 1);
      }
    }
  }

  datatype Mapping = Mapping(socket: string, websocket: string)

  const COLON := ':'

  /** strchr: the index of the first ':'. */
  function FirstColon(s: string): (k: nat)
    requires COLON in s
    ensures k < |s| && s[k] == COLON && COLON !in s[..k]
  {
    if s[0] == COLON then 0 else 1 + FirstColon(s[1..])
  }

  /** The daemon socket before the first ':' and the websocket name after it. */
  function Parse(s: string): Mapping
    requires COLON in s
  {
    Mapping(s[..FirstColon(s)], s[FirstColon(s) + 1..])
  }

  function Join(m: Mapping): string {
    m.socket + [COLON] + m.websocket
  }

  lemma JoinParse(s: string)
    requires COLON in s
    ensures Join(Parse(s)) == s == Parse(s).socket + ":" + Parse(s).websocket && ':' !in Parse(s).socket
  {
  }

  lemma {:induction false} FirstColonAt(s: string, k: nat)
    requires k < |s| && s[k] == COLON && COLON !in s[..k]
    ensures FirstColon(s) == k
  {
    if k > 0 {
      assert s[0] == s[..k][0];
      assert s[1..][..k - 1] == s[..k][1..];
      FirstColonAt(s[1..], k - 1);
    }
  }

  /** Parsing undoes joining exactly when the socket path has no ':'. */
  lemma ParseJoin(m: Mapping)
    ensures COLON in Join(m)
    ensures Parse(Join(m)) == m <==> COLON !in m.socket
  {
    var s := Join(m);
    assert s[|m.socket|] == COLON && s[..|m.socket|] == m.socket;
    if COLON !in m.socket {
      FirstColonAt(s, |m.socket|);
      assert s[|m.socket| + 1..] == m.websocket;
    }
  }

  // ---------------------------------------------------------------- sorted tables

  ghost predicate StrictlySorted(s: seq<Mapping>) {
    forall i, j | 0 <= i < j < |s| :: StrCmp(s[i].websocket, s[j].websocket) < 0
  }

  ghost predicate HasName(s: seq<Mapping>, name: string) {
    exists i | 0 <= i < |s| :: s[i].websocket == name
  }

  /** Where the insertion scan stops: after the leading entries with smaller names. */
  function InsertionPoint(s: seq<Mapping>, name: string): (k: nat)
    ensures k <= |s|
    ensures forall i | 0 <= i < k :: StrCmp(name, s[i].websocket) > 0
    ensures k < |s| ==> StrCmp(name, s[k].websocket) <= 0
  {
    if s == [] || StrCmp(name, s[0].websocket) <= 0 then 0 else 1 + InsertionPoint(s[1..], name)
  }

  lemma {:induction false} InsertionPointIs(s: seq<Mapping>, name: string, k: nat)
    requires k <= |s| && forall i | 0 <= i < k :: StrCmp(name, s[i].websocket) > 0
    requires k < |s| ==> StrCmp(name, s[k].websocket) <= 0
    ensures InsertionPoint(s, name) == k
  {
    if k > 0 { InsertionPointIs(s[1..], name, k - 1); }
  }

  function Insert(s: seq<Mapping>, m: Mapping): seq<Mapping> {
    var k := InsertionPoint(s, m.websocket);
    s[..k] + [m] + s[k..]
  }

  /** The scan that stops at the first greater entry still decides presence exactly. */
  lemma PresenceAtInsertionPoint(s: seq<Mapping>, name: string)
    requires StrictlySorted(s)
    ensures var k := InsertionPoint(s, name);
            HasName(s, name) <==> k < |s| && StrCmp(name, s[k].websocket) == 0
  {
    var k := InsertionPoint(s, name);
    if k < |s| { StrCmpEqual(name, s[k].websocket); }
    forall i | 0 <= i < |s| && s[i].websocket == name ensures i == k {
      StrCmpEqual(name, s[i].websocket);
      if k < i {
        StrCmpEqual(name, s[k].websocket);
        StrCmpSwap(s[k].websocket, name);
      }
    }
  }

  lemma InsertionOrder(s: seq<Mapping>, name: string, i: nat)
    requires StrictlySorted(s) && !HasName(s, name) && i < |s|
    ensures i < InsertionPoint(s, name) ==> StrCmp(s[i].websocket, name) < 0
    ensures i >= InsertionPoint(s, name) ==> StrCmp(name, s[i].websocket) < 0
  {
    hide StrCmp;
    var k := InsertionPoint(s, name);
    PresenceAtInsertionPoint(s, name);
    StrCmpSwap(s[i].websocket, name);
    if k < i { StrCmpTransitive(name, s[k].websocket, s[i].websocket); }
  }

  /** Inserting a new name keeps the table strictly sorted and adds just that mapping. */
  lemma InsertKeepsSorted(s: seq<Mapping>, m: Mapping)
    requires StrictlySorted(s) && !HasName(s, m.websocket)
    ensures StrictlySorted(Insert(s, m))
  {
    hide StrCmp, InsertionPoint, HasName;
    var k, t := InsertionPoint(s, m.websocket), Insert(s, m);
    assert forall i | 0 <= i < |t| :: t[i] == if i < k then s[i] else if i == k then m else s[i - 1];
    forall i, j | 0 <= i < j < |t| ensures StrCmp(t[i].websocket, t[j].websocket) < 0 {
      if j == k { InsertionOrder(s, m.websocket, i); }
      if i == k { InsertionOrder(s, m.websocket, j - 1); }
    }
  }

  lemma InsertAdds(s: seq<Mapping>, m: Mapping)
    ensures multiset(Insert(s, m)) == multiset(s) + multiset{m}
  {
    var k := InsertionPoint(s, m.websocket);
    assert s == s[..k] + s[k..];
  }

  lemma SameHead(s: seq<Mapping>, t: seq<Mapping>)
    requires StrictlySorted(s) && StrictlySorted(t) && multiset(s) == multiset(t) && s != [] && t != []
    ensures s[0] == t[0]
  {
    hide StrCmp;
    assert s[0] in multiset(t) && t[0] in multiset(s);
    var i :| 0 <= i < |t| && t[i] == s[0];
    var j :| 0 <= j < |s| && s[j] == t[0];
    StrCmpSwap(s[0].websocket, t[0].websocket);
  }

  /** A strictly sorted table is determined by its mappings. */
  lemma {:induction false} SortedUnique(s: seq<Mapping>, t: seq<Mapping>)
    requires StrictlySorted(s) && StrictlySorted(t) && multiset(s) == multiset(t)
    ensures s == t
  {
    hide StrCmp;
    assert |s| == |multiset(s)| == |multiset(t)| == |t|;
    if s != [] {
      SameHead(s, t);
      SameRest(s, t);
      SortedUnique(s[1..], t[1..]);
      assert s == [s[0]] + s[1..] && t == [t[0]] + t[1..];
    }
  }

  lemma SameRest(s: seq<Mapping>, t: seq<Mapping>)
    requires s != [] && t != [] && s[0] == t[0] && multiset(s) == multiset(t)
    ensures multiset(s[1..]) == multiset(t[1..])
  {
    assert s == [s[0]] + s[1..] && t == [t[0]] + t[1..];
    assert multiset(s[1..]) == multiset(s) - multiset{s[0]};
    assert multiset(t[1..]) == multiset(t) - multiset{s[0]};
  }

  /** The order in which two sockets are given on the command line does not matter. */
  lemma InsertCommutes(s: seq<Mapping>, a: Mapping, b: Mapping)
    requires StrictlySorted(s) && !HasName(s, a.websocket) && !HasName(s, b.websocket)
    requires a.websocket != b.websocket
    ensures Insert(Insert(s, a), b) == Insert(Insert(s, b), a)
  {
    InsertKeepsSorted(s, a);
    InsertKeepsSorted(s, b);
    InsertedNames(s, a, b.websocket);
    InsertedNames(s, b, a.websocket);
    InsertKeepsSorted(Insert(s, a), b);
    InsertKeepsSorted(Insert(s, b), a);
    InsertAdds(s, a);
    InsertAdds(s, b);
    InsertAdds(Insert(s, a), b);
    InsertAdds(Insert(s, b), a);
    SortedUnique(Insert(Insert(s, a), b), Insert(Insert(s, b), a));
  }

  lemma InsertedNames(s: seq<Mapping>, m: Mapping, name: string)
    ensures HasName(Insert(s, m), name) <==> HasName(s, name) || m.websocket == name
  {
    hide InsertionPoint;
    var k, t := InsertionPoint(s, m.websocket), Insert(s, m);
    assert forall i | 0 <= i < |t| :: t[i] == if i < k then s[i] else if i == k then m else s[i - 1];
    if HasName(s, name) {
      var i :| 0 <= i < |s| && s[i].websocket == name;
      assert t[if i < k then i else i + 1].websocket == name;
    }
    if m.websocket == name { assert t[k].websocket == name; }
  }

  /** The index of the first entry with the name, or -1. */
  function IndexOf(s: seq<Mapping>, name: string): (r: int)
    ensures -1 <= r < |s|
    ensures r >= 0 ==> s[r].websocket == name && forall i | 0 <= i < r :: s[i].websocket != name
    ensures r == -1 ==> forall i | 0 <= i < |s| :: s[i].websocket != name
  {
    if s == [] then -1
    else
      var r := IndexOf(s[..|s| - 1], name);
      if r == -1 && s[|s| - 1].websocket == name then |s| - 1 else r
  }

  /** In a sorted table any entry with the name is the first one. */
  lemma IndexIsUnique(s: seq<Mapping>, name: string, i: nat)
    requires StrictlySorted(s) && i < |s| && s[i].websocket == name
    ensures IndexOf(s, name) == i
  {
    var r := IndexOf(s, name);
    if r < i { StrCmpEqual(s[r].websocket, s[i].websocket); }
  }

  /** What a bisecting search may conclude from one comparison. */
  lemma Bisects(s: seq<Mapping>, name: string, mid: nat, i: nat)
    requires StrictlySorted(s) && mid < |s| && i < |s| && s[i].websocket == name
    ensures StrCmp(name, s[mid].websocket) < 0 <==> i < mid
    ensures StrCmp(name, s[mid].websocket) > 0 <==> i > mid
  {
    StrCmpEqual(name, s[mid].websocket);
    if i > mid { StrCmpSwap(s[mid].websocket, name); }
  }

  /** The slots while the entries of was from j on have been shifted up by one. */
  ghost predicate Shifted(slots: seq<Mapping>, was: seq<Mapping>, j: nat) {
    && j <= |was| < |slots|
    && (forall k | 0 <= k < j :: slots[k] == was[k])
    && (forall k | j <= k < |was| :: slots[k + 1] == was[k])
  }

  lemma NotShifted(slots: seq<Mapping>, was: seq<Mapping>)
    requires |was| < |slots| && was == slots[..|was|]
    ensures Shifted(slots, was, |was|)
  {
  }

  lemma ShiftOne(slots: seq<Mapping>, was: seq<Mapping>, j: nat)
    requires Shifted(slots, was, j) && j > 0
    ensures Shifted(slots[j := slots[j - 1]], was, j - 1)
  {
  }

  lemma FillGap(slots: seq<Mapping>, was: seq<Mapping>, i: nat, m: Mapping)
    requires Shifted(slots, was, i)
    ensures slots[i := m][..|was| + 1] == was[..i] + [m] + was[i..]
  {
  }

  // ---------------------------------------------------------------- a list of sockets, in order

  function ParseAll(maps: seq<string>): (ms: seq<Mapping>)
    requires forall i | 0 <= i < |maps| :: COLON in maps[i]
    ensures |ms| == |maps| && forall i | 0 <= i < |ms| :: ms[i] == Parse(maps[i])
  {
    seq(|maps|, i requires 0 <= i < |maps| => Parse(maps[i]))
  }

  /** The sockets of a list that pass the test, without those whose name came up before. */
  function Accepted(ms: seq<Mapping>, test: string -> int): seq<Mapping> {
    if ms == [] then []
    else
      var before, m := Accepted(ms[..|ms| - 1], test), ms[|ms| - 1];
      if test(m.socket) == 0 && IndexOf(before, m.websocket) == -1 then before + [m] else before
  }

  /** The k-th socket of the list passes the test and is the first with its name to do so. */
  ghost predicate FirstTested(ms: seq<Mapping>, test: string -> int, k: int) {
    && 0 <= k < |ms| && test(ms[k].socket) == 0
    && forall j | 0 <= j < k :: test(ms[j].socket) != 0 || ms[j].websocket != ms[k].websocket
  }

  /** m is such a socket. */
  ghost predicate Listed(ms: seq<Mapping>, test: string -> int, m: Mapping) {
    exists k :: FirstTested(ms, test, k) && ms[k] == m
  }

  /** Accepted, said without recursion: just the sockets that are the first tested ones with their
      name, and every tested name is among them. */
  ghost predicate IsAccepted(ms: seq<Mapping>, test: string -> int, acc: seq<Mapping>) {
    && |acc| <= |ms|
    && (forall k | FirstTested(ms, test, k) :: ms[k] in acc)
    && (forall i | 0 <= i < |acc| :: Listed(ms, test, acc[i]))
    && (forall k | 0 <= k < |ms| && test(ms[k].socket) == 0 :: HasName(acc, ms[k].websocket))
  }

  lemma {:induction false} AcceptedIs(ms: seq<Mapping>, test: string -> int)
    ensures IsAccepted(ms, test, Accepted(ms, test))
  {
    hide IsAccepted;
    if ms == [] {
      NothingAccepted(test);
    } else {
      var front := ms[..|ms| - 1];
      AcceptedIs(front, test);
      assert ms == front + [ms[|ms| - 1]];
      if Accepted(ms, test) == Accepted(front, test) {
        NextRefused(front, ms[|ms| - 1], test, Accepted(front, test));
      } else {
        NextAccepted(front, ms[|ms| - 1], test, Accepted(front, test));
      }
    }
  }

  lemma NothingAccepted(test: string -> int)
    ensures IsAccepted([], test, [])
  {
  }

  lemma FirstTestedBefore(front: seq<Mapping>, m: Mapping, test: string -> int, k: int)
    requires k < |front|
    ensures FirstTested(front, test, k) <==> FirstTested(front + [m], test, k)
  {
    assert forall j | 0 <= j < |front| :: (front + [m])[j] == front[j];
  }

  /** The last socket is the first with its name exactly when no accepted one has the name. */
  lemma LastTested(front: seq<Mapping>, m: Mapping, test: string -> int, acc: seq<Mapping>)
    requires IsAccepted(front, test, acc)
    ensures FirstTested(front + [m], test, |front|) <==> test(m.socket) == 0 && !HasName(acc, m.websocket)
  {
    var ms := front + [m];
    assert forall j | 0 <= j < |front| :: ms[j] == front[j];
    if HasName(acc, m.websocket) {
      var i :| 0 <= i < |acc| && acc[i].websocket == m.websocket;
      assert Listed(front, test, acc[i]);
      var k :| FirstTested(front, test, k) && front[k] == acc[i];
      assert ms[k].websocket == ms[|front|].websocket;
    }
  }

  lemma NextRefused(front: seq<Mapping>, m: Mapping, test: string -> int, acc: seq<Mapping>)
    requires IsAccepted(front, test, acc) && !(test(m.socket) == 0 && !HasName(acc, m.websocket))
    ensures IsAccepted(front + [m], test, acc)
  {
    var ms := front + [m];
    LastTested(front, m, test, acc);
    forall k | k < |front| ensures FirstTested(front, test, k) <==> FirstTested(ms, test, k) {
      FirstTestedBefore(front, m, test, k);
    }
    forall i | 0 <= i < |acc| ensures Listed(ms, test, acc[i]) {
      var taken := acc[i];
      var k :| FirstTested(front, test, k) && front[k] == taken;
      assert ms[k] == front[k] == taken && FirstTested(ms, test, k);
    }
  }

  lemma NextAccepted(front: seq<Mapping>, m: Mapping, test: string -> int, acc: seq<Mapping>)
    requires IsAccepted(front, test, acc) && test(m.socket) == 0 && !HasName(acc, m.websocket)
    ensures IsAccepted(front + [m], test, acc + [m])
  {
    var ms, now := front + [m], acc + [m];
    LastTested(front, m, test, acc);
    forall k | k < |front| ensures FirstTested(front, test, k) <==> FirstTested(ms, test, k) {
      FirstTestedBefore(front, m, test, k);
    }
    forall i | 0 <= i < |now| ensures Listed(ms, test, now[i]) {
      if i < |acc| {
        var taken := acc[i];
        var k :| FirstTested(front, test, k) && front[k] == taken;
        assert ms[k] == front[k] == taken && FirstTested(ms, test, k);
      } else {
        assert FirstTested(ms, test, |front|) && ms[|front|] == m;
      }
    }
    forall k | 0 <= k < |ms| && test(ms[k].socket) == 0 ensures HasName(now, ms[k].websocket) {
      NamesGrow(acc, m, ms[k].websocket);
    }
  }

  lemma NamesGrow(acc: seq<Mapping>, m: Mapping, name: string)
    ensures HasName(acc, name) || m.websocket == name ==> HasName(acc + [m], name)
  {
    if i :| 0 <= i < |acc| && acc[i].websocket == name { assert (acc + [m])[i].websocket == name; }
    assert (acc + [m])[|acc|] == m;
  }

  // ---------------------------------------------------------------- one socket, one websocket?

  ghost predicate HasSocket(s: seq<Mapping>, socket: string) {
    exists i | 0 <= i < |s| :: s[i].socket == socket
  }

  /** The documentation says that a socket cannot be bridged to several websockets. */
  ghost predicate SocketsDistinct(s: seq<Mapping>) {
    forall i, j | 0 <= i < j < |s| :: s[i].socket != s[j].socket
  }

  /** The table keeps to the documentation exactly when the caller never repeats a socket path. */
  lemma SocketsStayDistinct(s: seq<Mapping>, m: Mapping)
    requires SocketsDistinct(s)
    ensures SocketsDistinct(Insert(s, m)) <==> !HasSocket(s, m.socket)
  {
    hide InsertionPoint, StrCmp;
    var k, t := InsertionPoint(s, m.websocket), Insert(s, m);
    assert forall i | 0 <= i < |t| :: t[i] == if i < k then s[i] else if i == k then m else s[i - 1];
    if HasSocket(s, m.socket) {
      var i :| 0 <= i < |s| && s[i].socket == m.socket;
      if i < k {
        assert t[i].socket == t[k].socket;
      } else {
        assert t[k].socket == t[i + 1].socket;
      }
    }
  }

  /** A repeated path is accepted: two websockets end up on one daemon socket. */
  lemma SharedSocketAccepted()
    ensures var a, b := Mapping("/opt/otdb", "x"), Mapping("/opt/otdb", "y");
            !HasName([a], b.websocket) && !SocketsDistinct(Insert([a], b))
  {
    var a, b := Mapping("/opt/otdb", "x"), Mapping("/opt/otdb", "y");
    assert [a][0].socket == b.socket;
    SocketsStayDistinct([a], b);
  }

  // ---------------------------------------------------------------- filling the table

  /** As many of the accepted sockets as fit. */
  function Stored(capacity: nat, accepted: seq<Mapping>): seq<Mapping> {
    if |accepted| <= capacity then accepted else accepted[..capacity]
  }

  lemma SameNames(s: seq<Mapping>, t: seq<Mapping>, name: string)
    requires multiset(s) == multiset(t)
    ensures HasName(s, name) <==> HasName(t, name)
  {
    if i :| 0 <= i < |s| && s[i].websocket == name { assert s[i] in multiset(t); }
    if i :| 0 <= i < |t| && t[i].websocket == name { assert t[i] in multiset(s); }
  }

  lemma NothingStored(capacity: nat, ms: seq<Mapping>, test: string -> int)
    ensures Stored(capacity, Accepted(ms[..0], test)) == []
  {
  }

  lemma StoreOneMore(capacity: nat, ms: seq<Mapping>, test: string -> int, k: nat, was: seq<Mapping>)
    requires k < |ms| && multiset(was) == multiset(Stored(capacity, Accepted(ms[..k], test)))
    ensures multiset(Stored(capacity, Accepted(ms[..k + 1], test)))
         == if |was| < capacity && test(ms[k].socket) == 0 && !HasName(was, ms[k].websocket)
            then multiset(was) + multiset{ms[k]} else multiset(was)
  {
    hide HasName;
    var before, m := Accepted(ms[..k], test), ms[k];
    assert ms[..k + 1][..k] == ms[..k];
    assert |was| == |multiset(was)| == |multiset(Stored(capacity, before))| == |Stored(capacity, before)|;
    SameNames(was, Stored(capacity, before), m.websocket);
    IndexDecides(before, m.websocket);
    assert |before| >= capacity ==> Stored(capacity, before + [m]) == Stored(capacity, before);
  }

  lemma IndexDecides(s: seq<Mapping>, name: string)
    ensures IndexOf(s, name) == -1 <==> !HasName(s, name)
  {
  }

  lemma StoredTested(capacity: nat, ms: seq<Mapping>, test: string -> int, slots: seq<Mapping>)
    requires multiset(slots) == multiset(Stored(capacity, Accepted(ms, test)))
    ensures forall i | 0 <= i < |slots| :: test(slots[i].socket) == 0
  {
    hide HasName;
    AcceptedIs(ms, test);
    forall i | 0 <= i < |slots| ensures test(slots[i].socket) == 0 {
      assert slots[i] in multiset(Stored(capacity, Accepted(ms, test)));
      assert slots[i] in Accepted(ms, test);
    }
  }

  // ---------------------------------------------------------------- the table object

  /** socklist_t: a fixed number of slots, the first `size` of them in use. */
  class SockList {
    var size: nat
    const slots: array<Mapping>

    ghost predicate Valid()
      reads this, slots
    {
      size <= slots.Length && StrictlySorted(slots[..size])
    }

    /** socklist_init. */
    constructor (maxsize: nat)
      ensures Valid() && fresh(slots) && slots.Length == maxsize && size == 0
    {
      size := 0;
      slots := new Mapping[maxsize](_ => Mapping("", ""));
    }

    /** socklist_addmap; `test` stands for sub_testsocket.  Each refusal has its own code and leaves
        the table as it was; the entry is stored exactly when there is room, the daemon socket
        passes the test and the websocket name is new. */
    method AddMap(mapstr: string, test: string -> int) returns (rc: int)
      requires Valid() && COLON in mapstr
      requires forall path :: test(path) == 0 || test(path) == -2 || test(path) == -3
      modifies this, slots
      ensures Valid()
      ensures old(size) >= slots.Length ==> rc == -2
      ensures old(size) < slots.Length && test(Parse(mapstr).socket) != 0 ==> rc == test(Parse(mapstr).socket) - 5
      ensures (&& old(size) < slots.Length && test(Parse(mapstr).socket) == 0
               && HasName(old(slots[..size]), Parse(mapstr).websocket)) ==> rc == -5
      ensures rc == 0 <==> old(size) < slots.Length && test(Parse(mapstr).socket) == 0
                           && !HasName(old(slots[..size]), Parse(mapstr).websocket)
      ensures slots[..size] ==
              if rc == 0 then Insert(old(slots[..size]), Parse(mapstr)) else old(slots[..size])
    {
      hide StrCmp, StrictlySorted, InsertionPoint, FirstColon;
      if size >= slots.Length {
        return -2;
      }
      var colon := FirstColon(mapstr);
      var dspath, wspath := mapstr[..colon], mapstr[colon + 1..];
      rc := test(dspath);
      if rc != 0 {
        return rc - 5;
      }
      ghost var was := slots[..size];
      PresenceAtInsertionPoint(was, wspath);
      var i, cmp := Scan(wspath);
      if i < size && cmp == 0 {
        return -5;
      }
      var m := Mapping(dspath, wspath);
      InsertKeepsSorted(was, m);
      ShiftAndStore(i, m);
      assert slots[..size] == Insert(was, m);
      rc := 0;
    }

    /** Adding a list of sockets to an empty table stores those that pass the test and whose name is
        new, in the order of the list, until the table is full. */
    method AddMaps(maps: seq<string>, test: string -> int)
      requires Valid() && size == 0
      requires forall i | 0 <= i < |maps| :: COLON in maps[i]
      requires forall path :: test(path) == 0 || test(path) == -2 || test(path) == -3
      modifies this, slots
      ensures Valid()
      ensures multiset(slots[..size]) == multiset(Stored(slots.Length, Accepted(ParseAll(maps), test)))
      ensures forall i | 0 <= i < size :: test(slots[i].socket) == 0
    {
      hide StrCmp, StrictlySorted, Accepted, Insert, HasName, Stored, Parse;
      ghost var ms := ParseAll(maps);
      NothingStored(slots.Length, ms, test);
      for k := 0 to |maps|
        invariant Valid() && multiset(slots[..size]) == multiset(Stored(slots.Length, Accepted(ms[..k], test)))
      {
        ghost var was := slots[..size];
        var rc := AddMap(maps[k], test);
        InsertAdds(was, ms[k]);
        StoreOneMore(slots.Length, ms, test, k, was);
      }
      assert ms[..|maps|] == ms;
      StoredTested(slots.Length, ms, test, slots[..size]);
    }

    /** The insertion scan: stop at the first entry whose name is not smaller. */
    method Scan(wspath: string) returns (i: nat, cmp: int)
      requires Valid()
      ensures i == InsertionPoint(slots[..size], wspath)
      ensures i < size ==> cmp == StrCmp(wspath, slots[i].websocket)
    {
      hide StrCmp;
      i, cmp := 0, 1;
      while i < size
        invariant 0 <= i <= size
        invariant forall k | 0 <= k < i :: StrCmp(wspath, slots[..size][k].websocket) > 0
      {
        cmp := StrCmp(wspath, slots[i].websocket);
        if cmp == 0 {
          break;
        }
        if cmp < 0 {
          break;
        }
        i := i + 1;
      }
      InsertionPointIs(slots[..size], wspath, i);
    }

    /** Shift the entries from i on up by one slot and put m into the gap. */
    method ShiftAndStore(i: nat, m: Mapping)
      requires i <= size < slots.Length
      modifies this`size, slots
      ensures size == old(size) + 1 && slots[..size] == old(slots[..i]) + [m] + old(slots[i..size])
    {
      hide Shifted;
      ghost var was := slots[..size];
      var j := size;
      NotShifted(slots[..], was);
      while j > i
        invariant i <= j <= size == |was| < slots.Length
        invariant Shifted(slots[..], was, j)
      {
        ShiftOne(slots[..], was, j);
        slots[j] := slots[j - 1];
        j := j - 1;
      }
      FillGap(slots[..], was, i, m);
      slots[i] := m;
      size := size + 1;
    }

    /** socklist_search: the index of the entry with the name, or -1. */
    method Search(name: string) returns (found: int)
      requires Valid()
      ensures found == IndexOf(slots[..size], name)
      ensures found == -1 <==> !HasName(slots[..size], name)
    {
      found := -1;
      for i := 0 to size
        invariant forall k | 0 <= k < i :: slots[..size][k].websocket != name
      {
        StrCmpEqual(slots[i].websocket, name);
        if StrCmp(slots[i].websocket, name) == 0 {
          assert slots[..size][i].websocket == name;
          return i;
        }
      }
    }

    /** The binary search that the comment on socklist_search announces as a replacement. */
    method BinarySearch(name: string) returns (found: int)
      requires Valid()
      ensures found == IndexOf(slots[..size], name)
    {
      hide StrCmp, StrictlySorted;
      ghost var s := slots[..size];
      var lo, hi := 0, size;
      while lo < hi
        invariant 0 <= lo <= hi <= size
        invariant forall i | 0 <= i < size && s[i].websocket == name :: lo <= i < hi
      {
        var mid := (lo + hi) / 2;
        var cmp := StrCmp(name, slots[mid].websocket);
        StrCmpEqual(name, s[mid].websocket);
        if cmp == 0 {
          IndexIsUnique(s, name, mid);
          return mid;
        }
        forall i | 0 <= i < size && s[i].websocket == name ensures cmp < 0 <==> i < mid {
          Bisects(s, name, mid, i);
        }
        if cmp < 0 {
          hi := mid;
        } else {
          lo := mid + 1;
        }
      }
      found := -1;
    }
  }

  /** What the program does with its socket arguments: the table has a slot for each of them, so it
      holds exactly the first working socket given for every name. */
  method LoadSockets(maps: seq<string>, test: string -> int) returns (table: SockList)
    requires forall i | 0 <= i < |maps| :: COLON in maps[i]
    requires forall path :: test(path) == 0 || test(path) == -2 || test(path) == -3
    ensures fresh(table) && table.Valid()
    ensures forall m :: m in table.slots[..table.size] <==> Listed(ParseAll(maps), test, m)
    ensures forall k | 0 <= k < |maps| && test(Parse(maps[k]).socket) == 0 ::
              HasName(table.slots[..table.size], Parse(maps[k]).websocket)
  {
    hide Accepted, Parse, StrictlySorted, HasName, FirstTested;
    table := new SockList(|maps|);
    table.AddMaps(maps, test);
    AcceptedIs(ParseAll(maps), test);
    Loaded(ParseAll(maps), test, table.slots[..table.size]);
  }

  lemma Loaded(ms: seq<Mapping>, test: string -> int, t: seq<Mapping>)
    requires multiset(t) == multiset(Stored(|ms|, Accepted(ms, test)))
    ensures forall m :: m in t <==> Listed(ms, test, m)
    ensures forall k | 0 <= k < |ms| && test(ms[k].socket) == 0 :: HasName(t, ms[k].websocket)
  {
    hide Accepted, HasName, FirstTested;
    AcceptedIs(ms, test);
    var acc := Accepted(ms, test);
    forall m ensures m in t <==> m in acc {
      assert m in t <==> m in multiset(t);
    }
    forall k | FirstTested(ms, test, k) ensures 0 <= k < |ms| { InList(ms, test, k); }
    forall k | 0 <= k < |ms| && test(ms[k].socket) == 0 ensures HasName(t, ms[k].websocket) {
      SameNames(t, acc, ms[k].websocket);
    }
  }

  lemma InList(ms: seq<Mapping>, test: string -> int, k: int)
    requires FirstTested(ms, test, k)
    ensures 0 <= k < |ms|
  {
  }
}
