/** Borders, the optimised failure function of Knuth, Morris and Pratt, and the steps its two
    loops take; nothing here depends on the direction of the scan. */
module KmpTheory {
  import opened Items

  /** The first k characters of p[..i] are also its last k, with k < i. */
  ghost predicate Border(p: string, i: int, k: int) {
    0 <= k < i <= |p| && p[..k] == p[i - k..i]
  }

  /** A border whose next character differs from p[i]; at the end of p any border will do. */
  ghost predicate Candidate(p: string, i: int, k: int) {
    Border(p, i, k) && (i < |p| ==> p[k] != p[i])
  }

  /** t is the table entry for i: the longest candidate, or -1. */
  ghost predicate Entry(p: string, i: int, t: int) {
    && 0 <= i <= |p| && (t == -1 || Candidate(p, i, t))
    && forall k | Candidate(p, i, k) :: k <= t
  }

  /** The complete left-to-right table. */
  ghost predicate KmpTable(p: string, table: seq<int>) {
    |table| == |p| + 1 && forall i | 0 <= i <= |p| :: Entry(p, i, table[i])
  }

  /** What a table is, spelled out in characters: entry i >= 0 is the length k of a prefix that ends
      before i and is followed by another character than the one at i, every longer one is followed
      by the same character, and -1 says that all are. */
  lemma TableLaw(p: string, table: seq<int>, i: nat, k: nat)
    requires KmpTable(p, table) && k < i < |p|
    ensures |table| == |p| + 1 && -1 <= table[i] < i
    ensures table[i] >= 0 ==> p[..table[i]] == p[i - table[i]..i] && p[table[i]] != p[i]
    ensures k > table[i] && p[..k] == p[i - k..i] ==> p[k] == p[i]
  {
    EntryUnique(p, i, table[i], table[i]);
    assert k > table[i] ==> !Candidate(p, i, k);
  }

  /** The last entry is the longest proper border of the whole needle. */
  lemma LastEntryLaw(p: string, table: seq<int>, k: nat)
    requires KmpTable(p, table) && k < |p|
    ensures |table| == |p| + 1 && 0 <= table[|p|] < |p| && p[..table[|p|]] == p[|p| - table[|p|]..]
    ensures k > table[|p|] ==> p[..k] != p[|p| - k..]
  {
    var m := |p|;
    EntryUnique(p, m, table[m], table[m]);
    assert p[..0] == p[m..m];
    assert Candidate(p, m, 0);
    assert k > table[m] ==> !Candidate(p, m, k);
  }

  ghost predicate LongestBorder(p: string, i: int, j: int) {
    && 0 <= i <= |p| && (if i == 0 then j == -1 else Border(p, i, j))
    && forall k | Border(p, i, k) :: k <= j
  }

  lemma EntryUnique(p: string, i: int, t: int, u: int)
    requires Entry(p, i, t) && Entry(p, i, u)
    ensures t == u && t < i
  {
  }

  lemma EntryExists(p: string, i: nat)
    requires i <= |p|
    ensures exists t :: Entry(p, i, t)
  {
    var t := i - 1;
    while t >= 0 && !Candidate(p, i, t)
      invariant -1 <= t < i && forall k | t < k < i :: !Candidate(p, i, k)
    {
      t := t - 1;
    }
    assert Entry(p, i, t);
  }

  lemma BorderOfBorder(p: string, i: int, j: int, k: int)
    requires Border(p, i, j) && Border(p, i, k) && k < j
    ensures Border(p, j, k)
  {
    assert p[j - k..j] == p[..j][j - k..];
    assert p[i - j..i][j - k..] == p[i - k..i];
  }

  lemma BorderTransitive(p: string, i: int, j: int, k: int)
    requires Border(p, i, j) && Border(p, j, k)
    ensures Border(p, i, k)
  {
    assert p[j - k..j] == p[..j][j - k..];
    assert p[i - j..i][j - k..] == p[i - k..i];
  }

  lemma BorderExtends(p: string, i: int, k: int)
    requires 0 <= i < |p| && 0 <= k
    ensures Border(p, i + 1, k + 1) <==> Border(p, i, k) && p[k] == p[i]
  {
    if Border(p, i + 1, k + 1) {
      assert p[..k] == p[..k + 1][..k] == p[i - k..i + 1][..k] == p[i - k..i];
      assert p[k] == p[..k + 1][k] == p[i - k..i + 1][k] == p[i];
    }
    if Border(p, i, k) && p[k] == p[i] {
      assert p[..k + 1] == p[..k] + [p[k]];
      assert p[i - k..i + 1] == p[i - k..i] + [p[i]];
    }
  }

  // ---------------------------------------------------------------- building the table

  /** Inside the inner loop at i: no border that p[i] can extend is longer than j. */
  ghost predicate Searching(p: string, i: int, j: int) {
    && 0 <= i < |p| && (j == -1 || Border(p, i, j))
    && forall k | Border(p, i, k) && p[k] == p[i] :: k <= j
  }

  lemma StartTable(p: string)
    ensures LongestBorder(p, 0, -1) && Entry(p, 0, -1)
  {
  }

  lemma StartSearching(p: string, i: int, j: int)
    requires LongestBorder(p, i, j) && i < |p|
    ensures Searching(p, i, j)
  {
  }

  /** Following the failure link on a mismatch skips no border that p[i] can extend. */
  lemma FailureStep(p: string, i: int, j: int, t: int)
    requires Searching(p, i, j) && j >= 0 && p[i] != p[j] && Entry(p, j, t)
    ensures Searching(p, i, t) && -1 <= t < j
  {
    EntryUnique(p, j, t, t);
    if t >= 0 { BorderTransitive(p, i, j, t); }
    forall k | Border(p, i, k) && p[k] == p[i] ensures k <= t {
      BorderOfBorder(p, i, j, k);
      assert Candidate(p, j, k);
    }
  }

  /** When the inner loop stops, j + 1 is the longest border one position further. */
  lemma SearchDone(p: string, i: int, j: int)
    requires Searching(p, i, j) && (j == -1 || p[i] == p[j])
    ensures LongestBorder(p, i + 1, j + 1)
  {
    var next := i + 1;
    if j >= 0 { BorderExtends(p, i, j); }
    forall k | Border(p, next, k) ensures k <= j + 1 {
      if k > 0 { BorderExtends(p, i, k - 1); }
    }
  }

  /** The entry the code stores for i from the longest border j. */
  lemma StoredEntry(p: string, i: int, j: int, t: int)
    requires i > 0 && LongestBorder(p, i, j)
    requires if i < |p| && p[i] == p[j] then Entry(p, j, t) else t == j
    ensures Entry(p, i, t)
  {
    if i < |p| && p[i] == p[j] {
      if t >= 0 { BorderTransitive(p, i, j, t); }
      forall k | Candidate(p, i, k) ensures k <= t {
        BorderOfBorder(p, i, j, k);
        assert Candidate(p, j, k);
      }
    }
  }

  // ---------------------------------------------------------------- what building the table costs

  lemma LongestExists(p: string, i: nat)
    requires i <= |p|
    ensures exists j :: LongestBorder(p, i, j)
  {
    var j := i - 1;
    while j > 0 && !Border(p, i, j)
      invariant -1 <= j < i && (i > 0 ==> j >= 0) && forall k | j < k < i :: !Border(p, i, k)
    {
      j := j - 1;
    }
    assert p[..0] == p[i..i];
    assert LongestBorder(p, i, j);
  }

  lemma LongestUnique(p: string, i: int, j: int, k: int)
    requires LongestBorder(p, i, j) && LongestBorder(p, i, k)
    ensures j == k && -1 <= j < i + 1
  {
  }

  /** The table entry for i. */
  ghost function Strong(p: string, i: nat): (t: int)
    requires i <= |p|
    ensures Entry(p, i, t) && -1 <= t < i
  {
    EntryExists(p, i);
    var t :| Entry(p, i, t);
    EntryUnique(p, i, t, t);
    t
  }

  ghost function Longest(p: string, i: nat): (j: int)
    requires i <= |p|
    ensures LongestBorder(p, i, j) && -1 <= j <= i
  {
    LongestExists(p, i);
    var j :| LongestBorder(p, i, j);
    LongestUnique(p, i, j, j);
    j
  }

  /** The comparisons of the inner loop at i, started from j. */
  ghost function LoopCmps(p: string, i: nat, j: int): nat
    requires i < |p| && -1 <= j <= i
    decreases j + 1
  {
    if j < 0 then 0
    else if p[i] == p[j] then 1
    else 1 + LoopCmps(p, i, Strong(p, j))
  }

  /** The comparisons of the inner loops at all positions below i. */
  ghost function TableCmps(p: string, i: nat): nat
    requires i <= |p|
  {
    if i == 0 then 0 else TableCmps(p, i - 1) + LoopCmps(p, i - 1, Longest(p, i - 1))
  }

  lemma LoopStep(p: string, i: nat, j: int, t: int)
    requires i < |p| && 0 <= j <= i && p[i] != p[j] && Entry(p, j, t)
    ensures -1 <= t < j && LoopCmps(p, i, j) == 1 + LoopCmps(p, i, t)
  {
    EntryUnique(p, j, t, Strong(p, j));
  }

  lemma LoopStops(p: string, i: nat, j: int)
    requires i < |p| && -1 <= j <= i && (j == -1 || p[i] == p[j])
    ensures LoopCmps(p, i, j) == if j == -1 then 0 else 1
  {
  }

  lemma NoTableCmps(p: string)
    ensures TableCmps(p, 0) == 0
  {
  }

  lemma NextTableCmps(p: string, i: nat, j: int)
    requires i < |p| && LongestBorder(p, i, j)
    ensures -1 <= j <= i && TableCmps(p, i + 1) == TableCmps(p, i) + LoopCmps(p, i, j)
  {
    LongestUnique(p, i, j, Longest(p, i));
  }

  /** A needle of n + 2 characters that is almost as expensive as a needle can be. */
  function Costly(n: nat): (p: string)
    ensures |p| == n + 2 && forall i | 0 <= i < |p| :: p[i] == if i == 1 then 'b' else 'a'
  {
    ['a', 'b'] + seq(n, _ => 'a')
  }

  lemma BorderChar(p: string, i: int, k: int, x: int)
    requires Border(p, i, k) && 0 <= x < k
    ensures p[x] == p[i - k + x]
  {
    assert p[x] == p[..k][x] == p[i - k..i][x];
  }

  lemma CostlyBorders(n: nat, i: nat)
    requires i <= n + 2
    ensures Longest(Costly(n), i) == if i == 0 then -1 else if i < 3 then 0 else 1
  {
    var p, j := Costly(n), if i == 0 then -1 else if i < 3 then 0 else 1;
    if j == 1 { assert p[..1] == p[i - 1..i]; }
    if i > 0 && j == 0 { assert p[..0] == p[i..i]; }
    forall k | Border(p, i, k) ensures k <= j {
      if k > j { BorderChar(p, i, k, j); }
    }
    assert LongestBorder(p, i, j);
    LongestUnique(p, i, j, Longest(p, i));
  }

  lemma CostlyEntries(n: nat)
    ensures Strong(Costly(n), 0) == -1 && Strong(Costly(n), 1) == 0
  {
    var p := Costly(n);
    assert p[..0] == p[1..1];
    assert Candidate(p, 1, 0);
  }

  /** The inner loops make 2m - 4 comparisons on a costly needle of m > 2 characters. */
  lemma {:induction false} CostlyTable(n: nat, i: nat)
    requires i <= n + 2
    ensures TableCmps(Costly(n), i) == if i < 2 then 0 else 2 * i - if i == 2 then 3 else 4
  {
    hide Longest, Strong, Costly, LongestBorder, Entry;
    if i > 0 {
      CostlyTable(n, i - 1);
      CostlyBorders(n, i - 1);
      CostlyEntries(n);
    }
  }

  // ---------------------------------------------------------------- searching

  ghost predicate MatchAt(h: string, p: string, s: int) {
    0 <= s && s + |p| <= |h| && h[s..s + |p|] == p
  }

  /** Inside the inner loop: the last i characters read match, and no match starts before. */
  ghost predicate Matching(h: string, p: string, i: int, j: int) {
    && -1 <= i < |p| && 0 <= j <= |h| && i <= j
    && (i >= 0 ==> p[..i] == h[j - i..j])
    && forall s | 0 <= s < j - i :: !MatchAt(h, p, s)
  }

  lemma StartMatching(h: string, p: string)
    requires |p| > 0
    ensures Matching(h, p, 0, 0)
  {
  }

  /** Following the failure link on a mismatch skips no match. */
  lemma MatchFailureStep(h: string, p: string, i: int, j: int, t: int)
    requires Matching(h, p, i, j) && i >= 0 && j < |h| && p[i] != h[j] && Entry(p, i, t)
    ensures Matching(h, p, t, j) && -1 <= t < i
  {
    EntryUnique(p, i, t, t);
    if t >= 0 {
      assert p[..t] == p[i - t..i] == p[..i][i - t..] == h[j - i..j][i - t..] == h[j - t..j];
    }
    forall s | 0 <= s < j - t ensures !MatchAt(h, p, s) {
      if j - i <= s && s + |p| <= |h| {
        OverlappingMatch(h, p, i, j, s);
        assert Candidate(p, i, j - s) ==> j - s <= t;
      }
    }
  }

  lemma SliceOfSlice(h: string, a: nat, b: nat, k: nat)
    requires a + k <= b <= |h|
    ensures h[a..b][..k] == h[a..a + k] && h[a..b][k..] == h[a + k..b]
  {
  }

  /** A match that starts inside the characters read makes the rest of them a border of p. */
  lemma OverlappingMatch(h: string, p: string, i: int, j: int, s: int)
    requires Matching(h, p, i, j) && i >= 0 && j < |h|
    requires j - i <= s <= j && s + |p| <= |h|
    ensures MatchAt(h, p, s) ==> p[j - s] == h[j]
    ensures MatchAt(h, p, s) && j - s < i ==> Border(p, i, j - s)
  {
    if MatchAt(h, p, s) {
      var k := j - s;
      assert p[k] == h[s..s + |p|][k];
      if k < i {
        SliceOfSlice(h, s, s + |p|, k);
        SliceOfSlice(p, 0, i, i - k);
        SliceOfSlice(h, j - i, j, i - k);
      }
    }
  }

  /** One character further. */
  lemma MatchAdvance(h: string, p: string, i: int, j: int)
    requires Matching(h, p, i, j) && j < |h| && (i == -1 || p[i] == h[j])
    ensures i <= j && (i + 1 < |p| ==> Matching(h, p, i + 1, j + 1))
    ensures i + 1 == |p| ==> MatchAt(h, p, j - i) && forall s | s < j - i :: !MatchAt(h, p, s)
  {
    if i >= 0 {
      assert p[..i + 1] == p[..i] + [p[i]];
      assert h[j - i..j + 1] == h[j - i..j] + [h[j]];
      if i + 1 == |p| { assert p[..i + 1] == p; }
    }
  }

  /** The early exit: too few characters are left for a match. */
  lemma TooShort(h: string, p: string, i: int, j: int)
    requires Matching(h, p, i, j) && (j == |h| || |h| - j + i < |p|) && i >= 0
    ensures forall s :: !MatchAt(h, p, s)
  {
  }

  // ---------------------------------------------------------------- mirroring

  lemma MatchChars(h: string, p: string, s: int)
    requires 0 <= s && s + |p| <= |h|
    ensures MatchAt(h, p, s) <==> forall x | 0 <= x < |p| :: h[s + x] == p[x]
  {
    var w := h[s..s + |p|];
    assert forall x | 0 <= x < |p| :: w[x] == h[s + x];
  }

  lemma MatchMirrored(h: string, p: string, s: int, s': int)
    requires s' == |h| - |p| - s && 0 <= s && s + |p| <= |h| && MatchAt(h, p, s)
    ensures MatchAt(Reverse(h), Reverse(p), s')
  {
    hide MatchAt, Reverse;
    var rh, rp := Reverse(h), Reverse(p);
    MatchChars(h, p, s);
    MatchChars(rh, rp, s');
    forall x | 0 <= x < |p| ensures rh[s' + x] == rp[x] {
      var y := |p| - 1 - x;
      assert rh[s' + x] == h[s + y] by { assert s + y == |h| - 1 - (s' + x); }
      assert rp[x] == p[y];
    }
  }

  lemma ReverseTwice(s: string)
    ensures Reverse(Reverse(s)) == s
  {
  }

  /** A match read backwards is a match of the mirrored strings at the mirrored place. */
  lemma MirrorMatch(h: string, p: string, s: int)
    ensures MatchAt(h, p, s) <==> MatchAt(Reverse(h), Reverse(p), |h| - |p| - s)
  {
    hide Reverse;
    var rh, rp, s' := Reverse(h), Reverse(p), |h| - |p| - s;
    ReverseTwice(h);
    ReverseTwice(p);
    if 0 <= s && s + |p| <= |h| {
      if MatchAt(h, p, s) { MatchMirrored(h, p, s, s'); }
      if MatchAt(rh, rp, s') { MatchMirrored(rh, rp, s', s); }
    }
  }
}
