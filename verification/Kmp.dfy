/** Substring search of utstring.h in both directions. */
module Kmp {
  import opened Items
  import opened KmpTheory

  // ---------------------------------------------------------------- left to right

  /** The inner loop of _utstring_BuildTable at i: follow failure links until needle[i] fits. */
  method FollowLinks(needle: string, table: array<int>, i: nat, j0: int)
    returns (j: int, ghost links: nat, ghost cmps: nat)
    requires i < |needle| < table.Length && -1 <= j0 <= i && Searching(needle, i, j0)
    requires forall x | 0 <= x <= i :: Entry(needle, x, table[x])
    ensures -1 <= j <= j0 && LongestBorder(needle, i + 1, j + 1)
    ensures links <= j0 - j && cmps == LoopCmps(needle, i, j0) && cmps <= links + 1
  {
    hide Searching, LongestBorder, Entry, LoopCmps;
    j, links, cmps := j0, 0, 0;
    while j > -1 && needle[i] != needle[j]
      invariant -1 <= j <= j0 && Searching(needle, i, j)
      invariant links == cmps <= j0 - j && cmps + LoopCmps(needle, i, j) == LoopCmps(needle, i, j0)
      decreases j
    {
      FailureStep(needle, i, j, table[j]);
      LoopStep(needle, i, j, table[j]);
      j := table[j];
      links, cmps := links + 1, cmps + 1;
    }
    SearchDone(needle, i, j);
    LoopStops(needle, i, j);
    cmps := cmps + if j > -1 then 1 else 0;
  }

  /** _utstring_BuildTable.  links counts the failure links followed, loopCmps the comparisons of the
      inner loop and entryCmps those that decide which entry to store. */
  method BuildTable(needle: string, table: array<int>)
    returns (ghost links: nat, ghost loopCmps: nat, ghost entryCmps: nat)
    requires table.Length == |needle| + 1
    modifies table
    ensures KmpTable(needle, table[..])
    ensures links <= |needle|
    ensures loopCmps == TableCmps(needle, |needle|) <= 2 * |needle|
    ensures entryCmps == if needle == "" then 0 else |needle| - 1
  {
    hide LongestBorder, Entry, Searching, TableCmps;
    var i, j := 0, -1;
    links, loopCmps, entryCmps := 0, 0, 0;
    table[i] := j;
    StartTable(needle);
    NoTableCmps(needle);
    while i < |needle|
      invariant 0 <= i <= |needle| && -1 <= j < i + 1 && LongestBorder(needle, i, j)
      invariant forall x | 0 <= x <= i :: Entry(needle, x, table[x])
      invariant links <= i - (j + 1) && loopCmps <= 2 * i - (j + 1) && loopCmps == TableCmps(needle, i)
      invariant entryCmps == if i < |needle| || i == 0 then i else i - 1
    {
      StartSearching(needle, i, j);
      NextTableCmps(needle, i, j);
      ghost var l, c;
      j, l, c := FollowLinks(needle, table, i, j);
      links, loopCmps := links + l, loopCmps + c;
      i := i + 1;
      j := j + 1;
      var entry;
      if i < |needle| {
        entryCmps := entryCmps + 1;
        if needle[i] == needle[j] {
          entry := table[j];
        } else {
          entry := j;
        }
      } else {
        entry := j;
      }
      StoredEntry(needle, i, j, entry);
      table[i] := entry;
    }
  }

  /** On the needle "abaa...a" of m > 2 characters building the table makes 3m - 5 comparisons in all,
      which is 13 for "abaaaa": more than 2m from six characters on. */
  method BuildCostly(n: nat) returns (table: array<int>, ghost cmps: nat)
    requires n > 0
    ensures KmpTable(Costly(n), table[..])
    ensures cmps == 3 * |Costly(n)| - 5
    ensures n >= 4 ==> cmps > 2 * |Costly(n)|
  {
    var needle := Costly(n);
    table := new int[n + 3];
    ghost var links, loopCmps, entryCmps := BuildTable(needle, table);
    CostlyTable(n, n + 2);
    cmps := loopCmps + entryCmps;
  }

  /** What a search from the left promises: the least match, or -1 when there is none. */
  ghost predicate LeastMatch(hay: string, needle: string, r: int) {
    if r == -1 then forall s :: !MatchAt(hay, needle, s)
    else MatchAt(hay, needle, r) && forall s | s < r :: !MatchAt(hay, needle, s)
  }

  /** _utstring_find. */
  method FindWithTable(hay: string, needle: string, table: array<int>) returns (found: int, ghost cmps: nat)
    requires |needle| > 0 && KmpTable(needle, table[..])
    ensures found >= -1 && LeastMatch(hay, needle, found)
    ensures cmps <= 2 * |hay|
  {
    hide Matching, Entry, MatchAt;
    found, cmps := -1, 0;
    var i, j := 0, 0;
    StartMatching(hay, needle);
    while j < |hay| && (|hay| - j) + i >= |needle|
      invariant 0 <= i < |needle| && 0 <= j <= |hay| && Matching(hay, needle, i, j) && cmps <= 2 * j - i
    {
      while i > -1 && needle[i] != hay[j]
        invariant -1 <= i < |needle| && Matching(hay, needle, i, j) && cmps <= 2 * j - i
        decreases i
      {
        assert Entry(needle, i, table[..][i]);
        MatchFailureStep(hay, needle, i, j, table[i]);
        i := table[i];
        cmps := cmps + 1;
      }
      MatchAdvance(hay, needle, i, j);
      cmps := cmps + if i > -1 then 1 else 0;
      i := i + 1;
      j := j + 1;
      if i >= |needle| {
        found := j - i;
        return;
      }
    }
    TooShort(hay, needle, i, j);
  }

  // ---------------------------------------------------------------- right to left

  /** The right-to-left table is the left-to-right table of the reversed needle, mirrored. */
  ghost predicate KmpTableR(needle: string, table: seq<int>) {
    && |table| == |needle| + 1
    && forall k | 0 <= k <= |needle| :: Entry(Reverse(needle), |needle| - k, |needle| - 1 - table[k])
  }

  lemma TableEntry(p: string, table: seq<int>, i: nat)
    requires KmpTable(p, table) && i <= |p|
    ensures i < |table| && Entry(p, i, table[i])
  {
  }

  lemma TableREntry(needle: string, table: seq<int>, k: nat)
    requires KmpTableR(needle, table) && k <= |needle|
    ensures k < |table| && Entry(Reverse(needle), |needle| - k, |needle| - 1 - table[k])
  {
  }

  lemma TablesMirror(needle: string, tableR: seq<int>, table': seq<int>, k: nat)
    requires KmpTableR(needle, tableR) && KmpTable(Reverse(needle), table') && k <= |needle|
    ensures tableR[k] == |needle| - 1 - table'[|needle| - k]
  {
    hide Entry, Reverse, KmpTable, KmpTableR;
    TableEntry(Reverse(needle), table', |needle| - k);
    TableREntry(needle, tableR, k);
    EntryUnique(Reverse(needle), |needle| - k, table'[|needle| - k], |needle| - 1 - tableR[k]);
  }

  /** Every entry at k and above mirrors the entry of the reversed needle p. */
  ghost predicate MirroredFrom(p: string, table: seq<int>, k: nat) {
    |table| == |p| + 1 && forall x | k <= x <= |p| :: Entry(p, |p| - x, |p| - 1 - table[x])
  }

  lemma MirroredEntry(p: string, table: seq<int>, k: nat, x: nat, x': int)
    requires MirroredFrom(p, table, k) && k <= x <= |p| && x' == |p| - x
    ensures Entry(p, x', |p| - 1 - table[x])
  {
  }

  lemma MirrorStore(p: string, table: seq<int>, k: nat, entry: int, i': int)
    requires k < |p| && MirroredFrom(p, table, k + 1) && i' == |p| - k && Entry(p, i', |p| - 1 - entry)
    ensures MirroredFrom(p, table[k := entry], k)
  {
  }

  /** The inner loop of _utstring_BuildTableR at i, for the reversed needle p. */
  method FollowLinksR(needle: string, table: array<int>, i: nat, j0: nat,
                      ghost p: string, ghost i': nat, ghost j0': int)
    returns (j: nat, ghost links: nat, ghost cmps: nat)
    requires p == Reverse(needle) && i' == |needle| - 1 - i && j0' == |needle| - 1 - j0
    requires i < j0 <= |needle| < table.Length && MirroredFrom(p, table[..], i + 1) && Searching(p, i', j0')
    ensures j0 <= j <= |needle| && LongestBorder(p, i' + 1, |needle| - j)
    ensures links <= j - j0 && cmps == LoopCmps(p, i', j0') && cmps <= links + 1
  {
    hide Searching, LongestBorder, Entry, LoopCmps, MirroredFrom;
    ghost var j' := j0';
    j, links, cmps := j0, 0, 0;
    while j < |needle| && needle[i] != needle[j]
      invariant j' == |needle| - 1 - j && j0 <= j <= |needle| && Searching(p, i', j')
      invariant links == cmps <= j - j0 && cmps + LoopCmps(p, i', j') == LoopCmps(p, i', j0')
      decreases |needle| - j
    {
      MirroredEntry(p, table[..], i + 1, j + 1, j');
      FailureStep(p, i', j', |needle| - 1 - table[j + 1]);
      LoopStep(p, i', j', |needle| - 1 - table[j + 1]);
      j := table[j + 1];
      j' := |needle| - 1 - j;
      links, cmps := links + 1, cmps + 1;
    }
    SearchDone(p, i', j');
    LoopStops(p, i', j');
    cmps := cmps + if j < |needle| then 1 else 0;
  }

  /** Which entry _utstring_BuildTableR stores for i. */
  method EntryR(needle: string, table: array<int>, i: int, j: nat, ghost p: string, ghost i': nat, ghost j': int)
    returns (entry: int, ghost cmps: nat)
    requires p == Reverse(needle) && i' == |needle| - 1 - i && j' == |needle| - 1 - j && table.Length == |needle| + 1
    requires -1 <= i < j < |needle| && i' > 0 && MirroredFrom(p, table[..], i + 2) && LongestBorder(p, i', j')
    ensures Entry(p, i', |needle| - 1 - entry)
    ensures cmps == if i >= 0 then 1 else 0
  {
    hide LongestBorder, Entry, MirroredFrom;
    cmps := 0;
    if i >= 0 {
      cmps := 1;
      if needle[i] == needle[j] {
        entry := table[j + 1];
        MirroredEntry(p, table[..], i + 2, j + 1, j');
      } else {
        entry := j;
      }
    } else {
      entry := j;
    }
    StoredEntry(p, i', j', |needle| - 1 - entry);
  }

  /** _utstring_BuildTableR. */
  method BuildTableR(needle: string, table: array<int>)
    returns (ghost links: nat, ghost loopCmps: nat, ghost entryCmps: nat)
    requires table.Length == |needle| + 1
    modifies table
    ensures KmpTableR(needle, table[..])
    ensures links <= |needle|
    ensures loopCmps == TableCmps(Reverse(needle), |needle|) <= 2 * |needle|
    ensures entryCmps == if needle == "" then 0 else |needle| - 1
  {
    hide LongestBorder, Entry, Searching, TableCmps, MirroredFrom, KmpTableR, Reverse;
    ghost var m, p := |needle|, Reverse(needle);
    var i := |needle| - 1;
    var j := i + 1;
    links, loopCmps, entryCmps := 0, 0, 0;
    table[i + 1] := j;
    StartMirror(p, table[..]);
    NoTableCmps(p);
    ghost var i', j' := 0, -1;
    while i >= 0
      invariant i' == m - 1 - i && j' == m - 1 - j && -1 <= i < m && i < j <= m
      invariant LongestBorder(p, i', j') && MirroredFrom(p, table[..], i + 1)
      invariant links <= i' - (j' + 1) && loopCmps <= 2 * i' - (j' + 1) && loopCmps == TableCmps(p, i')
      invariant entryCmps == if i >= 0 || i' == 0 then i' else i' - 1
    {
      StartSearching(p, i', j');
      NextTableCmps(p, i', j');
      ghost var l, c;
      j, l, c := FollowLinksR(needle, table, i, j, p, i', j');
      links, loopCmps := links + l, loopCmps + c;
      i := i - 1;
      j := j - 1;
      i', j' := i' + 1, m - 1 - j;
      var entry;
      entry, c := EntryR(needle, table, i, j, p, i', j');
      entryCmps := entryCmps + c;
      MirrorStore(p, table[..], i + 1, entry, i');
      table[i + 1] := entry;
    }
    MirrorComplete(needle, table[..]);
  }

  lemma StartMirror(p: string, table: seq<int>)
    requires |table| == |p| + 1 && table[|p|] == |p|
    ensures LongestBorder(p, 0, -1) && MirroredFrom(p, table, |p|)
  {
    StartTable(p);
  }

  lemma MirrorComplete(needle: string, table: seq<int>)
    requires MirroredFrom(Reverse(needle), table, 0)
    ensures KmpTableR(needle, table)
  {
  }

  /** What a search from the right promises: the greatest match, or -1 when there is none. */
  ghost predicate GreatestMatch(hay: string, needle: string, r: int) {
    if r == -1 then forall s :: !MatchAt(hay, needle, s)
    else MatchAt(hay, needle, r) && forall s | s > r :: !MatchAt(hay, needle, s)
  }

  lemma MirrorGreatest(hay: string, needle: string, r: int, r': int)
    requires r >= -1 && r' == |hay| - |needle| - r
    requires if r == -1 then forall s :: !MatchAt(Reverse(hay), Reverse(needle), s)
             else LeastMatch(Reverse(hay), Reverse(needle), r') && r' >= 0
    ensures GreatestMatch(hay, needle, r)
  {
    hide MatchAt, Reverse;
    MirrorMatch(hay, needle, r);
    forall s | r == -1 || s > r ensures !MatchAt(hay, needle, s) {
      MirrorMatch(hay, needle, s);
    }
  }

  /** The inner loop of _utstring_findR at hay[j]: follow failure links until hay[j] fits. */
  method RealignR(hay: string, needle: string, table: array<int>, i0: nat, j: nat,
                  ghost p: string, ghost h: string, ghost j': nat)
    returns (i: nat, ghost cmps: nat)
    requires p == Reverse(needle) && h == Reverse(hay) && j' == |hay| - 1 - j && KmpTableR(needle, table[..])
    requires i0 < |needle| && j < |hay| && Matching(h, p, |needle| - 1 - i0, j')
    ensures i0 <= i <= |needle| && Matching(h, p, |needle| - 1 - i, j') && (i < |needle| ==> needle[i] == hay[j])
    ensures cmps <= i - i0 + if i < |needle| then 1 else 0
  {
    hide Matching, Entry, MatchAt;
    i, cmps := i0, 0;
    while i < |needle| && needle[i] != hay[j]
      invariant i0 <= i <= |needle| && Matching(h, p, |needle| - 1 - i, j') && cmps <= i - i0
      decreases |needle| - i
    {
      assert Entry(p, |needle| - (i + 1), |needle| - 1 - table[..][i + 1]);
      MatchFailureStep(h, p, |needle| - 1 - i, j', |needle| - 1 - table[i + 1]);
      i := table[i + 1];
      cmps := cmps + 1;
    }
    cmps := cmps + if i < |needle| then 1 else 0;
  }

  /** _utstring_findR. */
  method FindWithTableR(hay: string, needle: string, table: array<int>) returns (found: int, ghost cmps: nat)
    requires |needle| > 0 && KmpTableR(needle, table[..])
    ensures found >= -1 && GreatestMatch(hay, needle, found)
    ensures cmps <= 2 * |hay|
  {
    hide Matching, MatchAt, KmpTableR, Reverse, GreatestMatch;
    ghost var m, n, p, h := |needle|, |hay|, Reverse(needle), Reverse(hay);
    found, cmps := -1, 0;
    var j := |hay| - 1;
    var i := |needle| - 1;
    StartMatching(h, p);
    while j >= 0 && j >= i
      invariant -1 <= j < n && 0 <= i < m && Matching(h, p, m - 1 - i, n - 1 - j)
      invariant cmps <= 2 * (n - 1 - j) - (m - 1 - i)
    {
      ghost var c;
      i, c := RealignR(hay, needle, table, i, j, p, h, n - 1 - j);
      cmps := cmps + c;
      MatchAdvance(h, p, m - 1 - i, n - 1 - j);
      i := i - 1;
      j := j - 1;
      if i < 0 {
        found := j + 1;
        MirrorGreatest(hay, needle, found, n - 1 - j - m);
        return;
      }
    }
    TooShort(h, p, m - 1 - i, n - 1 - j);
    MirrorGreatest(hay, needle, -1, n - m + 1);
  }

  // ---------------------------------------------------------------- the string class

  /** found is the least match at or after start; -1 when there is none or the needle is empty. */
  ghost predicate LeastFrom(text: string, start: int, needle: string, found: int) {
    if needle == "" || forall s | start <= s :: !MatchAt(text, needle, s) then found == -1
    else start <= found && MatchAt(text, needle, found) && forall s | start <= s < found :: !MatchAt(text, needle, s)
  }

  /** found is the greatest match lying wholly at or before start; -1 when there is none or the needle
      is empty. */
  ghost predicate GreatestUpTo(text: string, start: int, needle: string, found: int) {
    if needle == "" || forall s | s + |needle| <= start + 1 :: !MatchAt(text, needle, s) then found == -1
    else
      && found + |needle| <= start + 1 && MatchAt(text, needle, found)
      && forall s | found < s && s + |needle| <= start + 1 :: !MatchAt(text, needle, s)
  }

  /** UT_string: a buffer of d.Length characters of which the first i are in use. */
  class UtString {
    var d: array<char>
    var i: nat

    ghost predicate Valid()
      reads this
    {
      i <= d.Length
    }

    constructor (text: string)
      ensures Valid() && fresh(d) && d[..i] == text
    {
      d := new char[|text|](k requires 0 <= k < |text| => text[k]);
      i := |text|;
    }

    /** utstring_find: the least match at or after the start index. */
    method Find(position: int, needle: string) returns (found: int)
      requires Valid()
      requires position < 0 && -position >= |needle| > 0 ==> -position <= i
      ensures position >= 0 ==> LeastFrom(d[..i], position, needle, found)
      ensures position < 0 ==> LeastFrom(d[..i], i + position, needle, found)
    {
      hide MatchAt, LeastMatch, LeastFrom, KmpTable;
      found := -1;
      var start;
      if position < 0 {
        start := i + position;
      } else {
        start := position;
      }
      var length := i - start;
      if length >= |needle| && |needle| > 0 {
        var table := new int[|needle| + 1];
        ghost var links, loopCmps, entryCmps := BuildTable(needle, table);
        ghost var cmps;
        var hay := d[start..i];
        found, cmps := FindWithTable(hay, needle, table);
        assert hay == d[..i][start..];
        ShiftLeast(d[..i], start, needle, found);
        if found >= 0 {
          found := found + start;
        }
      } else {
        NothingToFind(d[..i], start, needle);
      }
    }

    /** utstring_findR: the greatest match that lies wholly at or before the start index. */
    method FindR(position: int, needle: string) returns (found: int)
      requires Valid()
      requires position >= 0 && position + 1 >= |needle| > 0 ==> position < d.Length
      ensures position >= 0 ==> GreatestUpTo(d[..], position, needle, found)
      ensures position < 0 ==> GreatestUpTo(d[..], i + position, needle, found)
    {
      hide MatchAt, GreatestMatch, GreatestUpTo, KmpTableR;
      found := -1;
      var start;
      if position < 0 {
        start := i + position;
      } else {
        start := position;
      }
      var length := start + 1;
      if length >= |needle| && |needle| > 0 {
        var table := new int[|needle| + 1];
        ghost var links, loopCmps, entryCmps := BuildTableR(needle, table);
        ghost var cmps;
        var hay := d[..length];
        found, cmps := FindWithTableR(hay, needle, table);
        assert hay == d[..][..length];
        PrefixGreatest(d[..], length, needle, found);
      } else {
        NothingToFindR(d[..], start, needle);
      }
    }
  }

  /** The text t holds the needle at s, character for character. */
  ghost predicate Occurs(text: string, needle: string, s: int) {
    0 <= s <= |text| - |needle| && forall x | 0 <= x < |needle| :: text[s + x] == needle[x]
  }

  /** A negative position -k starts k characters before the end: the answers are those for the start
      index i - k, the least occurrence among the last k characters of the text and the greatest one
      that ends before the last k - 1 of them. */
  method FromTheEnd(str: UtString, k: int, needle: string)
    returns (found: int, same: int, foundR: int, sameR: int)
    requires str.Valid() && 1 <= k <= str.i && needle != ""
    ensures found == same && foundR == sameR
    ensures if found == -1 then forall s | str.i - k <= s :: !Occurs(str.d[..str.i], needle, s)
            else str.i - k <= found && Occurs(str.d[..str.i], needle, found)
                 && forall s | str.i - k <= s < found :: !Occurs(str.d[..str.i], needle, s)
    ensures if foundR == -1 then forall s | s + |needle| <= str.i - k + 1 :: !Occurs(str.d[..], needle, s)
            else foundR + |needle| <= str.i - k + 1 && Occurs(str.d[..], needle, foundR)
                 && forall s | foundR < s && s + |needle| <= str.i - k + 1 :: !Occurs(str.d[..], needle, s)
  {
    found := str.Find(-k, needle);
    same := str.Find(str.i - k, needle);
    foundR := str.FindR(-k, needle);
    sameR := str.FindR(str.i - k, needle);
    forall s: int ensures Occurs(str.d[..str.i], needle, s) <==> MatchAt(str.d[..str.i], needle, s) {
      if 0 <= s <= str.i - |needle| { MatchChars(str.d[..str.i], needle, s); }
    }
    forall s: int ensures Occurs(str.d[..], needle, s) <==> MatchAt(str.d[..], needle, s) {
      if 0 <= s <= str.d.Length - |needle| { MatchChars(str.d[..], needle, s); }
    }
  }

  lemma ShiftMatch(text: string, start: nat, needle: string, s: int)
    requires start <= s && start <= |text|
    ensures MatchAt(text, needle, s) <==> MatchAt(text[start..], needle, s - start)
  {
    if s + |needle| <= |text| {
      assert text[start..][s - start..s - start + |needle|] == text[s..s + |needle|];
    }
  }

  /** Searching the rest of the text finds the least match from start on. */
  lemma ShiftLeast(text: string, start: nat, needle: string, r: int)
    requires start <= |text| && r >= -1 && LeastMatch(text[start..], needle, r) && needle != ""
    ensures LeastFrom(text, start, needle, if r == -1 then -1 else r + start)
  {
    hide MatchAt;
    if r >= 0 { ShiftMatch(text, start, needle, r + start); }
    forall s | start <= s && (r == -1 || s < r + start) ensures !MatchAt(text, needle, s) {
      ShiftMatch(text, start, needle, s);
    }
  }

  lemma NothingToFind(text: string, start: int, needle: string)
    requires needle == "" || |text| - start < |needle|
    ensures LeastFrom(text, start, needle, -1)
  {
  }

  lemma PrefixMatch(text: string, length: nat, needle: string, s: int)
    requires length <= |text|
    ensures MatchAt(text[..length], needle, s) <==> MatchAt(text, needle, s) && s + |needle| <= length
  {
    if 0 <= s && s + |needle| <= length {
      assert text[..length][s..s + |needle|] == text[s..s + |needle|];
    }
  }

  /** Searching the beginning of the text finds the greatest match that ends inside it. */
  lemma PrefixGreatest(text: string, length: nat, needle: string, r: int)
    requires length <= |text| && GreatestMatch(text[..length], needle, r) && needle != ""
    ensures GreatestUpTo(text, length - 1, needle, r)
  {
    hide MatchAt;
    PrefixMatch(text, length, needle, r);
    forall s | s + |needle| <= length && (r == -1 || s > r) ensures !MatchAt(text, needle, s) {
      PrefixMatch(text, length, needle, s);
    }
  }

  lemma NothingToFindR(text: string, start: int, needle: string)
    requires needle == "" || start + 1 < |needle|
    ensures GreatestUpTo(text, start, needle, -1)
  {
  }
}
