/** The ring buffer of utringbuffer.h.  A pointer to an element is its slot number; NIL is NULL. */
module RingBuffer {
  import opened Bits
  import opened Items

  const NIL := -1

  /** Adding two indices below n and reducing modulo n. */
  lemma Wraps(a: nat, b: nat, n: nat)
    requires a < n && b <= n
    ensures (a + b) % n == if a + b < n then a + b else a + b - n
  {
    if a + b < n { DivModUnique(a + b, n, 0, a + b); } else { DivModUnique(a + b, n, 1, a + b - n); }
  }

  /** How long ago, counted from the oldest, slot s of a full buffer was written. */
  function Age(s: nat, i: nat, n: nat): int {
    if s >= i then s - i else s - i + n
  }

  /** Before the buffer is full the slots hold the pushes from the left; afterwards the oldest
      value stands at i and the newest just before it. */
  ghost predicate Represents<T>(slots: seq<T>, i: nat, f: bool, pushed: seq<T>) {
    && i < |slots|
    && if f then
         && |pushed| >= |slots|
         && forall s | 0 <= s < |slots| :: slots[s] == pushed[|pushed| - |slots| + Age(s, i, |slots|)]
       else
         |pushed| == i && forall s | 0 <= s < i :: slots[s] == pushed[s]
  }

  lemma PushKeeps<T>(slots: seq<T>, i: nat, f: bool, pushed: seq<T>, x: T)
    requires Represents(slots, i, f, pushed)
    ensures if i + 1 == |slots| then Represents(slots[i := x], 0, true, pushed + [x])
            else Represents(slots[i := x], i + 1, f, pushed + [x])
  {
  }

  /** The last n values of s, or all of them. */
  function Window<T>(s: seq<T>, n: nat): seq<T> {
    if |s| <= n then s else s[|s| - n..]
  }

  /** One more push shifts a full window by one. */
  lemma WindowMoves<T>(stored: seq<T>, destroyed: seq<T>, pushed: seq<T>, x: T, n: nat)
    requires n > 0 && stored == destroyed + Window(pushed, n)
    ensures stored + [x] == destroyed + (if |pushed| >= n then [Window(pushed, n)[0]] else []) + Window(pushed + [x], n)
  {
    if |pushed| >= n { assert Window(pushed + [x], n) == Window(pushed, n)[1..] + [x]; }
  }

  /** The buffer with its element destructor, if it has one.  pushed holds the pushes since the last
      clear; stored and destroyed hold every push and every destructor call so far. */
  class Ring<T(0)> {
    var i: nat
    var f: bool
    const d: array<T>
    const dtor: bool
    ghost var pushed: seq<T>
    ghost var stored: seq<T>
    ghost var destroyed: seq<T>

    /** The last min(pushes, capacity) values, oldest first. */
    ghost function Recent(): seq<T>
      reads this`pushed
    {
      Window(pushed, d.Length)
    }

    ghost predicate Valid()
      reads this`i, this`f, this`pushed, d
    {
      Represents(d[..], i, f, pushed)
    }

    /** With a destructor every value ever stored was destroyed once, oldest first, or is still held. */
    ghost predicate Conserved()
      reads this`stored, this`destroyed, this`pushed
    {
      if dtor then stored == destroyed + Recent() else destroyed == []
    }

    /** utringbuffer_init with a positive capacity. */
    constructor (n: nat, dtor: bool)
      requires n > 0
      ensures Valid() && Conserved() && pushed == stored == destroyed == [] && d.Length == n && this.dtor == dtor
    {
      i, f, pushed, stored, destroyed := 0, false, [], [], [];
      this.dtor := dtor;
      d := new T[n];
    }

    /** One call of the element destructor. */
    method Destroy(x: T)
      modifies this`destroyed
      ensures destroyed == old(destroyed) + [x]
    {
      destroyed := destroyed + [x];
    }

    /** utringbuffer_push_back: a full buffer destroys its oldest value to make room. */
    method PushBack(x: T)
      requires Valid() && Conserved()
      modifies this, d
      ensures Valid() && Conserved() && pushed == old(pushed) + [x] && stored == old(stored) + [x]
      ensures destroyed == old(destroyed) + if dtor && old(f) then [old(Recent()[0])] else []
    {
      hide Represents, Window;
      PushInRange();
      Oldest();
      if dtor {
        WindowMoves(stored, destroyed, pushed, x, d.Length);
        if f { Destroy(d[i]); }
      }
      PushKeeps(d[..], i, f, pushed, x);
      d[i] := x;
      i := i + 1;
      pushed, stored := pushed + [x], stored + [x];
      if i == d.Length {
        i := 0;
        f := true;
      }
    }

    /** The slot about to be written holds the oldest value exactly when the buffer is full. */
    lemma Oldest()
      requires Valid()
      ensures f <==> |pushed| >= d.Length
      ensures f ==> Recent() != [] && Recent()[0] == d[i]
    {
      if f { assert d[i] == d[..][i]; }
    }

    lemma PushInRange()
      requires Valid()
      ensures i < d.Length
    {
    }

    lemma RecentLength()
      requires Valid()
      ensures |Recent()| == Len() <= d.Length
    {
    }

    /** utringbuffer_clear: destroy what the buffer holds, oldest first, and forget it. */
    method Clear()
      requires Valid() && Conserved()
      modifies this
      ensures Valid() && Conserved() && pushed == [] && stored == old(stored)
      ensures destroyed == old(destroyed) + if dtor then old(Recent()) else []
    {
      hide Represents, Recent, EltPtr;
      PushInRange();
      RecentLength();
      if dtor {
        for j := 0 to Len()
          invariant d[..] == old(d[..]) && Valid() && Recent() == old(Recent()) && |Recent()| == Len()
          invariant destroyed == old(destroyed) + Recent()[..j] && stored == old(stored)
        {
          EltIsRecent(j);
          Destroy(d[EltPtr(j)]);
        }
        assert Recent()[..Len()] == Recent();
      }
      i, f, pushed := 0, false, [];
      NothingHeld();
      assert destroyed + [] == destroyed;
    }

    lemma NothingHeld()
      requires i == 0 && !f && pushed == []
      ensures Recent() == [] && (d.Length > 0 ==> Valid())
    {
    }

    function Len(): nat
      reads this`i, this`f
    {
      if f then d.Length else i
    }

    function RealIdx(j: int): int
      requires Valid()
      reads this, d
    {
      if f then (j + i) % d.Length else j
    }

    function FakeIdx(j: int): int
      requires Valid()
      reads this, d
    {
      if f then (j + d.Length - i) % d.Length else j
    }

    function EltPtr(j: int): int
      requires Valid()
      reads this, d
    {
      if 0 <= j < Len() then RealIdx(j) else NIL
    }

    function Next(e: int): int
      requires Valid()
      reads this, d
    {
      if e == NIL then EltPtr(0) else EltPtr(FakeIdx(e) + 1)
    }

    function Back(): int
      requires Valid()
      reads this, d
    {
      if i == 0 && !f then NIL else EltPtr(Len() - 1)
    }

    function Prev(e: int): int
      requires Valid()
      reads this, d
    {
      if e == NIL then Back() else EltPtr(FakeIdx(e) - 1)
    }

    /** Logical index j names the slot of the j-th oldest recent value, and nothing beyond them. */
    lemma EltIsRecent(j: int)
      requires Valid()
      ensures |Recent()| == Len()
      ensures 0 <= j < |Recent()| ==> 0 <= EltPtr(j) < d.Length && d[EltPtr(j)] == Recent()[j]
      ensures !(0 <= j < |Recent()|) ==> EltPtr(j) == NIL == -1
    {
      if 0 <= j < Len() {
        if f {
          Wraps(i, j, d.Length);
          assert d[EltPtr(j)] == d[..][EltPtr(j)];
        } else {
          assert d[j] == d[..][j];
        }
      }
    }

    /** The index maps undo each other. */
    lemma FakeOfReal(j: nat)
      requires Valid() && j < Len()
      ensures 0 <= RealIdx(j) < Len() && FakeIdx(RealIdx(j)) == j
    {
      if f {
        Wraps(i, j, d.Length);
        Wraps(RealIdx(j), d.Length - i, d.Length);
      }
    }

    lemma RealOfFake(s: nat)
      requires Valid() && s < Len()
      ensures 0 <= FakeIdx(s) < Len() && RealIdx(FakeIdx(s)) == s
    {
      if f {
        Wraps(s, d.Length - i, d.Length);
        Wraps(i, FakeIdx(s), d.Length);
      }
    }

    /** next and prev step through the logical order and are undone by each other. */
    lemma Neighbours(j: nat)
      requires Valid() && j < Len()
      ensures Next(EltPtr(j)) == EltPtr(j + 1)
      ensures Prev(EltPtr(j)) == EltPtr(j - 1)
      ensures j + 1 < Len() ==> Prev(Next(EltPtr(j))) == EltPtr(j)
    {
      FakeOfReal(j);
      if j + 1 < Len() { FakeOfReal(j + 1); }
    }

    lemma StartWalk()
      requires Valid()
      ensures Next(NIL) == EltPtr(0) && Prev(NIL) == EltPtr(Len() - 1)
      ensures EltPtr(-1) == EltPtr(Len()) == NIL
    {
    }

    /** Walking with next from NULL yields every recent value once, oldest first. */
    method WalkForward() returns (seen: seq<T>)
      requires Valid()
      ensures seen == Recent()
    {
      hide Valid, Represents, Recent, EltPtr;
      seen := [];
      RecentLength();
      StartWalk();
      var e := Next(NIL);
      while e != NIL
        invariant |seen| <= Len() == |Recent()| && seen == Recent()[..|seen|] && e == EltPtr(|seen|)
        decreases Len() - |seen|
      {
        EltIsRecent(|seen|);
        Neighbours(|seen|);
        assert d[e] == Recent()[|seen|];
        seen := seen + [d[e]];
        e := Next(e);
      }
      if |seen| < Len() { EltIsRecent(|seen|); }
    }

    /** Walking with prev from NULL yields them newest first. */
    method WalkBackward() returns (seen: seq<T>)
      requires Valid()
      ensures seen == Reverse(Recent())
    {
      hide Valid, Represents, Recent, EltPtr;
      seen := [];
      RecentLength();
      StartWalk();
      var e := Prev(NIL);
      ghost var n := Len();
      while e != NIL
        invariant |seen| <= n == Len() == |Recent()| && seen == Reverse(Recent())[..|seen|]
        invariant e == EltPtr(n - 1 - |seen|)
        decreases n - |seen|
      {
        EltIsRecent(n - 1 - |seen|);
        Neighbours(n - 1 - |seen|);
        assert d[e] == Recent()[n - 1 - |seen|] == Reverse(Recent())[|seen|];
        seen := seen + [d[e]];
        e := Prev(e);
      }
      if |seen| < n { EltIsRecent(n - 1 - |seen|); }
    }
  }
}
