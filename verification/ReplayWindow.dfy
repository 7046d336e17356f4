/** Sequence numbers and the replay window of `crypto/src/security_hardening.rs`. */
module ReplayWindow {
  import opened Bits

  const MAX_REPLAY_WINDOW: nat := 64
  const MAX_SEQ: u64 := 0xFFFF_FFFF_FFFF_FFFF

  ghost predicate Increasing(w: seq<u64>) {
    forall i, j :: 0 <= i < j < |w| ==> w[i] < w[j]
  }

  function Elements(w: seq<u64>): set<u64> { set x | x in w }

  function SaturatingInc(n: u64): u64 { if n == MAX_SEQ then n else n + 1 }

  /** How many elements of a sorted window lie below `x`: its insertion point. */
  function Rank(w: seq<u64>, x: u64): (k: nat)
    ensures k <= |w|
  {
    if w == [] || w[|w| - 1] < x then |w| else Rank(w[..|w| - 1], x)
  }

  /** The window without its smallest element if it is full. */
  function Evicted(w: seq<u64>): seq<u64> {
    if |w| >= MAX_REPLAY_WINDOW then w[1..] else w
  }

  function Admit(w: seq<u64>, x: u64): seq<u64> {
    var b := Evicted(w);
    b[..Rank(b, x)] + [x] + b[Rank(b, x)..]
  }

  lemma {:induction false} RankSplits(w: seq<u64>, x: u64)
    requires Increasing(w)
    ensures forall i :: 0 <= i < Rank(w, x) ==> w[i] < x
    ensures forall i :: Rank(w, x) <= i < |w| ==> w[i] >= x
  {
    if w != [] && w[|w| - 1] >= x {
      RankSplits(w[..|w| - 1], x);
    }
  }

  /** Any split of a sorted window around `x` is the one `Rank` finds. */
  lemma RankUnique(w: seq<u64>, x: u64, k: nat)
    requires Increasing(w) && k <= |w|
    requires forall i :: 0 <= i < k ==> w[i] < x
    requires forall i :: k <= i < |w| ==> w[i] >= x
    ensures Rank(w, x) == k
  {
    RankSplits(w, x);
  }

  /** Evicting the smallest element moves the insertion point down by one, but not below zero. */
  lemma RankAfterEviction(w: seq<u64>, x: u64)
    requires Increasing(w) && x !in w
    ensures Rank(Evicted(w), x)
            == if |w| >= MAX_REPLAY_WINDOW && Rank(w, x) > 0 then Rank(w, x) - 1 else Rank(w, x)
  {
    RankSplits(w, x);
    if |w| >= MAX_REPLAY_WINDOW {
      var k := if Rank(w, x) == 0 then 0 else Rank(w, x) - 1;
      RankUnique(w[1..], x, k);
    }
  }

  lemma EvictedIs(w: seq<u64>)
    ensures Evicted(w) == if |w| >= MAX_REPLAY_WINDOW then w[1..] else w
  {
  }

  lemma InsertIncreasing(a: seq<u64>, c: seq<u64>, x: u64)
    requires Increasing(a + c)
    requires forall i :: 0 <= i < |a| ==> a[i] < x
    requires forall i :: 0 <= i < |c| ==> c[i] > x
    ensures Increasing(a + [x] + c)
  {
    var r := a + [x] + c;
    forall i, j | 0 <= i < j < |r|
      ensures r[i] < r[j]
    {
      if i < |a| && j > |a| {
        assert (a + c)[i] < (a + c)[j - 1];
      } else if j < |a| {
        assert (a + c)[i] < (a + c)[j];
      } else if i > |a| {
        assert (a + c)[i - 1] < (a + c)[j - 1];
      }
    }
  }

  lemma InsertElements(a: seq<u64>, c: seq<u64>, x: u64)
    ensures Elements(a + [x] + c) == Elements(a + c) + {x}
  {
    forall y
      ensures y in a + [x] + c <==> y in a + c || y == x
    {
    }
  }

  lemma EvictedMeaning(w: seq<u64>)
    requires Increasing(w)
    ensures Increasing(Evicted(w))
    ensures Elements(Evicted(w)) == Elements(w) - (if |w| >= MAX_REPLAY_WINDOW then {w[0]} else {})
    ensures |w| >= MAX_REPLAY_WINDOW ==> forall y :: y in w ==> w[0] <= y
  {
    if |w| >= MAX_REPLAY_WINDOW {
      var rest := w[1..];
      assert forall i :: 0 <= i < |rest| ==> rest[i] == w[i + 1] > w[0];
      assert w == [w[0]] + rest;
      hide Increasing;
      assert forall y :: y in rest ==> y != w[0];
      assert forall y :: y in w <==> y == w[0] || y in rest;
    }
  }

  /** A new number joins the window; the smallest leaves it only when there were 64. */
  lemma AdmitMeaning(w: seq<u64>, x: u64)
    requires Increasing(w) && |w| <= MAX_REPLAY_WINDOW && x !in w
    ensures Increasing(Admit(w, x)) && |Admit(w, x)| <= MAX_REPLAY_WINDOW
    ensures Elements(Admit(w, x))
            == Elements(w) - (if |w| == MAX_REPLAY_WINDOW then {w[0]} else {}) + {x}
    ensures |w| == MAX_REPLAY_WINDOW ==> forall y :: y in w ==> w[0] <= y
  {
    var b := Evicted(w);
    var k := Rank(b, x);
    EvictedMeaning(w);
    RankSplits(b, x);
    assert b == b[..k] + b[k..];
    assert x !in b[k..];
    InsertIncreasing(b[..k], b[k..], x);
    InsertElements(b[..k], b[k..], x);
  }

  /** A number above the whole window goes to its end. */
  lemma AdmitNewest(w: seq<u64>, x: u64)
    requires Increasing(w) && (w == [] || w[|w| - 1] < x)
    ensures x !in w && Admit(w, x) == Evicted(w) + [x]
  {
    var b := Evicted(w);
    assert b == [] || b[|b| - 1] == w[|w| - 1];
  }

  /** The replay state of `HybridKEXState`. */
  class KexState {
    var seqCounter: u64
    const window: array<u64>
    var windowLen: nat

    ghost predicate Valid()
      reads this, window
    {
      window.Length == MAX_REPLAY_WINDOW && windowLen <= window.Length && Increasing(window[..windowLen])
    }

    function Window(): seq<u64>
      requires windowLen <= window.Length
      reads this, window
    {
      window[..windowLen]
    }

    constructor ()
      ensures Valid() && fresh(window)
      ensures seqCounter == 0 && Window() == []
    {
      seqCounter := 0;
      window := new u64[MAX_REPLAY_WINDOW](_ => 0);
      windowLen := 0;
    }

    /** `slice::binary_search`. */
    method BinarySearch(x: u64) returns (found: bool, at: nat)
      requires Valid()
      ensures found <==> x in Window()
      ensures !found ==> at == Rank(Window(), x)
    {
      var lo, hi := 0, windowLen;
      while lo < hi
        invariant 0 <= lo <= hi <= windowLen
        invariant forall i :: 0 <= i < lo ==> window[i] < x
        invariant forall i :: hi <= i < windowLen ==> window[i] > x
      {
        var mid := (lo + hi) / 2;
        if window[mid] == x {
          assert Window()[mid] == x;
          return true, mid;
        } else if window[mid] < x {
          lo := mid + 1;
        } else {
          hi := mid;
        }
      }
      RankUnique(Window(), x, lo);
      return false, lo;
    }

    /** Drops the first element of the window, keeping the order of the rest. */
    method ShiftLeft()
      requires Valid() && windowLen > 0
      modifies window
      ensures window[..windowLen - 1] == old(window[1..windowLen])
    {
      forall i | 0 <= i < windowLen - 1 {
        window[i] := window[i + 1];
      }
    }

    /** Common case: the number is larger than everything in the window. */
    method AppendNewest(x: u64)
      requires Valid() && (windowLen == 0 || x > window[windowLen - 1])
      modifies this`windowLen, window
      ensures windowLen <= window.Length && Window() == Evicted(old(Window())) + [x]
    {
      assert windowLen >= MAX_REPLAY_WINDOW ==> windowLen == window.Length;
      if windowLen >= MAX_REPLAY_WINDOW {
        ShiftLeft();
        hide Increasing;
        StoreLast(x, windowLen - 1);
      } else {
        hide Increasing;
        StoreLast(x, windowLen);
        windowLen := windowLen + 1;
      }
    }

    method StoreLast(x: u64, at: nat)
      requires at < window.Length
      modifies window
      ensures window[..at + 1] == old(window[..at]) + [x]
    {
      window[at] := x;
    }

    /** Shifts the elements from `at` on one place right and stores `x` there. */
    method StoreShifting(x: u64, at: nat)
      requires at <= windowLen < window.Length
      modifies this`windowLen, window
      ensures windowLen == old(windowLen) + 1
      ensures window[..windowLen] == old(window[..at]) + [x] + old(window[at..windowLen])
    {
      forall i | at <= i < windowLen {
        window[i + 1] := window[i];
      }
      window[at] := x;
      windowLen := windowLen + 1;
    }

    /** General case: make room at the insertion point, evicting the smallest if full. */
    method InsertAt(x: u64, found: nat)
      requires Valid() && x !in Window() && found == Rank(Window(), x)
      modifies this`windowLen, window
      ensures windowLen <= window.Length && Window() == Admit(old(Window()), x)
    {
      ghost var w := Window();
      var at := found;
      RankAfterEviction(w, x);
      EvictedIs(w);
      hide Increasing, Rank, Evicted;
      if windowLen >= MAX_REPLAY_WINDOW {
        EvictSmallest();
        at := if at == 0 then 0 else at - 1;
      }
      ghost var b := window[..windowLen];
      assert b[..at] == window[..at] && b[at..] == window[at..windowLen];
      StoreShifting(x, at);
    }

    method EvictSmallest()
      requires Valid() && windowLen > 0
      modifies this`windowLen, window
      ensures windowLen == old(windowLen) - 1
      ensures window[..windowLen] == old(window[..windowLen])[1..]
    {
      hide Increasing;
      ShiftLeft();
      windowLen := windowLen - 1;
    }

    /** `increment_seq_counter`: `None` is the replay error. */
    method IncrementSeqCounter() returns (r: Option<u64>)
      requires Valid()
      modifies this, window
      ensures Valid()
      ensures seqCounter == SaturatingInc(old(seqCounter))
      ensures r == None <==> seqCounter in old(Window())
      ensures r == None ==> Window() == old(Window())
      ensures r != None ==> r == Some(seqCounter) && Window() == Admit(old(Window()), seqCounter)
      ensures (State(seqCounter, Window()), r) == Call(State(old(seqCounter), old(Window())))
    {
      seqCounter := SaturatingInc(seqCounter);
      var x := seqCounter;
      ghost var w := Window();
      if windowLen == 0 || x > window[windowLen - 1] {
        AdmitNewest(w, x);
        AdmitMeaning(w, x);
        AppendNewest(x);
        return Some(x);
      }
      var found, at := BinarySearch(x);
      if found {
        return None;
      }
      AdmitMeaning(w, x);
      InsertAt(x, at);
      return Some(x);
    }
  }

  // ---------- Whole runs from a fresh state ----------

  datatype State = State(counter: u64, window: seq<u64>)

  /** One call on values: the state it leaves and what it returns. */
  function Call(s: State): (State, Option<u64>) {
    var x := SaturatingInc(s.counter);
    if x in s.window then (State(x, s.window), None) else (State(x, Admit(s.window, x)), Some(x))
  }

  function After(calls: nat): State {
    if calls == 0 then State(0, []) else Call(After(calls - 1)).0
  }

  /** The last `min(n, 64)` of the numbers `1..n`. */
  function Recent(n: u64): (w: seq<u64>)
    ensures |w| == Min(n, 64)
    ensures forall i :: 0 <= i < |w| ==> w[i] == n - |w| + 1 + i
  {
    var k := Min(n, MAX_REPLAY_WINDOW);
    seq(k, i requires 0 <= i < k => n - k + 1 + i)
  }

  lemma RecentStep(n: u64)
    requires n > 0
    ensures n !in Recent(n - 1) && Admit(Recent(n - 1), n) == Recent(n)
  {
    var w := Recent(n - 1);
    assert Increasing(w);
    AdmitNewest(w, n);
    assert Evicted(w) + [n] == Recent(n);
  }

  /** Until saturation the n-th call returns n and the window holds the most recent numbers. */
  lemma {:induction false} FreshRun(n: u64)
    ensures After(n).counter == n && After(n).window == Recent(n)
    ensures n >= 1 ==> Call(After(n - 1)).1 == Some(n)
  {
    if n > 0 {
      FreshRun(n - 1);
      RecentStep(n);
    }
  }

  /** From 2^64 - 1 calls on, every call is reported as a replay and changes nothing. */
  lemma {:induction false} SaturatedRun(n: nat)
    requires n >= MAX_SEQ
    ensures After(n) == After(MAX_SEQ) && Call(After(n)) == (After(n), None)
  {
    if n == MAX_SEQ {
      FreshRun(n);
      assert Recent(n)[63] == MAX_SEQ;
    } else {
      SaturatedRun(n - 1);
    }
  }
}
