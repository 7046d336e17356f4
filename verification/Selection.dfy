/** Index arithmetic of `routing/src/lib.rs`: shards, cache slots, spray channels and the
    predictive fallback. */
module Selection {
  import opened Bits
  import opened Wire

  const HOT_CACHE_SIZE: nat := 256
  const FAST_SHARDS: nat := 16
  const KNUTH: nat := 0x9e37_79b9_7f4a_7c15

  datatype RouteEntry = RouteEntry(
    destId: Id,
    nextHopId: Id,
    metric: int,
    lastSeen: nat,
    channelCount: byte,
    alternates: seq<Id>,
    mcrEpoch: u64)

  /** The unaligned 64-bit load of the first eight bytes of an identifier. */
  function Word(id: Id, i: nat): u64
    requires i < 4
  {
    assert Pow256(8) == TWO_TO_64;
    FromLE(id[8 * i..8 * i + 8])
  }

  function KnuthHash(v: u64): u64 { (v * KNUTH) % TWO_TO_64 }

  function ShardFor(id: Id): (s: nat)
    ensures s < FAST_SHARDS
  {
    MaskIsMod(KnuthHash(Word(id, 0)), FAST_SHARDS);
    And(KnuthHash(Word(id, 0)), FAST_SHARDS - 1)
  }

  function SimpleCacheIndex(id: Id): (i: nat)
    ensures i < HOT_CACHE_SIZE
  {
    WordSizes();
    MaskIsMod(KnuthHash(Word(id, 0)), HOT_CACHE_SIZE);
    And(KnuthHash(Word(id, 0)), HOT_CACHE_SIZE - 1)
  }

  function SprayCacheIndex(id: Id, flow: u32): (i: nat)
    ensures i < HOT_CACHE_SIZE
  {
    WordSizes();
    var v := Xor64(Word(id, 0), flow);
    MaskIsMod(KnuthHash(v), HOT_CACHE_SIZE);
    And(KnuthHash(v), HOT_CACHE_SIZE - 1)
  }

  // ---------- Spray channels ----------

  /** Channel 0 is the next hop; the alternates follow. */
  function Channels(e: RouteEntry): (c: seq<Id>)
    ensures |c| == 1 + |e.alternates|
  {
    [e.nextHopId] + e.alternates
  }

  /** `x & (n - 1)` for powers of two, `x % n` otherwise. */
  function Reduce(x: nat, n: nat): nat
    requires n > 0
  {
    if IsPowerOfTwo(n) then And(x, n - 1) else x % n
  }

  lemma ReduceIsMod(x: nat, n: nat)
    requires n > 0
    ensures Reduce(x, n) == x % n < n
  {
    if IsPowerOfTwo(n) {
      MaskIsMod(x, n);
    }
  }

  /** The spray order a flow is meant to get: its own channel first, in exchange for channel 0. */
  function SprayOrder(e: RouteEntry, flow: u32): (s: seq<Id>)
    ensures |s| == |Channels(e)|
  {
    var c := Channels(e);
    var own := flow % |c|;
    c[0 := c[own]][own := c[0]]
  }

  /** The channel `lookup_spray_primary` picks when its cache misses. */
  function PrimaryHop(e: RouteEntry, flow: u32): Id {
    if e.alternates == [] then e.nextHopId
    else
      var choices := 1 + |e.alternates|;
      ReduceIsMod(flow, choices);
      var i := Reduce(flow, choices);
      if i == 0 then e.nextHopId else e.alternates[i - 1]
  }

  /** `lookup_spray_single` on a found entry. */
  function SingleHop(e: RouteEntry, flow: u32, channel: nat): Id {
    var count := 1 + |e.alternates|;
    ReduceIsMod(flow, count);
    ReduceIsMod(channel, count);
    var own := if count > 1 then Reduce(flow, count) else 0;
    var target := Reduce(channel, count);
    if target == 0 then
      (if own == 0 then e.nextHopId else e.alternates[own - 1])
    else if target == own then e.nextHopId
    else e.alternates[target - 1]
  }

  lemma PrimaryIsHead(e: RouteEntry, flow: u32)
    ensures PrimaryHop(e, flow) == SprayOrder(e, flow)[0]
  {
    ReduceIsMod(flow, 1 + |e.alternates|);
  }

  lemma SingleIsNth(e: RouteEntry, flow: u32, channel: nat)
    ensures SingleHop(e, flow, channel) == SprayOrder(e, flow)[channel % |SprayOrder(e, flow)|]
  {
    ReduceIsMod(flow, 1 + |e.alternates|);
    ReduceIsMod(channel, 1 + |e.alternates|);
  }

  /** Spraying sends on every channel exactly as often as it is listed. */
  lemma SprayOrderPermutes(e: RouteEntry, flow: u32)
    ensures multiset(SprayOrder(e, flow)) == multiset(Channels(e))
  {
    var c := Channels(e);
    var own := flow % |c|;
    var a := c[0 := c[own]];
    assert multiset(a) == multiset(c) - multiset{c[0]} + multiset{c[own]};
    assert multiset(a[own := c[0]]) == multiset(a) - multiset{a[own]} + multiset{c[0]};
  }

  /** Over `n` consecutive flow labels every one of `n` channels is primary exactly once. */
  lemma EachChannelPrimaryOnce(first: nat, n: nat, channel: nat)
    requires channel < n && first + n <= TWO_TO_32
    ensures exists flow :: first <= flow < first + n && Reduce(flow, n) == channel
              && (forall g :: first <= g < first + n && Reduce(g, n) == channel ==> g == flow)
  {
    var d := (channel - first) % n;
    var flow := first + d;
    ModAdd(channel - first, first, n);
    ModUnique(channel, n, 0, channel);
    ReduceIsMod(flow, n);
    forall g | first <= g < first + n && Reduce(g, n) == channel
      ensures g == flow
    {
      ReduceIsMod(g, n);
      if g <= flow {
        ModClose(g, flow, n);
      } else {
        ModClose(flow, g, n);
      }
    }
  }

  /** The primary hop of a flow is the channel at its label modulo the number of channels. */
  lemma PrimaryIsOwn(e: RouteEntry, flow: u32)
    ensures PrimaryHop(e, flow) == Channels(e)[flow % (1 + |e.alternates|)]
  {
    ReduceIsMod(flow, 1 + |e.alternates|);
  }

  /** The primary hops of `n` consecutive flow labels are the `n` channels, each as often as it is
      listed. */
  lemma WindowUsesAllChannels(e: RouteEntry, first: nat)
    requires first + 1 + |e.alternates| <= TWO_TO_32
    ensures var n := 1 + |e.alternates|;
            multiset(seq(n, i requires 0 <= i < n => PrimaryHop(e, first + i))) == multiset(Channels(e))
  {
    var c, n := Channels(e), 1 + |e.alternates|;
    var r := first % n;
    var hops := seq(n, i requires 0 <= i < n => PrimaryHop(e, first + i));
    forall i | 0 <= i < n
      ensures hops[i] == (c[r..] + c[..r])[i]
    {
      PrimaryIsOwn(e, first + i);
      ModAdd(first, i, n);
      ModUnique(r + i, n, if r + i < n then 0 else 1, if r + i < n then r + i else r + i - n);
    }
    assert hops == c[r..] + c[..r];
    assert c == c[..r] + c[r..];
  }

  // ---------- Predictive fallback ----------

  function Fold(id: Id): u64 {
    Xor64(Xor64(Word(id, 0), Word(id, 1)), Xor64(Word(id, 2), Word(id, 3)))
  }

  /** `fast_flow_hash`; the grouping of the exclusive ors does not matter (`XorAssoc`). */
  function FlowHash(src: Id, dst: Id, flow: u32): u64 { Xor64(Xor64(Fold(src), Fold(dst)), flow) }

  /** The source's remark that the hash of equal ends is the flow label itself. */
  lemma HashOfEqualEnds(id: Id, flow: u32)
    ensures FlowHash(id, id, flow) == flow
  {
    XorSelf(Fold(id));
  }

  /** Another flow label changes the hash by the exclusive or of the two. */
  lemma HashFollowsFlow(src: Id, dst: Id, f: u32, g: u32)
    ensures Xor(FlowHash(src, dst, f), FlowHash(src, dst, g)) == Xor(f, g)
  {
    XorCancel(Xor64(Fold(src), Fold(dst)), f, g);
  }

  /** So does another word of either end, and the ends may change places. */
  lemma HashFollowsEnds(a: Id, b: Id, end: Id, flow: u32, i: nat)
    requires i < 4 && forall j :: 0 <= j < 4 && j != i ==> Word(a, j) == Word(b, j)
    ensures Xor(FlowHash(a, end, flow), FlowHash(b, end, flow)) == Xor(Word(a, i), Word(b, i))
    ensures Xor(FlowHash(end, a, flow), FlowHash(end, b, flow)) == Xor(Word(a, i), Word(b, i))
    ensures FlowHash(a, end, flow) == FlowHash(end, a, flow)
  {
    FoldFollowsWord(a, b, i);
    hide Fold, Word;
    XorCancel(flow, Xor64(Fold(a), Fold(end)), Xor64(Fold(b), Fold(end)));
    XorCancel(flow, Xor64(Fold(end), Fold(a)), Xor64(Fold(end), Fold(b)));
    XorCancel(Fold(end), Fold(a), Fold(b));
    XorComm(Fold(a), Fold(end));
  }

  lemma FoldFollowsWord(a: Id, b: Id, i: nat)
    requires i < 4 && forall j :: 0 <= j < 4 && j != i ==> Word(a, j) == Word(b, j)
    ensures Xor(Fold(a), Fold(b)) == Xor(Word(a, i), Word(b, i))
  {
    hide Word, Xor;
    var p, q, r, t := Word(a, 0), Word(a, 1), Word(a, 2), Word(a, 3);
    assert (i == 0 || Word(b, 0) == p) && (i == 1 || Word(b, 1) == q);
    assert (i == 2 || Word(b, 2) == r) && (i == 3 || Word(b, 3) == t);
    var x := Word(b, i);
    match i
    case 0 => XorOfFour(p, x, q, Xor64(r, t));
    case 1 => XorOfFour(q, x, p, Xor64(r, t));
    case 2 => XorOfFour(r, x, t, Xor64(p, q));
    case 3 => XorOfFour(t, x, r, Xor64(p, q));
  }

  lemma XorOfFour(x: nat, y: nat, beside: nat, rest: nat)
    ensures Xor(Xor(Xor(x, beside), rest), Xor(Xor(y, beside), rest)) == Xor(x, y)
    ensures Xor(Xor(Xor(beside, x), rest), Xor(Xor(beside, y), rest)) == Xor(x, y)
    ensures Xor(Xor(rest, Xor(x, beside)), Xor(rest, Xor(y, beside))) == Xor(x, y)
    ensures Xor(Xor(rest, Xor(beside, x)), Xor(rest, Xor(beside, y))) == Xor(x, y)
  {
    hide Xor;
    XorCancel(rest, Xor(x, beside), Xor(y, beside));
    XorCancel(rest, Xor(beside, x), Xor(beside, y));
    XorCancel(beside, x, y);
  }

  /** A word is the little-endian value of its eight bytes. */
  lemma WordBytes(id: Id, i: nat, j: nat)
    requires i < 4 && j < 8
    ensures id[8 * i + j] == Word(id, i) / Pow256(j) % 256
  {
    FromLEDigit(id[8 * i..8 * i + 8], j);
  }

  /** Which of `n` entries a hash picks: a mask, or the high half of a 128-bit product. */
  function PredictIndex(hash: u64, n: nat): nat
    requires n > 0
  {
    if IsPowerOfTwo(n) then And(hash, n - 1) else (hash * n) / TWO_TO_64
  }

  lemma PredictInRange(hash: u64, n: nat)
    requires n > 0
    ensures PredictIndex(hash, n) < n
  {
    if IsPowerOfTwo(n) {
      MaskIsMod(hash, n);
    } else {
      MulAtLeast(TWO_TO_64 - hash, n, TWO_TO_64, hash);
      MulComm(hash, n);
    }
  }

  /** The array's answer for a hash, with the shortcuts for no entry and for one. */
  function PredictAt(hops: seq<Id>, hash: u64): Option<Id> {
    var n := |hops|;
    if n == 0 then None
    else if n == 1 then Some(hops[0])
    else
      PredictInRange(hash, n);
      Some(hops[PredictIndex(hash, n)])
  }

  /** Which entry answers: the hash modulo a power of two, or else the one whose share of the 2^64
      hash values the hash lies in. */
  lemma PredictAtMeaning(hops: seq<Id>, hash: u64, i: nat)
    requires i < |hops|
    requires if IsPowerOfTwo(|hops|) then i == hash % |hops| else i * TWO_TO_64 <= hash * |hops| < (i + 1) * TWO_TO_64
    ensures PredictAt(hops, hash) == Some(hops[i])
  {
    if IsPowerOfTwo(|hops|) {
      MaskIsMod(hash, |hops|);
    } else {
      QuotientIs(hash * |hops|, TWO_TO_64, i);
    }
  }

  /** There is always exactly one such entry. */
  lemma PredictAtCovers(hops: seq<Id>, hash: u64) returns (i: nat)
    requires hops != []
    ensures i < |hops| && PredictAt(hops, hash) == Some(hops[i])
    ensures if IsPowerOfTwo(|hops|) then i == hash % |hops| else i * TWO_TO_64 <= hash * |hops| < (i + 1) * TWO_TO_64
  {
    PredictInRange(hash, |hops|);
    i := PredictIndex(hash, |hops|);
    if IsPowerOfTwo(|hops|) {
      MaskIsMod(hash, |hops|);
    } else {
      QuotientIs(hash * |hops|, TWO_TO_64, i);
    }
  }

  lemma MulComm(a: int, b: int)
    ensures a * b == b * a
  {
  }

  /** How many of the hash values below `bound` pick entry `i`. */
  ghost function Hits(n: nat, i: nat, bound: nat): nat
    requires n > 0 && bound <= TWO_TO_64
    decreases bound
  {
    if bound == 0 then 0
    else Hits(n, i, bound - 1) + (if PredictIndex(bound - 1, n) == i then 1 else 0)
  }

  lemma DivStep(x: nat, n: nat)
    requires n > 0 && x > 0
    ensures x / n == (x - 1) / n + (if x % n == 0 then 1 else 0)
  {
    var q, r := x / n, x % n;
    if r == 0 {
      MulMinus(q, 1, n);
      ModUnique(x - 1, n, q - 1, n - 1);
    } else {
      ModUnique(x - 1, n, q, r - 1);
    }
  }

  lemma ResidueOffset(h: nat, i: nat, n: nat)
    requires i < n && h >= i
    ensures h % n == i <==> (h - i) % n == 0
  {
    ModAdd(h - i, i, n);
    ModUnique(i, n, 0, i);
    if h % n == i {
      ModUnique(h - i, n, h / n, 0);
    }
  }

  /** How many of the numbers below `bound` leave remainder `i`. */
  function Residues(n: nat, i: nat, bound: nat): nat
    requires n > 0
  {
    if bound <= i then 0 else (bound - 1 - i) / n + 1
  }

  lemma ResiduesStep(n: nat, i: nat, bound: nat)
    requires i < n
    ensures Residues(n, i, bound + 1) == Residues(n, i, bound) + (if bound % n == i then 1 else 0)
  {
    if bound < i {
      ModUnique(bound, n, 0, bound);
    } else {
      ResidueOffset(bound, i, n);
      ModUnique(0, n, 0, 0);
      if bound > i {
        DivStep(bound - i, n);
      }
    }
  }

  /** Masked hashes: one hit in every run of `n`. */
  lemma {:induction false} MaskHits(n: nat, i: nat, bound: nat)
    requires i < n && bound <= TWO_TO_64 && IsPowerOfTwo(n)
    ensures Hits(n, i, bound) == Residues(n, i, bound)
    decreases bound
  {
    hide Residues;
    if bound > 0 {
      MaskHits(n, i, bound - 1);
      MaskIsMod(bound - 1, n);
      ResiduesStep(n, i, bound - 1);
    } else {
      NoResidues(n, i);
    }
  }

  lemma NoResidues(n: nat, i: nat)
    requires n > 0
    ensures Residues(n, i, 0) == 0
  {
  }

  /** Hashes between two bounds, when exactly those pick entry `i`. */
  lemma {:induction false} IntervalHits(n: nat, i: nat, bound: nat, lo: nat, hi: nat)
    requires n > 0 && bound <= TWO_TO_64 && lo <= hi
    requires forall h: nat :: h < bound ==> (PredictIndex(h, n) == i <==> lo <= h < hi)
    ensures Hits(n, i, bound) == Min(Max(bound, lo), hi) - lo
    decreases bound
  {
    if bound > 0 {
      IntervalHits(n, i, bound - 1, lo, hi);
    }
  }

  /** Smallest `h` with `h * n >= x`. */
  function CeilDiv(x: nat, n: nat): nat
    requires n > 0
  {
    (x + n - 1) / n
  }

  lemma CeilDivIsLeast(x: nat, n: nat, h: nat)
    requires n > 0
    ensures h >= CeilDiv(x, n) <==> h * n >= x
  {
    CeilDivBounds(x, n);
    var c := CeilDiv(x, n);
    if h > c {
      MulAtLeast(h - c, n, h, c);
    } else if h < c {
      MulAtLeast(c - h, n, c, h);
    }
  }

  lemma CeilDivBounds(x: nat, n: nat)
    requires n > 0
    ensures x <= CeilDiv(x, n) * n <= x + n - 1
  {
    var c := CeilDiv(x, n);
    assert c * n + (x + n - 1) % n == x + n - 1;
  }

  /** The product picks entry `i` between two bounds. */
  lemma ProductInterval(h: u64, n: nat, i: nat)
    requires 0 < n && !IsPowerOfTwo(n)
    ensures PredictIndex(h, n) == i <==> CeilDiv(i * TWO_TO_64, n) <= h < CeilDiv((i + 1) * TWO_TO_64, n)
  {
    CeilDivIsLeast(i * TWO_TO_64, n, h);
    CeilDivIsLeast((i + 1) * TWO_TO_64, n, h);
    QuotientIs(h * n, TWO_TO_64, i);
  }

  lemma QuotientIs(x: nat, m: nat, q: nat)
    requires m > 0
    ensures x / m == q <==> q * m <= x < (q + 1) * m
  {
    MulMinus(q + 1, 1, m);
    if q * m <= x < (q + 1) * m {
      ModUnique(x, m, q, x - q * m);
    }
  }

  /** Every entry is picked by either the floor or the ceiling of 2^64 / n hash values. */
  lemma PredictionIsBalanced(n: nat, i: nat)
    requires i < n <= TWO_TO_64
    ensures TWO_TO_64 / n <= Hits(n, i, TWO_TO_64) <= CeilDiv(TWO_TO_64, n)
  {
    if IsPowerOfTwo(n) {
      MaskHitsEvenly(n, i);
    } else {
      ProductHits(n, i);
    }
  }

  lemma MaskHitsEvenly(n: nat, i: nat)
    requires i < n <= TWO_TO_64 && IsPowerOfTwo(n)
    ensures Hits(n, i, TWO_TO_64) == TWO_TO_64 / n == CeilDiv(TWO_TO_64, n)
  {
    WordSizes();
    PowersDivide(n, TWO_TO_64);
    MaskHits(n, i, TWO_TO_64);
    hide IsPowerOfTwo, Hits, CeilDiv, Residues;
    ResiduesEvenly(n, i, TWO_TO_64);
  }

  lemma ResiduesEvenly(n: nat, i: nat, m: nat)
    requires i < n <= m && m % n == 0
    ensures Residues(n, i, m) == m / n == CeilDiv(m, n)
  {
    var q := m / n;
    MulMinus(q, 1, n);
    ModUnique(m - 1 - i, n, q - 1, n - 1 - i);
    ModUnique(m + n - 1, n, q, n - 1);
  }

  lemma ProductHits(n: nat, i: nat)
    requires i < n <= TWO_TO_64 && !IsPowerOfTwo(n)
    ensures TWO_TO_64 / n <= Hits(n, i, TWO_TO_64) <= CeilDiv(TWO_TO_64, n)
  {
    var x, y := i * TWO_TO_64, (i + 1) * TWO_TO_64;
    var lo, hi := CeilDiv(x, n), CeilDiv(y, n);
    CeilDivBounds(x, n);
    CeilDivBounds(y, n);
    BoundsApart(n, x, TWO_TO_64, lo, hi);
    CeilDivIsLeast(y, n, TWO_TO_64);
    forall h: nat | h < TWO_TO_64
      ensures PredictIndex(h, n) == i <==> lo <= h < hi
    {
      ProductInterval(h, n, i);
    }
    IntervalHits(n, i, TWO_TO_64, lo, hi);
  }

  lemma BoundsApart(n: nat, x: nat, m: nat, lo: nat, hi: nat)
    requires n > 0
    requires x <= lo * n <= x + n - 1 && x + m <= hi * n <= x + m + n - 1
    ensures 0 <= m / n <= hi - lo <= CeilDiv(m, n)
  {
    MulMinus(hi, lo, n);
    QuotientNear(hi - lo, m, n);
  }

  lemma QuotientNear(d: int, m: nat, n: nat)
    requires n > 0 && m - n + 1 <= d * n <= m + n - 1
    ensures 0 <= m / n <= d <= CeilDiv(m, n)
  {
    CeilDivBounds(m, n);
    if d < m / n {
      MulAtLeast(m / n - d, n, m / n, d);
    }
    if d > CeilDiv(m, n) {
      MulAtLeast(d - CeilDiv(m, n), n, d, CeilDiv(m, n));
    }
  }

  // ---------- How often an answer is given ----------

  /** How many of the hash values below `bound` are answered with `x`. */
  ghost function Answers(hops: seq<Id>, x: Id, bound: nat): nat
    requires bound <= TWO_TO_64
    decreases bound
  {
    if bound == 0 then 0
    else Answers(hops, x, bound - 1) + (if PredictAt(hops, bound - 1) == Some(x) then 1 else 0)
  }

  /** The same, by one of the first `j` entries. */
  ghost function AnswersOfFirst(hops: seq<Id>, j: nat, x: Id, bound: nat): nat
    requires hops != [] && bound <= TWO_TO_64
    decreases bound
  {
    if bound == 0 then 0
    else
      PredictInRange(bound - 1, |hops|);
      var i := PredictIndex(bound - 1, |hops|);
      AnswersOfFirst(hops, j, x, bound - 1) + (if i < j && hops[i] == x then 1 else 0)
  }

  lemma {:induction false} OneMoreEntry(hops: seq<Id>, j: nat, x: Id, bound: nat)
    requires j < |hops| && bound <= TWO_TO_64
    ensures AnswersOfFirst(hops, j + 1, x, bound)
            == AnswersOfFirst(hops, j, x, bound) + (if hops[j] == x then Hits(|hops|, j, bound) else 0)
    decreases bound
  {
    hide PredictIndex;
    if bound > 0 {
      PredictInRange(bound - 1, |hops|);
      OneMoreEntry(hops, j, x, bound - 1);
    }
  }

  lemma {:induction false} NoEntry(hops: seq<Id>, x: Id, bound: nat)
    requires hops != [] && bound <= TWO_TO_64
    ensures AnswersOfFirst(hops, 0, x, bound) == 0
    decreases bound
  {
    hide PredictIndex;
    if bound > 0 {
      NoEntry(hops, x, bound - 1);
    }
  }

  lemma {:induction false} AllEntries(hops: seq<Id>, x: Id, bound: nat)
    requires hops != [] && bound <= TWO_TO_64
    ensures AnswersOfFirst(hops, |hops|, x, bound) == Answers(hops, x, bound)
    decreases bound
  {
    if bound > 0 {
      PredictInRange(bound - 1, |hops|);
      AllEntries(hops, x, bound - 1);
      hide PredictIndex;
    }
  }

  lemma {:induction false} FirstEntriesBalanced(hops: seq<Id>, j: nat, x: Id)
    requires j <= |hops| <= TWO_TO_64 && hops != []
    ensures var k, n := multiset(hops[..j])[x], |hops|;
            k * (TWO_TO_64 / n) <= AnswersOfFirst(hops, j, x, TWO_TO_64) <= k * CeilDiv(TWO_TO_64, n)
    decreases j
  {
    hide AnswersOfFirst, Hits, CeilDiv;
    if j == 0 {
      NoEntry(hops, x, TWO_TO_64);
    } else {
      FirstEntriesBalanced(hops, j - 1, x);
      OneMoreEntry(hops, j - 1, x, TWO_TO_64);
      PredictionIsBalanced(|hops|, j - 1);
      assert hops[..j] == hops[..j - 1] + [hops[j - 1]];
      MulMinus(multiset(hops[..j])[x], 1, TWO_TO_64 / |hops|);
      MulMinus(multiset(hops[..j])[x], 1, CeilDiv(TWO_TO_64, |hops|));
    }
  }

  /** A next hop listed `k` times among `n` is the answer for `k` times the floor to `k` times the
      ceiling of 2^64 / n hash values. */
  lemma AnswersAreBalanced(hops: seq<Id>, x: Id)
    requires 0 < |hops| <= TWO_TO_64
    ensures var k, n := multiset(hops)[x], |hops|;
            k * (TWO_TO_64 / n) <= Answers(hops, x, TWO_TO_64) <= k * CeilDiv(TWO_TO_64, n)
  {
    hide AnswersOfFirst, Answers, CeilDiv;
    FirstEntriesBalanced(hops, |hops|, x);
    AllEntries(hops, x, TWO_TO_64);
    assert hops[..|hops|] == hops;
  }
}
