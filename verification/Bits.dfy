/** Fixed-width integers, masks, exclusive-or and byte order, as the Rust sources use them.
    Integers are mathematical; every wrap-around and truncation is written out. */
module Bits {
  const TWO_TO_32: nat := 0x1_0000_0000
  const TWO_TO_64: nat := 0x1_0000_0000_0000_0000

  type byte = b: int | 0 <= b < 256
  type u16 = n: int | 0 <= n < 0x1_0000
  type u32 = n: int | 0 <= n < 0x1_0000_0000
  type u64 = n: int | 0 <= n < 0x1_0000_0000_0000_0000

  datatype Option<+T> = None | Some(value: T)

  function Min(a: nat, b: nat): nat { if a <= b then a else b }

  function Max(a: nat, b: nat): nat { if a >= b then a else b }

  /** `a.wrapping_add(b)` and `a.wrapping_sub(b)` on an unsigned integer with `m` values. */
  function WrapAdd(a: nat, b: nat, m: nat): nat
    requires m > 0
  {
    (a + b) % m
  }

  function WrapSub(a: nat, b: nat, m: nat): nat
    requires m > 0
  {
    (a - b) % m
  }

  // ---------- Remainders ----------

  /** The remainder is the only small number that differs by a multiple. */
  lemma ModUnique(x: int, m: nat, q: int, r: int)
    requires m > 0 && 0 <= r < m && x == q * m + r
    ensures x % m == r && x / m == q
  {
    var q' := x / m;
    assert x == m * q' + x % m;
    if q > q' {
      MulAtLeast(q - q', m, q, q');
    } else if q < q' {
      MulAtLeast(q' - q, m, q', q);
    }
  }

  lemma MulAtLeast(d: int, m: nat, a: int, b: int)
    requires d >= 1 && d == a - b
    ensures a * m - b * m >= m
  {
    assert a * m - b * m == d * m;
    assert (d - 1) * m >= 0;
  }

  lemma ModShift(x: int, q: int, m: nat)
    requires m > 0
    ensures (x + q * m) % m == x % m
  {
    assert x + q * m == (x / m + q) * m + x % m;
    ModUnique(x + q * m, m, x / m + q, x % m);
  }

  /** Reducing modulo a multiple first changes nothing. */
  lemma ModMod(x: int, m: nat, n: nat)
    requires n > 0 && m > 0 && m % n == 0
    ensures (x % m) % n == x % n
  {
    var t := m / n;
    assert x % m == x - (x / m) * m;
    var k := (x / m) * t;
    assert (x / m) * m == k * n by {
      MulAssoc(x / m, t, n);
    }
    assert x % m == x + (-k) * n by {
      assert (-k) * n == -(k * n);
    }
    ModShift(x, -k, n);
  }

  lemma MulAssoc(a: int, b: int, c: int)
    ensures a * (b * c) == (a * b) * c
  {
  }

  lemma MulMinus(a: int, b: int, m: nat)
    ensures (a - b) * m == a * m - b * m
  {
  }

  lemma MulAtMost(a: nat, b: nat, m: nat)
    requires a <= b
    ensures a * m <= b * m
  {
    if a < b {
      MulAtLeast(b - a, m, b, a);
    }
  }

  lemma ModAdd(x: int, y: int, m: nat)
    requires m > 0
    ensures (x % m + y) % m == (x + y) % m
  {
    assert x % m + y == (x + y) + (-(x / m)) * m;
    ModShift(x + y, -(x / m), m);
  }

  lemma ModModAdd(x: int, i: int, m: nat, n: nat)
    requires n > 0 && m > 0 && m % n == 0
    ensures (x % m + i) % n == (x + i) % n
  {
    ModMod(x, m, n);
    var y := x % m;
    ModAdd(y, i, n);
    ModAdd(x, i, n);
  }

  /** Two numbers less than `m` apart with the same remainder are equal. */
  lemma ModClose(x: int, y: int, m: nat)
    requires m > 0 && x <= y < x + m && x % m == y % m
    ensures x == y
  {
    ModAdd(x, y - x, m);
    var r, d := x % m, y - x;
    if d > 0 {
      if r + d < m {
        ModUnique(r + d, m, 0, r + d);
      } else {
        ModUnique(r + d, m, 1, r + d - m);
      }
    }
  }

  // ---------- Powers of two and masks ----------

  /** `usize::is_power_of_two`. */
  predicate IsPowerOfTwo(n: nat) {
    n == 1 || (n > 1 && n % 2 == 0 && IsPowerOfTwo(n / 2))
  }

  /** Bitwise and on unsigned integers of any width. */
  function And(a: nat, b: nat): (r: nat)
    ensures r <= b
  {
    if a == 0 || b == 0 then 0
    else 2 * And(a / 2, b / 2) + (if a % 2 == 1 && b % 2 == 1 then 1 else 0)
  }

  lemma DoubleMod(h: nat, b: nat, m: nat)
    requires m > 0 && b < 2
    ensures (2 * h + b) % (2 * m) == 2 * (h % m) + b
  {
    var q := h / m;
    assert q * (2 * m) == 2 * (q * m);
    assert h == q * m + h % m;
    ModUnique(2 * h + b, 2 * m, q, 2 * (h % m) + b);
  }

  /** The idiom `x & (n - 1)` is a remainder when `n` is a power of two... */
  lemma {:induction false} MaskIsMod(a: nat, n: nat)
    requires IsPowerOfTwo(n)
    ensures And(a, n - 1) == a % n
  {
    if n > 1 {
      if a == 0 {
        ModUnique(0, n, 0, 0);
      } else {
        MaskIsMod(a / 2, n / 2);
        assert (n - 1) / 2 == n / 2 - 1 && (n - 1) % 2 == 1;
        DoubleMod(a / 2, a % 2, n / 2);
      }
    }
  }

  /** ...and for no other `n`: then some number below `n` is masked to zero. */
  lemma {:induction false} MaskCollides(n: nat) returns (j: nat)
    requires n > 0 && !IsPowerOfTwo(n)
    ensures 0 < j < n && And(j, n - 1) == 0
  {
    if n % 2 == 1 {
      j := 1;
      assert And(0, (n - 1) / 2) == 0;
    } else {
      var h := MaskCollides(n / 2);
      j := 2 * h;
      assert (n - 1) / 2 == n / 2 - 1;
    }
  }

  lemma MaskIsModExactly(n: nat)
    requires n > 0
    ensures IsPowerOfTwo(n) <==> forall a: nat :: And(a, n - 1) == a % n
  {
    if IsPowerOfTwo(n) {
      forall a: nat
        ensures And(a, n - 1) == a % n
      {
        MaskIsMod(a, n);
      }
    } else {
      var j := MaskCollides(n);
      ModUnique(j, n, 0, j);
    }
  }

  lemma {:induction false} PowersDivide(n: nat, m: nat)
    requires IsPowerOfTwo(n) && IsPowerOfTwo(m) && n <= m
    ensures m % n == 0
  {
    if n > 1 {
      PowersDivide(n / 2, m / 2);
      var t := m / 2 / (n / 2);
      assert m / 2 == t * (n / 2);
      assert m == t * n;
      ModUnique(m, n, t, 0);
    }
  }

  lemma {:induction false} PowersMultiply(a: nat, b: nat)
    requires IsPowerOfTwo(a) && IsPowerOfTwo(b)
    ensures IsPowerOfTwo(a * b)
  {
    if a > 1 {
      PowersMultiply(a / 2, b);
      var h := (a / 2) * b;
      assert a * b == 2 * h by { assert a == 2 * (a / 2); }
      assert (2 * h) / 2 == h;
    }
  }

  lemma WordSizes()
    ensures IsPowerOfTwo(4) && IsPowerOfTwo(0x100) && IsPowerOfTwo(0x1_0000)
    ensures IsPowerOfTwo(TWO_TO_32) && IsPowerOfTwo(TWO_TO_64)
  {
    assert IsPowerOfTwo(2) && IsPowerOfTwo(4);
    PowersMultiply(4, 4);
    PowersMultiply(16, 16);
    PowersMultiply(0x100, 0x100);
    PowersMultiply(0x1_0000, 0x1_0000);
    PowersMultiply(TWO_TO_32, TWO_TO_32);
  }

  /** `usize::next_power_of_two`, with unbounded range. */
  function NextPowerOfTwo(n: nat): (r: nat)
    ensures IsPowerOfTwo(r) && r >= n && r >= 1
    ensures n >= 1 ==> r < 2 * n
  {
    if n <= 1 then 1 else 2 * NextPowerOfTwo((n + 1) / 2)
  }

  lemma {:induction false} NextPowerOfTwoIsLeast(n: nat, p: nat)
    requires IsPowerOfTwo(p) && p >= n
    ensures p >= NextPowerOfTwo(n)
  {
    if n > 1 {
      NextPowerOfTwoIsLeast((n + 1) / 2, p / 2);
    }
  }

  lemma {:induction false} RoundUp(n: nat, h: nat)
    requires IsPowerOfTwo(h) && h < n <= 2 * h
    ensures NextPowerOfTwo(n) == 2 * h
  {
    if h > 1 {
      RoundUp((n + 1) / 2, h / 2);
    }
  }

  // ---------- Exclusive or ----------

  function Bit(n: nat): nat { n % 2 }

  function Xor(a: nat, b: nat): (r: nat)
    decreases a + b
  {
    if a == 0 then b else if b == 0 then a
    else 2 * Xor(a / 2, b / 2) + (if Bit(a) == Bit(b) then 0 else 1)
  }

  /** Low bit and rest of an exclusive or: the step every proof below uses. */
  lemma XorStep(a: nat, b: nat)
    ensures Xor(a, b) / 2 == Xor(a / 2, b / 2)
    ensures Bit(Xor(a, b)) == if Bit(a) == Bit(b) then 0 else 1
  {
  }

  lemma {:induction false} XorBound(a: nat, b: nat, m: nat)
    requires IsPowerOfTwo(m) && a < m && b < m
    ensures Xor(a, b) < m
  {
    if m > 1 {
      XorBound(a / 2, b / 2, m / 2);
      XorStep(a, b);
    }
  }

  lemma {:induction false} XorAssoc(a: nat, b: nat, c: nat)
    ensures Xor(Xor(a, b), c) == Xor(a, Xor(b, c))
    decreases a + b + c
  {
    if a != 0 && b != 0 && c != 0 {
      XorAssoc(a / 2, b / 2, c / 2);
      XorStep(a, b);
      XorStep(b, c);
      XorStep(Xor(a, b), c);
      XorStep(a, Xor(b, c));
      assert Xor(Xor(a, b), c) / 2 == Xor(a, Xor(b, c)) / 2;
    }
  }

  lemma {:induction false} XorComm(a: nat, b: nat)
    ensures Xor(a, b) == Xor(b, a)
    decreases a + b
  {
    if a != 0 && b != 0 {
      XorComm(a / 2, b / 2);
    }
  }

  lemma {:induction false} XorSelf(a: nat)
    ensures Xor(a, a) == 0
  {
    if a != 0 {
      XorSelf(a / 2);
    }
  }

  lemma XorInjective(k: nat, a: nat, b: nat)
    requires Xor(k, a) == Xor(k, b)
    ensures a == b
  {
    XorAssoc(k, k, a);
    XorAssoc(k, k, b);
    XorSelf(k);
  }

  /** A common part cancels. */
  lemma XorCancel(k: nat, a: nat, b: nat)
    ensures Xor(Xor(k, a), Xor(k, b)) == Xor(a, b)
    ensures Xor(Xor(a, k), Xor(b, k)) == Xor(a, b)
  {
    XorComm(k, a);
    XorComm(k, b);
    XorAssoc(a, k, Xor(k, b));
    XorAssoc(k, k, b);
    XorSelf(k);
  }

  function Xor64(a: u64, b: u64): (r: u64)
    ensures r == Xor(a, b)
  {
    WordSizes();
    XorBound(a, b, TWO_TO_64);
    Xor(a, b)
  }

  // ---------- Byte order ----------

  function Pow256(k: nat): (r: nat)
    ensures r >= 1
  {
    if k == 0 then 1 else 256 * Pow256(k - 1)
  }

  /** The low `k` bytes of `n`, most significant first. */
  function ToBE(n: nat, k: nat): (s: seq<byte>)
    ensures |s| == k
    decreases k
  {
    if k == 0 then [] else ToBE(n / 256, k - 1) + [n % 256]
  }

  function FromBE(s: seq<byte>): (n: nat)
    ensures n < Pow256(|s|)
  {
    if s == [] then 0 else FromBE(s[..|s| - 1]) * 256 + s[|s| - 1]
  }

  /** An unaligned load on the little-endian machines the sources target. */
  function FromLE(s: seq<byte>): (n: nat)
    ensures n < Pow256(|s|)
  {
    if s == [] then 0 else s[0] + 256 * FromLE(s[1..])
  }

  lemma {:induction false} DecodeEncode(n: nat, k: nat)
    requires n < Pow256(k)
    ensures FromBE(ToBE(n, k)) == n
    decreases k
  {
    if k > 0 {
      DecodeEncode(n / 256, k - 1);
      assert ToBE(n, k)[..k - 1] == ToBE(n / 256, k - 1);
    }
  }

  lemma {:induction false} EncodeDecode(s: seq<byte>)
    ensures ToBE(FromBE(s), |s|) == s
  {
    if s != [] {
      var front, last := s[..|s| - 1], s[|s| - 1];
      EncodeDecode(front);
      assert FromBE(s) / 256 == FromBE(front) && FromBE(s) % 256 == last;
      assert s == front + [last];
    }
  }

  lemma DivDiv(n: nat, a: nat, b: nat)
    requires a > 0 && b > 0
    ensures a * b > 0 && n / a / b == n / (a * b)
  {
    var q := n / a / b;
    var r, t := n % a, n / a % b;
    assert n / a == q * b + t;
    assert n == (q * b + t) * a + r;
    MulAtLeast(1, a, t + 1, t);
    MulAtMost(t + 1, b, a);
    assert 0 <= t * a + r < a * b;
    assert (q * b + t) * a == q * (a * b) + t * a;
    ModUnique(n, a * b, q, t * a + r);
  }

  /** Byte `i` of `k` big-endian ones has weight 256^(k - 1 - i): the first is the most significant. */
  lemma {:induction false} ToBEDigit(n: nat, k: nat, i: nat)
    requires i < k
    ensures ToBE(n, k)[i] == n / Pow256(k - 1 - i) % 256
    decreases k
  {
    if i < k - 1 {
      ToBEDigit(n / 256, k - 1, i);
      DivDiv(n, 256, Pow256(k - 2 - i));
    }
  }

  lemma FromBEDigit(s: seq<byte>, i: nat)
    requires i < |s|
    ensures s[i] == FromBE(s) / Pow256(|s| - 1 - i) % 256
  {
    EncodeDecode(s);
    ToBEDigit(FromBE(s), |s|, i);
  }

  /** Byte `i` of a little-endian load has weight 256^i. */
  lemma {:induction false} FromLEDigit(s: seq<byte>, i: nat)
    requires i < |s|
    ensures s[i] == FromLE(s) / Pow256(i) % 256
    decreases i
  {
    var rest := FromLE(s[1..]);
    ModUnique(FromLE(s), 256, rest, s[0]);
    if i > 0 {
      FromLEDigit(s[1..], i - 1);
      DivDiv(FromLE(s), 256, Pow256(i - 1));
    }
  }

  /** Overwrites `|b|` elements of `s` from index `i`. */
  function Patch<T>(s: seq<T>, i: nat, b: seq<T>): (r: seq<T>)
    requires i + |b| <= |s|
    ensures |r| == |s|
  {
    s[..i] + b + s[i + |b|..]
  }

  /** A patch sets its own slice and keeps every slice beside it. */
  lemma PatchSlices<T>(s: seq<T>, i: nat, b: seq<T>)
    requires i + |b| <= |s|
    ensures Patch(s, i, b)[i..i + |b|] == b
    ensures forall j, k :: 0 <= j <= k <= i ==> Patch(s, i, b)[j..k] == s[j..k]
    ensures forall j, k :: i + |b| <= j <= k <= |s| ==> Patch(s, i, b)[j..k] == s[j..k]
  {
  }

  lemma SliceOfFront<T>(a: seq<T>, c: seq<T>)
    ensures forall j, k :: 0 <= j <= k <= |a| ==> (a + c)[j..k] == a[j..k]
  {
  }

  lemma PatchFront<T>(a: seq<T>, c: seq<T>, i: nat, b: seq<T>)
    requires i + |b| <= |a|
    ensures Patch(a + c, i, b) == Patch(a, i, b) + c
  {
  }
}
