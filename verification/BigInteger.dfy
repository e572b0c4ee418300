/**
 The multi-limb integers behind exact decimal-to-double conversion: an array of
 64-bit limbs, lowest first, changed in place.
 */
module BigIntegers {
  import opened Arithmetic

  const BASE := 0x1_0000_0000_0000_0000

  const HALF := 0x1_0000_0000

  type Limb = n: int | 0 <= n < 0x1_0000_0000_0000_0000

  type HalfLimb = n: int | 0 <= n < 0x1_0000_0000

  /** 3328 / sizeof(Type) limbs. */
  const CAPACITY := 416

  // ----- Limb sequences as numbers -----

  /** The weight of limb `n`. */
  function Weight(n: nat): (r: nat)
    ensures r > 0
  {
    Pow(BASE, n)
  }

  function Val(s: seq<Limb>): nat {
    if s == [] then 0 else Val(s[..|s| - 1]) + s[|s| - 1] * Weight(|s| - 1)
  }

  lemma NextWeight(n: nat)
    ensures Weight(n + 1) == BASE * Weight(n)
  {
  }

  lemma WeightMonotone(m: nat, n: nat)
    requires m <= n
    ensures Weight(m) <= Weight(n)
  {
    PowMonotone(BASE, m, n);
  }

  lemma ValExtend(s: seq<Limb>, i: nat)
    requires i < |s|
    ensures Val(s[..i + 1]) == Val(s[..i]) + s[i] * Weight(i)
  {
    assert s[..i + 1][..i] == s[..i];
  }

  lemma {:induction false} ValBound(s: seq<Limb>)
    ensures Val(s) < Weight(|s|)
  {
    if s != [] {
      var n := |s| - 1;
      ValBound(s[..n]);
      Multiply(s[n], BASE - 1, Weight(n));
      NextWeight(n);
    }
  }

  /** The top limb is not zero exactly when the number needs all the limbs. */
  lemma TopLimb(s: seq<Limb>)
    requires |s| > 0
    ensures s[|s| - 1] != 0 <==> Val(s) >= Weight(|s| - 1)
  {
    var n := |s| - 1;
    ValBound(s[..n]);
    if s[n] != 0 {
      Multiply(1, s[n], Weight(n));
    }
  }

  /** Numbers whose limbs agree from `i` on differ as their lower parts do. */
  lemma {:induction false} SameTop(s: seq<Limb>, t: seq<Limb>, i: nat)
    requires |s| == |t| && i <= |s|
    requires forall k :: i <= k < |s| ==> s[k] == t[k]
    ensures Val(s) - Val(t) == Val(s[..i]) - Val(t[..i])
  {
    if i == |s| {
      assert s[..i] == s && t[..i] == t;
    } else {
      var n := |s| - 1;
      SameTop(s[..n], t[..n], i);
      assert s[..n][..i] == s[..i] && t[..n][..i] == t[..i];
    }
  }

  lemma {:induction false} ZeroTop(s: seq<Limb>, i: nat)
    requires i <= |s| && forall k :: i <= k < |s| ==> s[k] == 0
    ensures Val(s) == Val(s[..i])
  {
    if i == |s| {
      assert s[..i] == s;
    } else {
      var n := |s| - 1;
      ZeroTop(s[..n], i);
      assert s[..n][..i] == s[..i];
    }
  }

  /** A number below a weight has no more limbs than that, in normal form. */
  lemma FewLimbs(s: seq<Limb>, n: nat)
    requires |s| > 0 && (|s| == 1 || s[|s| - 1] != 0)
    requires Val(s) < Weight(n) && n > 0
    ensures |s| <= n
  {
    TopLimb(s);
    if |s| > n {
      WeightMonotone(n, |s| - 1);
    }
  }

  // ----- Machine words -----

  /** Bitwise or. */
  function Or(x: nat, y: nat): nat
    decreases x + y
  {
    if x == 0 && y == 0 then 0
    else 2 * Or(x / 2, y / 2) + (if x % 2 == 1 || y % 2 == 1 then 1 else 0)
  }

  /** Or of a number and one below its lowest bits is their sum. */
  lemma {:induction false} OrDisjoint(x: nat, y: nat, k: nat)
    requires y < Pow(2, k)
    ensures Or(x * Pow(2, k), y) == x * Pow(2, k) + y
    decreases x + y, k
  {
    if k == 0 {
      assert y == 0;
      OrZero(x);
    } else if x == 0 && y == 0 {
    } else {
      var p := Pow(2, k - 1);
      assert x * (2 * p) == 2 * (x * p);
      if x == 0 {
        OrDisjoint(0, y / 2, k - 1);
      } else {
        OrDisjoint(x, y / 2, k - 1);
      }
    }
  }

  lemma {:induction false} OrZero(x: nat)
    ensures Or(x, 0) == x
  {
    if x > 0 {
      OrZero(x / 2);
    }
  }

  lemma HalfProduct(x: HalfLimb, y: HalfLimb)
    ensures 0 <= x * y <= (HALF - 1) * (HALF - 1)
  {
    Multiply(x, HALF - 1, y);
    Multiply(y, HALF - 1, HALF - 1);
  }

  lemma WordProduct(a: Limb, b: Limb)
    ensures 0 <= a * b <= (BASE - 1) * (BASE - 1)
  {
    Multiply(a, BASE - 1, b);
    Multiply(b, BASE - 1, BASE - 1);
  }

  /** A product of words from the products of their halves. */
  lemma HalvesProduct(a1: nat, a0: nat, b1: nat, b0: nat)
    ensures (a1 * HALF + a0) * (b1 * HALF + b0) == a1 * b1 * BASE + (a0 * b1 + a1 * b0) * HALF + a0 * b0
  {
    calc {
      (a1 * HALF + a0) * (b1 * HALF + b0);
      (a1 * HALF + a0) * (b1 * HALF) + (a1 * HALF + a0) * b0;
      (a1 * HALF + a0) * b1 * HALF + (a1 * HALF) * b0 + a0 * b0;
    }
  }

  /** The sum of the four products, word by word, when it fits two words. */
  lemma SumOfProducts(x0: Limb, x1: Limb, x2: Limb, x3: Limb, ab: int)
    requires x1 <= (HALF - 1) * (HALF - 1)
    requires ab == x3 * BASE + (x1 + x2) * HALF + x0 && ab <= (BASE - 1) * (BASE - 1)
    ensures x1 + x0 / HALF < BASE
    ensures var middle := (x1 + x0 / HALF + x2) % BASE;
            var top := if middle < x2 then x3 + HALF else x3;
            && (middle * HALF) % BASE + x0 % HALF < BASE
            && 0 <= top + middle / HALF < BASE - 1
            && (top + middle / HALF) * BASE + (middle * HALF) % BASE + x0 % HALF == ab
  {
    var sum := x1 + x0 / HALF + x2;
    var middle := sum % BASE;
    assert sum == middle + (if middle < x2 then BASE else 0);
    assert (middle * HALF) % BASE == middle % HALF * HALF;
  }

  lemma {:induction false} OrSymmetric(x: nat, y: nat)
    ensures Or(x, y) == Or(y, x)
    decreases x + y
  {
    if x > 0 || y > 0 {
      OrSymmetric(x / 2, y / 2);
    }
  }

  /** `a * b + k` as two words, computed from four products of half-words. */
  method MulAdd64(a: Limb, b: Limb, k: Limb) returns (low: Limb, high: Limb)
    ensures high * BASE + low == a * b + k
  {
    var a0: HalfLimb, a1: HalfLimb, b0: HalfLimb, b1: HalfLimb := a % HALF, a / HALF, b % HALF, b / HALF;
    HalfProduct(a0, b0);
    HalfProduct(a0, b1);
    HalfProduct(a1, b0);
    HalfProduct(a1, b1);
    WordProduct(a, b);
    HalvesProduct(a1, a0, b1, b0);
    low, high := AddProducts(a0 * b0, a0 * b1, a1 * b0, a1 * b1, k, a * b);
  }

  /** The second half of `MulAdd64`: the products are added up word by word. */
  method AddProducts(x0: Limb, y1: Limb, x2: Limb, y3: Limb, k: Limb, ghost ab: int) returns (low: Limb, high: Limb)
    requires y1 <= (HALF - 1) * (HALF - 1)
    requires ab == y3 * BASE + (y1 + x2) * HALF + x0 && ab <= (BASE - 1) * (BASE - 1)
    ensures high * BASE + low == ab + k
  {
    SumOfProducts(x0, y1, x2, y3, ab);
    var x1: Limb, x3: Limb := y1, y3;
    x1 := x1 + x0 / HALF;
    x1 := (x1 + x2) % BASE;
    if x1 < x2 {
      x3 := x3 + HALF;
    }
    low := (x1 * HALF) % BASE + x0 % HALF;
    high := x3 + x1 / HALF;
    low := (low + k) % BASE;
    if low < k {
      high := high + 1;
    }
  }

  // ----- Addition of a word, limb by limb -----

  /** `now` is `was + u` in the limbs below `i`, up to a carry into limb `i`, and is `was` above. */
  ghost predicate Added(now: seq<Limb>, was: seq<Limb>, i: nat, carry: bool, u: Limb) {
    && |now| == |was| && i <= |was|
    && (forall k :: i <= k < |was| ==> now[k] == was[k])
    && Val(now[..i]) + (if carry then Weight(i) else 0) == Val(was[..i]) + u
  }

  lemma AddFirst(was: seq<Limb>, u: Limb)
    requires |was| > 0
    ensures var low := (was[0] + u) % BASE; Added(was[0 := low], was, 1, low < was[0], u)
  {
    var now := was[0 := (was[0] + u) % BASE];
    ValExtend(was, 0);
    ValExtend(now, 0);
    NextWeight(0);
  }

  lemma AddNext(now: seq<Limb>, was: seq<Limb>, i: nat, u: Limb)
    requires i < |was| && Added(now, was, i, true, u)
    ensures var low := (now[i] + 1) % BASE; Added(now[i := low], was, i + 1, low < now[i], u)
  {
    hide Val, Weight;
    var low := (now[i] + 1) % BASE;
    var next := now[i := low];
    ValExtend(was, i);
    ValExtend(next, i);
    NextWeight(i);
    assert next[..i] == now[..i];
    var w := Weight(i);
    if low < now[i] {
      assert low == 0 && now[i] == BASE - 1;
      assert (BASE - 1) * w + w == BASE * w;
    } else {
      assert low * w == now[i] * w + w;
    }
  }

  lemma AddDone(now: seq<Limb>, was: seq<Limb>, i: nat, u: Limb)
    requires Added(now, was, i, false, u)
    ensures Val(now) == Val(was) + u
  {
    SameTop(now, was, i);
  }

  lemma AddCarry(now: seq<Limb>, was: seq<Limb>, u: Limb)
    requires Added(now, was, |was|, true, u)
    ensures Val(now + [1]) == Val(was) + u
  {
    assert was[..|was|] == was && now[..|was|] == now && (now + [1])[..|was|] == now;
  }

  /** A number at least as large keeps a top limb that is not zero. */
  lemma StaysNormal(now: seq<Limb>, was: seq<Limb>)
    requires |now| == |was| > 0 && Val(now) >= Val(was)
    ensures was[|was| - 1] != 0 ==> now[|now| - 1] != 0
  {
    TopLimb(now);
    TopLimb(was);
  }

  // ----- Multiplication by a word, limb by limb -----

  /** `now` is `was * u` in the limbs below `i`, up to a carry `k` into limb `i`, and is `was` above. */
  ghost predicate Multiplied(now: seq<Limb>, was: seq<Limb>, i: nat, k: Limb, u: Limb) {
    && |now| == |was| && i <= |was|
    && (forall j :: i <= j < |was| ==> now[j] == was[j])
    && Val(now[..i]) + k * Weight(i) == Val(was[..i]) * u
  }

  lemma MultiplyNext(now: seq<Limb>, was: seq<Limb>, i: nat, k: Limb, u: Limb, low: Limb, high: Limb)
    requires i < |was| && Multiplied(now, was, i, k, u)
    requires high * BASE + low == now[i] * u + k
    ensures Multiplied(now[i := low], was, i + 1, high, u)
  {
    hide Val, Weight;
    var next := now[i := low];
    ValExtend(was, i);
    ValExtend(next, i);
    NextWeight(i);
    assert next[..i] == now[..i];
    var w, d, v := Weight(i), was[i], Val(was[..i]);
    calc {
      (v + d * w) * u;
      v * u + d * w * u;
      { ProductSwap(d, w, u); }
      Val(now[..i]) + k * w + d * u * w;
      { ProductSum(k, d * u, w); }
      Val(now[..i]) + (high * BASE + low) * w;
      { ProductSum(high * BASE, low, w); Associative(high, BASE, w); }
      Val(now[..i]) + low * w + high * (BASE * w);
    }
  }

  lemma ProductSwap(x: int, y: int, z: int)
    ensures x * y * z == x * z * y
  {
  }

  lemma ProductSum(x: int, y: int, z: int)
    ensures (x + y) * z == x * z + y * z
  {
  }

  lemma MultiplyDone(now: seq<Limb>, was: seq<Limb>, k: Limb, u: Limb)
    requires Multiplied(now, was, |was|, k, u)
    ensures Val(if k > 0 then now + [k] else now) == Val(was) * u
  {
    assert was[..|was|] == was && now[..|was|] == now && (now + [k])[..|was|] == now;
  }

  lemma WordPowers()
    ensures Pow(2, 32) == HALF && Pow(2, 64) == BASE
  {
    hide Pow;
    PowOne(2);
    PowAdd(2, 1, 1);
    PowAdd(2, 2, 2);
    PowAdd(2, 4, 4);
    PowAdd(2, 8, 8);
    PowAdd(2, 16, 16);
    PowAdd(2, 32, 32);
  }

  lemma MultiplyFirst(was: seq<Limb>, u: Limb)
    ensures Multiplied(was, was, 0, 0, u)
  {
  }

  lemma OneLimb(s: seq<Limb>)
    requires |s| == 1
    ensures Val(s) == s[0]
  {
    NextWeight(0);
    assert s[..0] == [];
  }

  /** A word times a half-word, from the halves of the word. */
  lemma HalfWordStep(d: Limb, u: HalfLimb, k: HalfLimb)
    ensures u * (d / HALF) < BASE && u * (d % HALF) + k < BASE
    ensures var p0 := u * (d % HALF) + k;
            var p1 := u * (d / HALF) + p0 / HALF;
            && p1 < BASE
            && Or(p0 % HALF, (p1 * HALF) % BASE) < BASE
            && p1 / HALF * BASE + Or(p0 % HALF, (p1 * HALF) % BASE) == d * u + k
  {
    var c: HalfLimb, e: HalfLimb := d / HALF, d % HALF;
    HalfProduct(u, c);
    HalfProduct(u, e);
    assert d * u == u * c * HALF + u * e;
    HalfWordSum(u * c, u * e, k);
  }

  lemma HalfWordSum(uc: nat, ue: nat, k: HalfLimb)
    requires uc <= (HALF - 1) * (HALF - 1) && ue <= (HALF - 1) * (HALF - 1)
    ensures var p0 := ue + k;
            var p1 := uc + p0 / HALF;
            && p0 < BASE && p1 < BASE
            && Or(p0 % HALF, (p1 * HALF) % BASE) < BASE
            && p1 / HALF * BASE + Or(p0 % HALF, (p1 * HALF) % BASE) == uc * HALF + ue + k
  {
    var p0 := ue + k;
    var p1 := uc + p0 / HALF;
    assert (p1 * HALF) % BASE == p1 % HALF * HALF;
    WordPowers();
    OrSymmetric(p0 % HALF, p1 % HALF * HALF);
    OrDisjoint(p1 % HALF, p0 % HALF, 32);
  }

  // ----- Shifting left -----

  lemma Quotient(n: nat, a: nat, m: nat, r: nat)
    requires n == a * m + r && r < m
    ensures n / m == a && n % m == r
  {
    var q, t := n / m, n % m;
    assert n == q * m + t;
    assert (q - a) * m == r - t;
    if q > a {
      Multiply(1, q - a, m);
    } else if q < a {
      Multiply(1, a - q, m);
    }
  }

  /** What a limb keeps in place when shifted by `shift` bits, and what it hands to the next one. */
  function Low(x: Limb, shift: nat): Limb {
    (x * Pow(2, shift)) % BASE
  }

  function High(x: Limb, shift: nat): (r: Limb)
    requires 0 < shift < 64
  {
    QuotientBelow(x, Pow(2, 64 - shift));
    x / Pow(2, 64 - shift)
  }

  lemma QuotientBelow(x: nat, m: nat)
    requires m > 0
    ensures 0 <= x / m <= x
  {
    var q, r := x / m, x % m;
    assert x == q * m + r;
    Multiply(1, m, q);
  }

  lemma ShiftParts(x: Limb, shift: nat)
    requires 0 < shift < 64
    ensures Low(x, shift) + High(x, shift) * BASE == x * Pow(2, shift)
    ensures Low(x, shift) == x % Pow(2, 64 - shift) * Pow(2, shift)
    ensures High(x, shift) < Pow(2, shift)
    ensures Low(x, shift) <= BASE - Pow(2, shift)
  {
    hide Pow;
    var p, q := Pow(2, shift), Pow(2, 64 - shift);
    WordPowers();
    PowAdd(2, shift, 64 - shift);
    PartsProduct(x, p, q);
    Quotient(x * p, x / q, BASE, x % q * p);
  }

  lemma PartsProduct(x: nat, p: nat, q: nat)
    requires p > 0 && q > 0 && p * q == BASE && x < BASE
    ensures x * p == x / q * BASE + x % q * p
    ensures x / q < p && x % q * p <= BASE - p
  {
    var h, r := x / q, x % q;
    assert x == h * q + r;
    ProductSum(h * q, r, p);
    Associative(h, q, p);
    Multiply(r, q - 1, p);
    ProductSum(q, -1, p);
    if h >= p {
      Multiply(p, h, q);
    }
  }

  /** The parts that meet in a limb have no bits in common. */
  lemma JoinParts(x: Limb, y: Limb, shift: nat)
    requires 0 < shift < 64
    ensures Or(Low(x, shift), High(y, shift)) == Low(x, shift) + High(y, shift) < BASE
  {
    hide Pow, Low, High, Or;
    ShiftParts(x, shift);
    ShiftParts(y, shift);
    OrDisjoint(x % Pow(2, 64 - shift), High(y, shift), shift);
  }

  function LimbAt(s: seq<Limb>, i: int): Limb {
    if 0 <= i < |s| then s[i] else 0
  }

  /** The limb at `i` when `was` is shifted by `shift` bits. */
  function ShiftedLimb(was: seq<Limb>, shift: nat, i: nat): (r: Limb)
    requires 0 < shift < 64
  {
    ShiftParts(LimbAt(was, i), shift);
    ShiftParts(LimbAt(was, i - 1), shift);
    Low(LimbAt(was, i), shift) + High(LimbAt(was, i - 1), shift)
  }

  /** The limbs of `was` shifted by `shift` bits, with room for a carry. */
  function ShiftLimbs(was: seq<Limb>, shift: nat): (r: seq<Limb>)
    requires 0 < shift < 64
  {
    seq(|was| + 1, i requires 0 <= i => ShiftedLimb(was, shift, i))
  }

  lemma {:induction false} ShiftBelow(was: seq<Limb>, shift: nat, i: nat)
    requires 0 < shift < 64 && i <= |was|
    ensures Val(ShiftLimbs(was, shift)[..i]) + High(LimbAt(was, i - 1), shift) * Weight(i) == Val(was[..i]) * Pow(2, shift)
  {
    hide Pow, Weight, Low, High;
    var shifted := ShiftLimbs(was, shift);
    if i == 0 {
      ShiftParts(0, shift);
      assert shifted[..0] == [] && was[..0] == [];
      assert High(0, shift) == 0 by { HighZero(shift); }
    } else {
      hide Val;
      var n, p := i - 1, Pow(2, shift);
      ShiftBelow(was, shift, n);
      ValExtend(was, n);
      ValExtend(shifted, n);
      NextWeight(n);
      ShiftParts(was[n], shift);
      var w, low, high, carry := Weight(n), Low(was[n], shift), High(was[n], shift), High(LimbAt(was, n - 1), shift);
      calc {
        Val(was[..i]) * p;
        { ProductSum(Val(was[..n]), was[n] * w, p); ProductSwap(was[n], w, p); }
        Val(was[..n]) * p + was[n] * p * w;
        { ProductSum(low, high * BASE, w); Associative(high, BASE, w); }
        Val(was[..n]) * p + low * w + high * (BASE * w);
        { ProductSum(low, carry, w); }
        Val(shifted[..n]) + (low + carry) * w + high * (BASE * w);
      }
    }
  }

  lemma HighZero(shift: nat)
    requires 0 < shift < 64
    ensures High(0, shift) == 0 && Low(0, shift) == 0
  {
  }

  lemma ShiftValue(was: seq<Limb>, shift: nat)
    requires 0 < shift < 64
    ensures Val(ShiftLimbs(was, shift)) == Val(was) * Pow(2, shift)
  {
    hide Pow, Weight, Low, High, Val;
    var n := |was|;
    var shifted := ShiftLimbs(was, shift);
    ShiftBelow(was, shift, n);
    ValExtend(shifted, n);
    HighZero(shift);
    assert shifted[..n + 1] == shifted && was[..n] == was;
  }

  function Zeros(n: nat): seq<Limb> {
    seq(n, _ => 0)
  }

  /** Limbs moved up by whole words. */
  lemma {:induction false} ZerosBelow(n: nat, s: seq<Limb>)
    ensures Val(Zeros(n) + s) == Val(s) * Weight(n)
  {
    hide Weight;
    if s == [] {
      ZeroTop(Zeros(n), 0);
      assert Zeros(n) + s == Zeros(n);
    } else {
      var k := |s| - 1;
      var all := Zeros(n) + s;
      ZerosBelow(n, s[..k]);
      assert all[..n + k] == Zeros(n) + s[..k];
      WeightSum(n, k);
      ProductSum(Val(s[..k]), s[k] * Weight(k), Weight(n));
      Associative(s[k], Weight(k), Weight(n));
    }
  }

  lemma WeightSum(m: nat, n: nat)
    ensures Weight(m + n) == Weight(n) * Weight(m)
  {
    PowAdd(BASE, m, n);
  }

  lemma {:induction false} WeightBits(n: nat)
    ensures Weight(n) == Pow(2, 64 * n)
  {
    if n > 0 {
      WeightBits(n - 1);
      WordPowers();
      PowAdd(2, 64, 64 * (n - 1));
    }
  }

  lemma ShiftWeight(shift: nat)
    ensures Pow(2, shift) == Pow(2, shift % 64) * Weight(shift / 64)
  {
    WeightBits(shift / 64);
    PowAdd(2, shift % 64, 64 * (shift / 64));
  }

  /** What a shift within a word leaves: no top limb if it would be zero. */
  ghost predicate IsShifted(shifted: seq<Limb>, was: seq<Limb>, bits: nat)
    requires bits < 64
  {
    if bits == 0 then shifted == was
    else
      var all := ShiftLimbs(was, bits);
      shifted == if all[|was|] == 0 then all[..|was|] else all
  }

  lemma ShiftedWithin(shifted: seq<Limb>, was: seq<Limb>, bits: nat)
    requires bits < 64 && IsShifted(shifted, was, bits)
    ensures Val(shifted) == Val(was) * Pow(2, bits)
  {
    hide Val, Pow;
    if bits == 0 {
      NoShift();
    } else {
      ShiftValue(was, bits);
      ZeroTop(ShiftLimbs(was, bits), if ShiftLimbs(was, bits)[|was|] == 0 then |was| else |was| + 1);
    }
  }

  /** What a shift leaves: zeros for the whole words, then the shifted limbs. */
  lemma ShiftedValue(shifted: seq<Limb>, was: seq<Limb>, shift: nat)
    requires IsShifted(shifted, was, shift % 64)
    ensures Val(Zeros(shift / 64) + shifted) == Val(was) * Pow(2, shift)
  {
    hide Weight, Val, Pow, IsShifted;
    var offset, bits := shift / 64, shift % 64;
    ShiftedWithin(shifted, was, bits);
    ZerosBelow(offset, shifted);
    ShiftWeight(shift);
    Associative(Val(was), Pow(2, bits), Weight(offset));
  }

  lemma NoShift()
    ensures Pow(2, 0) == 1
  {
  }

  lemma ProductGrows(a: nat, v: nat, p: nat, b: nat)
    requires a <= v && p > 0
    ensures b * a <= v * (p * b)
  {
    Multiply(a, v, b);
    Multiply(1, p, v * b);
    Associative(p, v, b);
    ProductSwap(v, p, b);
    Associative(v, p, b);
  }

  lemma ShiftNormal(now: seq<Limb>, was: seq<Limb>, shift: nat)
    requires |was| > 0 && was[|was| - 1] != 0 && Val(now) == Val(was) * Pow(2, shift)
    requires |now| == |was| + shift / 64
    ensures now[|now| - 1] != 0
  {
    hide Val, Weight, Pow;
    var n, offset := |was| - 1, shift / 64;
    TopLimb(was);
    TopLimb(now);
    ShiftWeight(shift);
    WeightSum(offset, n);
    ProductGrows(Weight(n), Val(was), Pow(2, shift % 64), Weight(offset));
  }

  function IndexRange(lo: int, hi: int): (r: set<int>)
    ensures forall k :: k in r <==> lo <= k < hi
    decreases hi - lo
  {
    if lo >= hi then {} else {lo} + IndexRange(lo + 1, hi)
  }

  /**
   The limbs that `<<=` writes, as `ShiftLeft` reports them: the cleared one, the
   moved ones and the zeros below.
   */
  predicate ShiftWrites(count: nat, shift: nat, i: int) {
    var offset := shift / 64;
    if shift % 64 == 0 then offset <= i < offset + count || 0 <= i < offset
    else i == count || offset < i <= offset + count || i == offset || 0 <= i < offset
  }

  predicate ShiftFits(count: nat, shift: nat) {
    count + shift / 64 + (if shift % 64 == 0 then 0 else 1) <= CAPACITY
  }

  /** The writes stay within the limbs if and only if there is room for the shifted ones, and one more if bits cross words. */
  lemma ShiftStaysInside(count: nat, shift: nat)
    requires count > 0 && shift > 0
    ensures ShiftFits(count, shift) <==> forall i :: ShiftWrites(count, shift, i) ==> 0 <= i < CAPACITY
  {
    var last := count + shift / 64 - (if shift % 64 == 0 then 1 else 0);
    assert ShiftWrites(count, shift, last);
  }

  /** With all limbs in use, a shift by one bit meets the source's assertion and writes past the last limb. */
  lemma ShiftPastTheEnd()
    ensures CAPACITY + 1 / 64 <= CAPACITY && ShiftWrites(CAPACITY, 1, CAPACITY) && !ShiftFits(CAPACITY, 1)
  {
  }

  // ----- Powers of five and decimal chunks -----

  const POW5: seq<HalfLimb> := [
    5, 25, 125, 625, 3125, 15625, 78125, 390625, 1953125, 9765625, 48828125, 244140625
  ]

  lemma {:induction false} Pow5Entry(exp: nat)
    requires 1 <= exp <= 12
    ensures POW5[exp - 1] == Pow(5, exp)
  {
    if exp == 1 {
      PowOne(5);
    } else {
      Pow5Entry(exp - 1);
    }
  }

  lemma Pow5Words()
    ensures Pow(5, 13) == 1220703125 && Pow(5, 27) == 0x6765_C793_FA10_079D
  {
    hide Pow;
    Pow5Entry(1);
    Pow5Entry(12);
    PowAdd(5, 12, 1);
    PowAdd(5, 13, 13);
    PowAdd(5, 26, 1);
  }

  function TimesPow5(v: nat, n: nat): nat {
    v * Pow(5, n)
  }

  /** A further factor within the whole power. */
  lemma Pow5Step(v: nat, done: nat, step: nat, all: nat)
    requires done + step <= all
    ensures TimesPow5(v, done) * Pow(5, step) == TimesPow5(v, done + step) <= TimesPow5(v, all)
  {
    hide Pow;
    PowAdd(5, done, step);
    Associative(v, Pow(5, done), Pow(5, step));
    PowMonotone(5, done + step, all);
    Multiply(Pow(5, done + step), Pow(5, all), v);
  }

  lemma TenIsFiveTwo(v: nat, n: nat)
    ensures v * Pow(5, n) * Pow(2, n) == v * Pow(10, n)
    ensures v * Pow(5, n) <= v * Pow(10, n)
  {
    hide Pow;
    PowProduct(5, 2, n);
    Associative(v, Pow(5, n), Pow(2, n));
    Multiply(1, Pow(2, n), v * Pow(5, n));
  }

  /** Nineteen decimal digits fit a limb. */
  lemma {:induction false} TenWeight(k: nat)
    ensures Pow(10, 19 * k) <= Weight(k)
  {
    if k > 0 {
      TenWeight(k - 1);
      TenWord();
      PowAdd(10, 19, 19 * (k - 1));
      Multiply(Pow(10, 19), BASE, Pow(10, 19 * (k - 1)));
      Multiply(Pow(10, 19 * (k - 1)), Weight(k - 1), BASE);
    }
  }

  lemma TenWord()
    ensures Pow(10, 19) < BASE
  {
    hide Pow;
    PowOne(10);
    PowAdd(10, 1, 1);
    PowAdd(10, 2, 2);
    PowAdd(10, 4, 4);
    PowAdd(10, 8, 8);
    PowAdd(10, 16, 2);
    PowAdd(10, 18, 1);
  }

  /** The number of chunks of nineteen digits. */
  function Chunks(length: nat): nat {
    (length + 18) / 19
  }

  lemma DecimalFits(t: string)
    requires AllDigits(t)
    ensures Decimal(t) < Pow(10, |t|) <= Weight(Chunks(|t|))
  {
    hide Pow, Decimal, Weight;
    DecimalBound(t);
    PowMonotone(10, |t|, 19 * Chunks(|t|));
    TenWeight(Chunks(|t|));
  }

  lemma Pow5Zero(v: nat)
    ensures TimesPow5(v, 0) == v
  {
  }

  /** There is room for the next chunk, and appending it continues the numeral. */
  lemma AppendNext(t: string, i: nat, n: nat)
    requires AllDigits(t) && i + n <= |t| <= 19 * (CAPACITY - 1)
    ensures AllDigits(t[..i]) && AllDigits(t[i..i + n]) && AllDigits(t[..i + n])
    ensures (Decimal(t[..i]) + 1) * Pow(10, n) <= Weight(CAPACITY - 1)
    ensures Decimal(t[..i + n]) == Decimal(t[..i]) * Pow(10, n) + Decimal(t[i..i + n])
  {
    hide Pow, Decimal, Weight;
    DecimalBound(t[..i]);
    Multiply(Decimal(t[..i]) + 1, Pow(10, i), Pow(10, n));
    PowAdd(10, i, n);
    PowMonotone(10, i + n, 19 * (CAPACITY - 1));
    TenWeight(CAPACITY - 1);
    DecimalConcat(t[..i], t[i..i + n]);
    assert t[..i + n] == t[..i] + t[i..i + n];
  }

  /** `ParseUint64` of at most nineteen digits: the word never wraps. */
  method ParseUint64(t: string) returns (r: Limb)
    requires AllDigits(t) && |t| <= 19
    ensures r == Decimal(t)
  {
    hide Decimal, Pow;
    r := 0;
    var i := 0;
    assert t[..0] == "" && Decimal("") == 0 by { EmptyDecimal(); }
    while i < |t|
      invariant 0 <= i <= |t| && r == Decimal(t[..i])
    {
      DecimalLast(t[..i], t[i]);
      assert t[..i + 1] == t[..i] + [t[i]];
      DecimalBound(t[..i + 1]);
      PowMonotone(10, i + 1, 19);
      TenWord();
      r := (r * 10 + Digit(t[i])) % BASE;
      i := i + 1;
    }
    assert t[..|t|] == t;
  }

  lemma EmptyDecimal()
    ensures AllDigits("") && Decimal("") == 0
  {
  }

  // ----- Order and difference -----

  /** Numbers with equal limbs above `i` are ordered as their limbs at `i`. */
  lemma OrderedByLimb(s: seq<Limb>, t: seq<Limb>, i: nat)
    requires |s| == |t| && i < |s| && s[i] < t[i]
    requires forall k :: i < k < |s| ==> s[k] == t[k]
    ensures Val(s) < Val(t)
  {
    hide Val, Weight;
    SameTop(s, t, i + 1);
    ValExtend(s, i);
    ValExtend(t, i);
    ValBound(s[..i]);
    Multiply(1, t[i] - s[i], Weight(i));
    ProductSum(s[i], t[i] - s[i], Weight(i));
  }

  /** Normal forms are ordered by their number of limbs first. */
  lemma OrderedByCount(s: seq<Limb>, t: seq<Limb>)
    requires 0 < |s| < |t| && t[|t| - 1] != 0
    ensures Val(s) < Val(t)
  {
    hide Val, Weight;
    ValBound(s);
    WeightMonotone(|s|, |t| - 1);
    TopLimb(t);
  }

  /** The number in the limbs below `i`. */
  function Lower(s: seq<Limb>, i: nat): nat {
    if i < |s| then Val(s[..i]) else Val(s)
  }

  lemma LowerNext(s: seq<Limb>, i: nat)
    ensures Lower(s, i + 1) == Lower(s, i) + LimbAt(s, i) * Weight(i)
  {
    hide Val, Weight;
    if i < |s| {
      ValExtend(s, i);
      assert s[..|s|] == s;
    }
  }

  /** A borrow into limb `i` of a subtraction where the subtrahend's limb is all ones. */
  ghost predicate LosesBorrow(a: seq<Limb>, b: seq<Limb>, i: nat) {
    i < |b| && b[i] == BASE - 1 && Lower(a, i) < Lower(b, i)
  }

  ghost predicate BorrowsKept(a: seq<Limb>, b: seq<Limb>, n: nat) {
    forall i :: 0 <= i < n ==> !LosesBorrow(a, b, i)
  }

  /**
   The state of `Difference` before limb `i`: `out` is the difference of the
   lower limbs up to the borrow, plus the weight of the borrows that were lost.
   */
  ghost predicate Subtracted(out: seq<Limb>, a: seq<Limb>, b: seq<Limb>, borrow: Limb, lost: nat) {
    var i := |out|;
    && borrow <= 1
    && Val(out) == Lower(a, i) - Lower(b, i) + borrow * Weight(i) + lost
    && (lost == 0 <==> BorrowsKept(a, b, i))
    && (lost == 0 ==> borrow == if Lower(a, i) < Lower(b, i) then 1 else 0)
  }

  /** The limb of a difference and the borrow that the comparison with the minuend's limb finds. */
  function DifferenceLimb(x: Limb, y: Limb, borrow: Limb): Limb {
    ((x - borrow) % BASE - y) % BASE
  }

  lemma DifferenceParts(x: Limb, y: Limb, borrow: Limb)
    requires borrow <= 1
    ensures var d := DifferenceLimb(x, y, borrow);
            var found := if d > x then 1 else 0;
            var missed := if borrow == 1 && y == BASE - 1 then 1 else 0;
            d == x - borrow - y + (found + missed) * BASE
  {
  }

  lemma SubtractNext(out: seq<Limb>, a: seq<Limb>, b: seq<Limb>, borrow: Limb, lost: nat) returns (more: nat)
    requires Subtracted(out, a, b, borrow, lost) && |out| < |a| && |b| <= |a|
    ensures var i := |out|;
            var d := DifferenceLimb(a[i], LimbAt(b, i), borrow);
            Subtracted(out + [d], a, b, if d > a[i] then 1 else 0, more)
  {
    hide Val, Weight, Lower;
    var i := |out|;
    var x, y, w := a[i], LimbAt(b, i), Weight(i);
    var d := DifferenceLimb(x, y, borrow);
    var found := if d > x then 1 else 0;
    var missed := if borrow == 1 && y == BASE - 1 then 1 else 0;
    DifferenceParts(x, y, borrow);
    more := lost + missed * (BASE * w);
    LowerNext(a, i);
    LowerNext(b, i);
    NextWeight(i);
    var next := out + [d];
    ValExtend(next, i);
    assert next[..i] == out && next[..i + 1] == next;
    calc {
      d * w;
      { DifferenceProduct(x, y, borrow, found + missed, w); }
      x * w - borrow * w - y * w + (found + missed) * (BASE * w);
      { ProductSum(found, missed, BASE * w); }
      x * w - borrow * w - y * w + found * (BASE * w) + missed * (BASE * w);
    }
    assert Val(next) == Lower(a, i + 1) - Lower(b, i + 1) + found * Weight(i + 1) + more;
    ValBound(next);
    assert missed == 1 && lost == 0 ==> LosesBorrow(a, b, i);
    assert lost == 0 && missed == 0 ==> !LosesBorrow(a, b, i);
  }

  lemma DifferenceProduct(x: int, y: int, borrow: int, carry: int, w: int)
    ensures (x - borrow - y + carry * BASE) * w == x * w - borrow * w - y * w + carry * (BASE * w)
  {
    ProductSum(x - borrow - y, carry * BASE, w);
    ProductSum(x - borrow, -y, w);
    ProductSum(x, -borrow, w);
    Associative(carry, BASE, w);
  }

  lemma SubtractFirst(a: seq<Limb>, b: seq<Limb>)
    ensures Subtracted([], a, b, 0, 0)
  {
    assert a[..0] == [] && b[..0] == [];
  }

  lemma ZeroValue(s: seq<Limb>)
    requires forall k :: 0 <= k < |s| ==> s[k] == 0
    ensures Val(s) == 0
  {
    ZeroTop(s, 0);
    assert s[..0] == [];
  }

  /** `count` is that of the last limb that is not zero, if there is one. */
  ghost predicate Trimmed(s: seq<Limb>, count: nat) {
    || (forall k :: 0 <= k < |s| ==> s[k] == 0)
    || (0 < count <= |s| && s[count - 1] != 0 && forall k :: count <= k < |s| ==> s[k] == 0)
  }

  lemma TrimZeros(s: seq<Limb>, count: nat)
    requires Val(s) > 0 && Trimmed(s, count)
    ensures 0 < count <= |s| && s[count - 1] != 0 && Val(s[..count]) == Val(s)
  {
    if forall k :: 0 <= k < |s| ==> s[k] == 0 {
      ZeroValue(s);
    } else {
      ZeroTop(s, count);
    }
  }

  lemma SubtractedBorrow(out: seq<Limb>, a: seq<Limb>, b: seq<Limb>, borrow: Limb, lost: nat)
    requires Subtracted(out, a, b, borrow, lost)
    ensures borrow <= 1
  {
  }

  /** After the last limb nothing is borrowed, and the lost borrows are the only error. */
  lemma SubtractDone(out: seq<Limb>, a: seq<Limb>, b: seq<Limb>, borrow: Limb, lost: nat)
    requires Subtracted(out, a, b, borrow, lost) && |out| == |a| && |b| <= |a| && Val(a) > Val(b)
    ensures Val(out) == Val(a) - Val(b) + lost
    ensures lost == 0 <==> BorrowsKept(a, b, |b|)
  {
    hide Val, Weight;
    assert a[..|a|] == a;
    ValBound(out);
  }

  /** Two normal forms whose difference comes out wrong. */
  lemma BorrowIsLost()
    ensures var a, b := [0, 0, 1], [1, BASE - 1];
            Val(b) < Val(a) && !BorrowsKept(a, b, 2)
  {
    var a: seq<Limb>, b: seq<Limb> := [0, 0, 1], [1, BASE - 1];
    OrderedByCount(b, a);
    OneLimb(a[..1]);
    OneLimb(b[..1]);
    assert LosesBorrow(a, b, 1);
  }

  /** A limb is pushed only if the number needs it. */
  lemma CarryFits(low: seq<Limb>, top: Limb)
    requires top > 0 && |low| <= CAPACITY && Val(low + [top]) < Weight(CAPACITY)
    ensures |low| < CAPACITY
  {
    TopLimb(low + [top]);
  }

  // ----- The class -----

  class BigInteger {
    const digits: array<Limb>
    var count: nat

    ghost predicate Valid()
      reads this
    {
      digits.Length == CAPACITY && 1 <= count <= CAPACITY
    }

    /** The number held. */
    ghost function Value(): nat
      requires Valid()
      reads this, digits
    {
      Val(digits[..count])
    }

    /** A single limb, or a top limb that is not zero. */
    ghost predicate Normal()
      requires Valid()
      reads this, digits
    {
      count == 1 || digits[count - 1] != 0
    }

    constructor (u: Limb)
      ensures Valid() && Normal() && Value() == u && fresh(digits) && digits[..count] == [u]
    {
      digits := new Limb[CAPACITY](_ => 0);
      count := 1;
      new;
      digits[0] := u;
      ValExtend(digits[..], 0);
      assert digits[..][..1] == digits[..1];
    }

    /** Assignment of a word. */
    method Set(u: Limb)
      requires Valid()
      modifies this`count, digits
      ensures Valid() && Normal() && Value() == u
    {
      digits[0] := u;
      count := 1;
      ValExtend(digits[..], 0);
      assert digits[..][..1] == digits[..1];
    }

    function IsZero(): (zero: bool)
      requires Valid()
      reads this, digits
    {
      count == 1 && digits[0] == 0
    }

    method PushBack(digit: Limb)
      requires Valid() && count < CAPACITY
      modifies this`count, digits
      ensures Valid() && count == old(count) + 1
      ensures digits[..count] == old(digits[..count]) + [digit]
    {
      digits[count] := digit;
      count := count + 1;
    }

    /** `+=`. */
    method Add(u: Limb)
      requires Valid() && Value() + u < Weight(CAPACITY)
      modifies this`count, digits
      ensures Valid() && Value() == old(Value()) + u
      ensures old(Normal()) ==> Normal()
    {
      hide Val, Weight, Added;
      ghost var was := digits[..count];
      var backup := digits[0];
      digits[0] := (digits[0] + u) % BASE;
      AddFirst(was, u);
      assert digits[..count] == was[0 := digits[0]];
      var i := 0;
      while i < count - 1
        invariant 0 <= i < count == |was|
        invariant Added(digits[..count], was, i + 1, digits[i] < backup, u)
      {
        ghost var now := digits[..count];
        if digits[i] >= backup {
          AddDone(now, was, i + 1, u);
          StaysNormal(now, was);
          return;
        }
        backup := digits[i + 1];
        digits[i + 1] := (digits[i + 1] + 1) % BASE;
        AddNext(now, was, i + 1, u);
        assert digits[..count] == now[i + 1 := digits[i + 1]];
        i := i + 1;
      }
      ghost var now := digits[..count];
      if digits[count - 1] < backup {
        AddCarry(now, was, u);
        CarryFits(now, 1);
        PushBack(1);
      } else {
        AddDone(now, was, count, u);
        StaysNormal(now, was);
      }
    }

    /** `*=` by a word. */
    method Multiply64(u: Limb)
      requires Valid() && Normal() && Value() * u < Weight(CAPACITY)
      modifies this`count, digits
      ensures Valid() && Normal() && Value() == old(Value()) * u
    {
      hide Val, Weight, Multiplied;
      ghost var was := digits[..count];
      if u == 0 {
        Set(0);
        return;
      }
      if u == 1 {
        return;
      }
      if count == 1 && digits[0] == 1 {
        OneLimb(was);
        Set(u);
        return;
      }
      var k: Limb := 0;
      var i := 0;
      MultiplyFirst(was, u);
      while i < count
        invariant 0 <= i <= count == |was|
        invariant Multiplied(digits[..count], was, i, k, u)
      {
        ghost var now := digits[..count];
        ghost var d := digits[i];
        var high;
        digits[i], high := MulAdd64(digits[i], u, k);
        MultiplyNext(now, was, i, k, u, digits[i], high);
        assert digits[..count] == now[i := digits[i]];
        k := high;
        i := i + 1;
      }
      MultiplyEnd(was, k, u);
    }

    /** `*=` by a half-word. */
    method Multiply32(u: HalfLimb)
      requires Valid() && Normal() && Value() * u < Weight(CAPACITY)
      modifies this`count, digits
      ensures Valid() && Normal() && Value() == old(Value()) * u
    {
      hide Val, Weight, Multiplied, Or;
      ghost var was := digits[..count];
      if u == 0 {
        Set(0);
        return;
      }
      if u == 1 {
        return;
      }
      if count == 1 && digits[0] == 1 {
        OneLimb(was);
        Set(u);
        return;
      }
      var k: Limb := 0;
      var i := 0;
      MultiplyFirst(was, u);
      while i < count
        invariant 0 <= i <= count == |was| && k < HALF
        invariant Multiplied(digits[..count], was, i, k, u)
      {
        ghost var now := digits[..count];
        HalfWordStep(digits[i], u, k);
        var c: Limb, d: Limb := digits[i] / HALF, digits[i] % HALF;
        var uc: Limb, ud: Limb := u * c, u * d;
        var p0: Limb := ud + k;
        var p1: Limb := uc + p0 / HALF;
        digits[i] := Or(p0 % HALF, (p1 * HALF) % BASE);
        MultiplyNext(now, was, i, k, u, digits[i], p1 / HALF);
        assert digits[..count] == now[i := digits[i]];
        k := p1 / HALF;
        i := i + 1;
      }
      MultiplyEnd(was, k, u);
    }

    /** The end of both multiplications: the last carry becomes a limb. */
    method MultiplyEnd(ghost was: seq<Limb>, k: Limb, ghost u: Limb)
      requires Valid() && Multiplied(digits[..count], was, count, k, u)
      requires |was| == count && (count == 1 || was[count - 1] != 0) && u > 0 && Val(was) * u < Weight(CAPACITY)
      modifies this`count, digits
      ensures Valid() && Normal() && Value() == Val(was) * u
    {
      hide Val, Weight;
      ghost var now := digits[..count];
      MultiplyDone(now, was, k, u);
      if k > 0 {
        CarryFits(now, k);
        PushBack(k);
      } else {
        Multiply(1, u, Val(was));
        StaysNormal(now, was);
      }
    }

    /**
     `<<=`. The limb above the top one is written before it is known to be
     needed, so there must be room for it when bits cross words; `written` are
     the indices of all limbs that are assigned to.
     */
    method ShiftLeft(shift: nat) returns (ghost written: set<int>)
      requires Valid() && Normal()
      requires IsZero() || shift == 0 || ShiftFits(count, shift)
      modifies this`count, digits
      ensures Valid() && Normal() && Value() == old(Value()) * Pow(2, shift)
      ensures if old(IsZero()) || shift == 0 then written == {}
              else forall i :: i in written <==> ShiftWrites(old(count), shift, i)
      ensures forall k :: 0 <= k < CAPACITY && k !in written ==> digits[k] == old(digits[k])
    {
      hide Val, Weight, Pow, Low, High, ShiftedLimb;
      written := {};
      if IsZero() || shift == 0 {
        OneLimb(digits[..1]);
        NoShift();
        return;
      }
      ghost var was := digits[..count];
      var offset := shift / 64;
      written := MoveUp(offset, shift % 64);
      ghost var shifted := digits[offset..count];
      forall k | 0 <= k < offset {
        digits[k] := 0;
      }
      written := written + IndexRange(0, offset);
      assert digits[..count] == Zeros(offset) + shifted;
      ShiftedValue(shifted, was, shift);
      if count == |was| + offset {
        ShiftNormal(digits[..count], was, shift);
      }
    }

    /** The middle of `<<=`: the limbs move up, and the top one stays only if it is not zero. */
    method MoveUp(offset: nat, interShift: nat) returns (ghost written: set<int>)
      requires Valid() && interShift < 64
      requires count + offset + (if interShift == 0 then 0 else 1) <= CAPACITY
      modifies this`count, digits
      ensures Valid() && old(count) + offset <= count
      ensures IsShifted(digits[offset..count], old(digits[..count]), interShift)
      ensures count == old(count) + offset || digits[count - 1] != 0
      ensures forall k :: k in written <==>
                if interShift == 0 then offset <= k < offset + old(count)
                else k == old(count) || offset <= k <= offset + old(count)
      ensures forall k :: 0 <= k < CAPACITY && k !in written ==> digits[k] == old(digits[k])
    {
      hide Val, Weight, Pow, Low, High, ShiftedLimb;
      ghost var was := digits[..count];
      if interShift == 0 {
        forall k | 0 <= k < count {
          digits[k + offset] := digits[k];
        }
        written := IndexRange(offset, offset + count);
        count := count + offset;
        assert digits[offset..count] == was;
      } else {
        written := ShiftWithin(offset, interShift);
        count := count + offset;
        ghost var all := digits[offset..count + 1];
        assert all[|was|] == digits[count];
        assert digits[offset..count] == all[..|was|];
        if digits[count] != 0 {
          count := count + 1;
        }
      }
    }

    /** The loop of `<<=`: limbs move up by `offset` words and `shift` bits, the top ones first. */
    method ShiftWithin(offset: nat, shift: nat) returns (ghost written: set<int>)
      requires Valid() && 0 < shift < 64 && count + offset < CAPACITY
      modifies digits
      ensures digits[offset..offset + count + 1] == ShiftLimbs(old(digits[..count]), shift)
      ensures forall k :: k in written <==> k == count || offset <= k <= offset + count
      ensures forall k :: 0 <= k < CAPACITY && k !in written ==> digits[k] == old(digits[k])
    {
      hide Val, Weight, Pow, Low, High;
      ghost var was := digits[..count];
      digits[count] := 0;
      written := {count};
      var i := count;
      while i > 0
        invariant 0 <= i <= count
        invariant forall j :: 0 <= j <= i ==> digits[j] == LimbAt(was, j)
        invariant forall j :: i < j <= count ==> digits[j + offset] == ShiftedLimb(was, shift, j)
        invariant forall k :: k in written <==> k == count || i + offset < k <= count + offset
        invariant forall k :: 0 <= k < CAPACITY && k !in written ==> digits[k] == old(digits[k])
      {
        JoinParts(digits[i], digits[i - 1], shift);
        digits[i + offset] := Or(Low(digits[i], shift), High(digits[i - 1], shift));
        written := written + {i + offset};
        i := i - 1;
      }
      digits[offset] := Low(digits[0], shift);
      written := written + {offset};
      HighZero(shift);
      forall j | 0 <= j <= count
        ensures digits[offset..offset + count + 1][j] == ShiftLimbs(was, shift)[j]
      {
        assert digits[offset..offset + count + 1][j] == digits[j + offset];
      }
    }

    /** Multiplication by 5^exp, by 5^27, 5^13 and a table. */
    method MultiplyPow5(exp: nat)
      requires Valid() && Normal() && TimesPow5(Value(), exp) < Weight(CAPACITY)
      modifies this`count, digits
      ensures Valid() && Normal() && Value() == TimesPow5(old(Value()), exp)
    {
      hide Val, Weight, Pow, TimesPow5;
      ghost var was := Value();
      var left := exp;
      ghost var done := 0;
      Pow5Words();
      Pow5Zero(was);
      while left >= 27
        invariant Valid() && Normal() && left + done == exp && Value() == TimesPow5(was, done)
      {
        Pow5Step(was, done, 27, exp);
        Multiply64(0x6765_C793_FA10_079D);
        left, done := left - 27, done + 27;
      }
      while left >= 13
        invariant Valid() && Normal() && left + done == exp && Value() == TimesPow5(was, done)
      {
        Pow5Step(was, done, 13, exp);
        Multiply32(1220703125);
        left, done := left - 13, done + 13;
      }
      if left > 0 {
        Pow5Step(was, done, left, exp);
        Pow5Entry(left);
        Multiply32(POW5[left - 1]);
        assert done + left == exp;
      } else {
        assert done == exp;
      }
    }

    /** The next chunk of at most nineteen decimal digits. */
    method AppendDecimal64(t: string)
      requires Valid() && Normal() && AllDigits(t) && 0 < |t| <= 19
      requires (Value() + 1) * Pow(10, |t|) <= Weight(CAPACITY - 1)
      modifies this`count, digits
      ensures Valid() && Normal() && Value() == old(Value()) * Pow(10, |t|) + Decimal(t)
    {
      hide Val, Weight, Pow, Decimal;
      ghost var was, ten := Value(), Pow(10, |t|);
      ProductSum(was, 1, ten);
      WeightMonotone(CAPACITY - 1, CAPACITY);
      DecimalBound(t);
      var u := ParseUint64(t);
      if IsZero() {
        OneLimb(digits[..1]);
        Set(u);
      } else {
        var exp := |t|;
        TenIsFiveTwo(was, exp);
        MultiplyPow5(exp);
        FewLimbs(digits[..count], CAPACITY - 1);
        ghost var written := ShiftLeft(exp);
        Add(u);
      }
    }

    /** The number of a decimal string, with no more limbs than the string has chunks. */
    constructor FromDecimals(decimals: string)
      requires AllDigits(decimals) && 0 < |decimals| <= 19 * (CAPACITY - 1)
      ensures Valid() && Normal() && fresh(digits)
      ensures Value() == Decimal(decimals)
      ensures count <= Chunks(|decimals|)
    {
      digits := new Limb[CAPACITY](_ => 0);
      count := 1;
      new;
      OneLimb(digits[..1]);
      AppendChunks(decimals);
    }

    /** The loop of the constructor from decimals. */
    method AppendChunks(decimals: string)
      requires Valid() && Normal() && Value() == 0
      requires AllDigits(decimals) && 0 < |decimals| <= 19 * (CAPACITY - 1)
      modifies this`count, digits
      ensures Valid() && Normal() && Value() == Decimal(decimals)
      ensures count <= Chunks(|decimals|)
    {
      hide Val, Weight, Pow, Decimal, AllDigits;
      var length, i := |decimals|, 0;
      EmptyDecimal();
      assert decimals[..0] == "";
      while length >= 19
        invariant Valid() && Normal() && 0 <= i <= |decimals| && length == |decimals| - i
        invariant AllDigits(decimals[..i]) && Value() == Decimal(decimals[..i])
      {
        AppendNext(decimals, i, 19);
        AppendDecimal64(decimals[i..i + 19]);
        length := length - 19;
        i := i + 19;
      }
      if length > 0 {
        AppendNext(decimals, i, length);
        AppendDecimal64(decimals[i..i + length]);
      }
      assert decimals[..|decimals|] == decimals;
      DecimalFits(decimals);
      FewLimbs(digits[..count], Chunks(|decimals|));
    }

    /** The three-way comparison of normal forms. */
    method Compare(rhs: BigInteger) returns (order: int)
      requires Valid() && Normal() && rhs.Valid() && rhs.Normal()
      ensures order == if Value() < rhs.Value() then -1 else if Value() == rhs.Value() then 0 else 1
      ensures order >= 0 ==> count >= rhs.count
      ensures order <= 0 ==> count <= rhs.count
    {
      hide Val;
      ghost var a, b := digits[..count], rhs.digits[..rhs.count];
      if count != rhs.count {
        if count < rhs.count {
          OrderedByCount(a, b);
          return -1;
        } else {
          OrderedByCount(b, a);
          return 1;
        }
      }
      var i := count;
      while i > 0
        invariant 0 <= i <= count
        invariant forall k :: i <= k < count ==> digits[k] == rhs.digits[k]
      {
        i := i - 1;
        if digits[i] != rhs.digits[i] {
          if digits[i] < rhs.digits[i] {
            OrderedByLimb(a, b, i);
            return -1;
          } else {
            OrderedByLimb(b, a, i);
            return 1;
          }
        }
      }
      assert a == b;
      return 0;
    }

    /**
     The absolute difference into `out`, and whether `this` is the smaller. It
     is exact if and only if no borrow meets an all-ones limb of the smaller
     number; otherwise the result is too large.
     */
    method Difference(rhs: BigInteger, out: BigInteger) returns (smaller: bool)
      requires Valid() && Normal() && rhs.Valid() && rhs.Normal() && Value() != rhs.Value()
      requires out.Valid() && out != this && out != rhs && out.digits != digits && out.digits != rhs.digits
      modifies out`count, out.digits
      ensures out.Valid() && out.Normal()
      ensures smaller == (Value() < rhs.Value())
      ensures var a, b := (if smaller then rhs else this), (if smaller then this else rhs);
              if BorrowsKept(a.digits[..a.count], b.digits[..b.count], b.count)
              then out.Value() == a.Value() - b.Value()
              else out.Value() > a.Value() - b.Value()
    {
      hide Val;
      var cmp := Compare(rhs);
      if cmp < 0 {
        smaller := true;
        rhs.SubtractInto(this, out);
      } else {
        smaller := false;
        SubtractInto(rhs, out);
      }
    }

    /** The loop of `Difference`, with this as the larger number. */
    method SubtractInto(b: BigInteger, out: BigInteger)
      requires Valid() && b.Valid() && Value() > b.Value() && count >= b.count
      requires out.Valid() && out != this && out != b && out.digits != digits && out.digits != b.digits
      modifies out`count, out.digits
      ensures out.Valid() && out.Normal()
      ensures if BorrowsKept(digits[..count], b.digits[..b.count], b.count)
              then out.Value() == Value() - b.Value()
              else out.Value() > Value() - b.Value()
    {
      hide Val, Weight, Lower, BorrowsKept, Subtracted;
      ghost var x, y := digits[..count], b.digits[..b.count];
      var borrow: Limb, i := 0, 0;
      ghost var lost: nat := 0;
      SubtractFirst(x, y);
      while i < count
        invariant 0 <= i <= count && 0 < out.count <= CAPACITY
        invariant Subtracted(out.digits[..i], x, y, borrow, lost)
        invariant Trimmed(out.digits[..i], out.count)
      {
        ghost var done := out.digits[..i];
        SubtractedBorrow(done, x, y, borrow, lost);
        lost := SubtractNext(done, x, y, borrow, lost);
        var d: Limb := (digits[i] - borrow) % BASE;
        if i < b.count {
          d := (d - b.digits[i]) % BASE;
        }
        borrow := if d > digits[i] then 1 else 0;
        out.digits[i] := d;
        assert out.digits[..i + 1] == done + [d];
        if d != 0 {
          out.count := i + 1;
        }
        i := i + 1;
      }
      ghost var done := out.digits[..count];
      SubtractDone(done, x, y, borrow, lost);
      TrimZeros(done, out.count);
      assert done[..out.count] == out.digits[..out.count];
    }
  }

  /** The difference of the numbers of `BorrowIsLost` comes out too large. */
  method DifferenceTooLarge() returns (a: BigInteger, b: BigInteger, difference: BigInteger)
    ensures a.Valid() && b.Valid() && difference.Valid()
    ensures a.digits[..a.count] == [0, 0, 1] && b.digits[..b.count] == [1, BASE - 1]
    ensures a.Value() > b.Value() && difference.Value() > a.Value() - b.Value()
  {
    hide Val;
    a := new BigInteger(0);
    a.PushBack(0);
    a.PushBack(1);
    b := new BigInteger(1);
    b.PushBack(BASE - 1);
    difference := new BigInteger(0);
    BorrowIsLost();
    assert a.digits[..a.count] == [0, 0, 1] && b.digits[..b.count] == [1, BASE - 1];
    var smaller := a.Difference(b, difference);
  }
}
