/** 256-bit hashes: byte-wise comparison and the truncated division that every
    difficulty is computed with (lib/mining/Hash256.cpp, lib/mining/Hash.cpp). */
module Hash256 {
  import opened ByteStrings

  type Hash = h: seq<byte> | |h| == 32 witness seq(32, _ => 0)

  // ---------- Comparison ----------

  /** `memcmp` on equally long operands; only the sign is meaningful. */
  function Memcmp(a: seq<byte>, b: seq<byte>): int
    requires |a| == |b|
  {
    if a == [] then 0 else if a[0] != b[0] then a[0] - b[0] else Memcmp(a[1..], b[1..])
  }

  predicate IsLower(a: Hash, b: Hash, orEqual: bool) {
    Memcmp(a, b) < if orEqual then 1 else 0
  }

  predicate AtMost(a: Hash, b: Hash) {
    IsLower(a, b, true)
  }

  lemma FromBESingle(b: byte)
    ensures FromBE([b]) == b
  {
    assert [b][..0] == [];
  }

  lemma FromBEHead(s: seq<byte>)
    requires s != []
    ensures FromBE(s) == Shifted(s[0], |s| - 1) + FromBE(s[1..])
  {
    var head, tail := [s[0]], s[1..];
    FromBESingle(s[0]);
    FromBEConcat(head, tail);
    assert s == head + tail;
  }

  lemma LeadingPartDecides(x: nat, y: nat, k: nat, u: nat)
    requires x < y && u < Pow256(k)
    ensures Shifted(x, k) + u < Shifted(y, k)
  {
    ShiftedNext(x, k);
    ShiftedMonotone(x + 1, y, k);
  }

  /** The byte order of `memcmp` is the order of the big-endian integers. */
  lemma {:induction false} MemcmpIsBigEndianOrder(a: seq<byte>, b: seq<byte>)
    requires |a| == |b|
    ensures Memcmp(a, b) < 0 <==> FromBE(a) < FromBE(b)
    ensures Memcmp(a, b) == 0 <==> FromBE(a) == FromBE(b)
    ensures Memcmp(a, b) == 0 <==> a == b
  {
    if a == [] {
    } else {
      FromBEHead(a);
      FromBEHead(b);
      FromBEBound(a[1..]);
      FromBEBound(b[1..]);
      if a[0] < b[0] {
        LeadingPartDecides(a[0], b[0], |a| - 1, FromBE(a[1..]));
      } else if b[0] < a[0] {
        LeadingPartDecides(b[0], a[0], |a| - 1, FromBE(b[1..]));
      } else {
        MemcmpIsBigEndianOrder(a[1..], b[1..]);
        assert a == [a[0]] + a[1..] && b == [b[0]] + b[1..];
      }
    }
  }

  lemma AtMostIsNumeric(a: Hash, b: Hash)
    ensures AtMost(a, b) <==> FromBE(a) <= FromBE(b)
  {
    MemcmpIsBigEndianOrder(a, b);
  }

  // ---------- Quotients of doubles ----------

  /** A non-negative `double` without rounding: dividing by zero gives an infinity, 0/0 no number. */
  datatype Double = Finite(value: real) | Infinite | NotANumber {
    /** `<` on doubles; no comparison with NaN holds. */
    predicate LessThan(d: Double) {
      match (this, d)
      case (Finite(x), Finite(y)) => x < y
      case (Finite(_), Infinite) => true
      case _ => false
    }

    /** Multiplication by a positive constant. */
    function Times(k: real): Double
      requires k > 0.0
    {
      if Finite? then Finite(value * k) else this
    }

    function DividedBy(k: real): Double
      requires k > 0.0
    {
      if Finite? then Finite(value / k) else this
    }
  }

  // ---------- Division ----------

  function ZeroRun(s: seq<byte>): (n: nat)
    ensures n <= |s|
    ensures forall k :: 0 <= k < n ==> s[k] == 0
    ensures n < |s| ==> s[n] != 0
  {
    if s == [] || s[0] != 0 then 0 else 1 + ZeroRun(s[1..])
  }

  /** Position of the leading non-zero byte, never past the last four bytes. */
  function Lead(h: Hash): (idx: nat)
    ensures idx <= 28
  {
    ZeroRun(h[..28])
  }

  /** `findFirstNonZeroByte` with the bound both call sites pass. */
  method FindFirstNonZeroByte(data: Hash) returns (idx: nat)
    ensures idx == Lead(data)
  {
    idx := 0;
    while idx < 28 && data[idx] == 0
      invariant 0 <= idx <= 28
      invariant forall k :: 0 <= k < idx ==> data[k] == 0
    {
      idx := idx + 1;
    }
  }

  /** The four bytes from the leading one on, as `readBE32` reads them. */
  function Significand(h: Hash): nat {
    FromBE(h[Lead(h)..Lead(h) + 4])
  }

  /** The number that division works with: `h` cut off below its four leading bytes. */
  function Truncated(h: Hash): nat {
    Shifted(Significand(h), 28 - Lead(h))
  }

  function Quotient(a: Hash, b: Hash): Double {
    if Truncated(b) > 0 then Finite(Truncated(a) as real / Truncated(b) as real)
    else if Truncated(a) > 0 then Infinite
    else NotANumber
  }

  /** The ratio of two significands moved up by `x` and `y` bytes. */
  ghost function Ratio(m: nat, x: nat, n: nat, y: nat): real
    requires Shifted(n, y) > 0
  {
    Shifted(m, x) as real / Shifted(n, y) as real
  }

  lemma ScaledRatio(a: real, b: real)
    requires b > 0.0
    ensures (256.0 * a) / b == a / b * 256.0
    ensures a / (256.0 * b) == a / b / 256.0
  {
    var q := a / b;
    assert q * b == a;
    assert (q * 256.0) * b == 256.0 * a;
    assert (q / 256.0) * (256.0 * b) == a;
  }

  lemma {:induction false} ShiftedIsZero(n: nat, k: nat)
    ensures Shifted(n, k) > 0 <==> n > 0
  {
    if k == 0 {
    } else {
      ShiftedIsZero(n, k - 1);
    }
  }

  /** Only the difference of the two shifts matters. */
  lemma {:induction false} RatioCancels(m: nat, x: nat, n: nat, y: nat, k: nat)
    requires n > 0
    ensures Shifted(n, y + k) > 0 && Shifted(n, y) > 0
    ensures Ratio(m, x + k, n, y + k) == Ratio(m, x, n, y)
  {
    ShiftedIsZero(n, y + k);
    ShiftedIsZero(n, y);
    if k == 0 {
    } else {
      RatioCancels(m, x, n, y, k - 1);
      ScaledRatio(Shifted(m, x + k) as real, Shifted(n, y + k - 1) as real);
      ScaledRatio(Shifted(m, x + k - 1) as real, Shifted(n, y + k - 1) as real);
    }
  }

  lemma NextPower(k: nat)
    ensures Pow256(k + 1) as real == Pow256(k) as real * 256.0 && Pow256(0) == 1
  {
  }

  /** `operator/`: the significands are divided, then the scale is put back one byte at a time. */
  method Divide(a: Hash, b: Hash) returns (q: Double)
    ensures q == Quotient(a, b)
  {
    hide Pow256, Shifted, FromBE, Lead;
    var baseFactor := 1.0;
    NextPower(0);
    var idxMe := FindFirstNonZeroByte(a);
    var idxOp := FindFirstNonZeroByte(b);
    var idxDiff: int := idxMe - idxOp;
    while idxDiff < 0
      invariant idxDiff <= 0 || idxDiff == idxMe - idxOp
      invariant idxDiff >= idxMe - idxOp
      invariant idxMe <= idxOp ==> baseFactor == Pow256(idxDiff - (idxMe - idxOp)) as real
      invariant idxMe > idxOp ==> baseFactor == 1.0
    {
      NextPower(idxDiff - (idxMe - idxOp));
      idxDiff := idxDiff + 1;
      baseFactor := baseFactor * 256.0;
    }
    while idxDiff > 0
      invariant 0 <= idxDiff
      invariant idxMe <= idxOp ==> idxDiff == 0 && baseFactor == Pow256(idxOp - idxMe) as real
      invariant idxMe > idxOp ==> idxDiff <= idxMe - idxOp
      invariant idxMe > idxOp ==> baseFactor == 1.0 / Pow256(idxMe - idxOp - idxDiff) as real
    {
      NextPower(idxMe - idxOp - idxDiff);
      idxDiff := idxDiff - 1;
      ScaledRatio(1.0, Pow256(idxMe - idxOp - idxDiff - 1) as real);
      baseFactor := baseFactor / 256.0;
    }
    var significand, divisor := FromBE(a[idxMe..idxMe + 4]), FromBE(b[idxOp..idxOp + 4]);
    ShiftedIsZero(significand, 28 - idxMe);
    ShiftedIsZero(divisor, 28 - idxOp);
    if divisor > 0 {
      q := Finite(significand as real / divisor as real * baseFactor);
      FactorIsShift(significand, divisor, idxMe, idxOp, baseFactor);
    } else {
      q := if significand > 0 then Infinite else NotANumber;
    }
  }

  lemma FactorUp(m: nat, n: nat, i: nat, j: nat)
    requires n > 0 && i <= j <= 28
    ensures Shifted(n, 28 - j) > 0
    ensures m as real / n as real * Pow256(j - i) as real == Ratio(m, 28 - i, n, 28 - j)
  {
    hide Pow256, Shifted;
    ShiftedIsZero(n, 28 - j);
    ShiftedIsZero(n, 0);
    ScaledUp(m, n, j - i);
    NotShifted(n);
    RatioCancels(m, j - i, n, 0, 28 - j);
  }

  lemma FactorDown(m: nat, n: nat, i: nat, j: nat)
    requires n > 0 && j < i <= 28
    ensures Shifted(n, 28 - j) > 0
    ensures m as real / n as real * (1.0 / Pow256(i - j) as real) == Ratio(m, 28 - i, n, 28 - j)
  {
    hide Pow256, Shifted;
    ShiftedIsZero(n, 28 - j);
    ScaledDown(m, n, i - j);
    NotShifted(m);
    RatioCancels(m, 0, n, i - j, 28 - i);
  }

  lemma NotShifted(m: nat)
    ensures Shifted(m, 0) == m
  {
  }

  lemma FactorIsShift(m: nat, n: nat, i: nat, j: nat, factor: real)
    requires n > 0 && i <= 28 && j <= 28
    requires i <= j ==> factor == Pow256(j - i) as real
    requires i > j ==> factor == 1.0 / Pow256(i - j) as real
    ensures Shifted(n, 28 - j) > 0
    ensures m as real / n as real * factor == Ratio(m, 28 - i, n, 28 - j)
  {
    hide Pow256, Shifted, Ratio;
    if i <= j {
      FactorUp(m, n, i, j);
    } else {
      FactorDown(m, n, i, j);
    }
  }

  lemma {:induction false} ScaledUp(m: nat, n: nat, k: nat)
    requires n > 0
    ensures m as real / n as real * Pow256(k) as real == Shifted(m, k) as real / n as real
  {
    if k == 0 {
    } else {
      ScaledUp(m, n, k - 1);
      ScaledRatio(Shifted(m, k - 1) as real, n as real);
      assert Pow256(k) as real == Pow256(k - 1) as real * 256.0;
    }
  }

  lemma {:induction false} ScaledDown(m: nat, n: nat, k: nat)
    requires n > 0
    ensures Shifted(n, k) > 0
    ensures m as real / n as real * (1.0 / Pow256(k) as real) == m as real / Shifted(n, k) as real
  {
    if k == 0 {
    } else {
      ScaledDown(m, n, k - 1);
      ScaledRatio(m as real, Shifted(n, k - 1) as real);
      ScaledRatio(1.0, Pow256(k - 1) as real);
      assert Pow256(k) as real == 256.0 * Pow256(k - 1) as real;
    }
  }

  // ---------- What the truncation costs ----------

  lemma {:induction false} LeadingZeros(s: seq<byte>)
    requires forall k :: 0 <= k < |s| ==> s[k] == 0
    ensures FromBE(s) == 0
  {
    if s == [] {
    } else {
      LeadingZeros(s[..|s| - 1]);
    }
  }

  lemma SplitAt(zeros: seq<byte>, front: seq<byte>, tail: seq<byte>)
    requires forall k :: 0 <= k < |zeros| ==> zeros[k] == 0
    ensures FromBE(zeros + (front + tail)) == Shifted(FromBE(front), |tail|) + FromBE(tail)
    ensures FromBE(tail) < Pow256(|tail|) && FromBE(zeros + (front + tail)) < Pow256(|front| + |tail|)
  {
    FromBEConcat(zeros, front + tail);
    LeadingZeros(zeros);
    ShiftedOne(|front + tail|);
    FromBEConcat(front, tail);
    FromBEBound(tail);
    FromBEBound(front + tail);
  }

  lemma SignificandOf(h: Hash)
    ensures Significand(h) == FromBE(h[Lead(h)..Lead(h) + 4])
  {
  }

  lemma CutInThree(s: seq<byte>, i: nat)
    requires i + 4 <= |s|
    ensures s == s[..i] + (s[i..i + 4] + s[i + 4..])
  {
  }

  /** The integer is the truncation plus whatever the bytes behind it add. */
  lemma Split(h: Hash)
    ensures FromBE(h) == Truncated(h) + FromBE(h[Lead(h) + 4..])
    ensures FromBE(h[Lead(h) + 4..]) < Pow256(28 - Lead(h))
    ensures Lead(h) == 28 ==> Truncated(h) == FromBE(h)
    ensures FromBE(h) < Pow256(32 - Lead(h))
  {
    var i := Lead(h);
    var zeros, front, tail := h[..i], h[i..i + 4], h[i + 4..];
    assert forall k :: 0 <= k < |zeros| ==> zeros[k] == 0;
    hide Lead, FromBE, Pow256, Shifted, Significand;
    assert Significand(h) == FromBE(front) by {
      SignificandOf(h);
    }
    CutInThree(h, i);
    SplitAt(zeros, front, tail);
    if i == 28 {
      LeadingZeros(tail);
    }
  }

  lemma LargeShift(lead: nat, m: nat, k: nat)
    requires lead >= 1 && m >= Shifted(lead, 3)
    ensures Shifted(m, k) >= 0x100_0000 * Pow256(k) == Pow256(k + 3)
  {
    ShiftedMonotone(1, lead, 3);
    ShiftedMonotone(Shifted(1, 3), m, k);
    ShiftedTwice(1, 3, k);
    ShiftedOne(3 + k);
    assert Pow256(k + 3) == 256 * Pow256(k + 2) && Pow256(k + 2) == 256 * Pow256(k + 1);
  }

  /** Before the last four bytes the leading byte is not zero, so 25 bits are kept at least. */
  lemma TruncatedIsLarge(h: Hash)
    requires Lead(h) < 28
    ensures Truncated(h) >= 0x100_0000 * Pow256(28 - Lead(h)) == Pow256(31 - Lead(h))
  {
    var front := h[Lead(h)..Lead(h) + 4];
    FromBEHead(front);
    LargeShift(front[0], FromBE(front), 28 - Lead(h));
  }

  /** Truncation never raises a value and loses less than one part in 2^24 of what it keeps. */
  lemma TruncationError(h: Hash)
    ensures Truncated(h) <= FromBE(h)
    ensures 0x100_0000 * FromBE(h) <= 0x100_0001 * Truncated(h)
    ensures (forall k :: 0 <= k < 28 ==> h[k] == 0) ==> Truncated(h) == FromBE(h)
    ensures Truncated(h) == 0 <==> FromBE(h) == 0
  {
    Split(h);
    if Lead(h) < 28 {
      TruncatedIsLarge(h);
    }
  }

  /** `v` is `m` moved up behind `i` leading zero bytes, plus `tail`; `t` is what truncation keeps. */
  ghost predicate Parts(i: nat, m: nat, tail: nat, t: nat, v: nat) {
    && i <= 28 && t == Shifted(m, 28 - i) && v == t + tail
    && tail < Pow256(28 - i) && v < Pow256(32 - i)
    && (i < 28 ==> Pow256(31 - i) <= t)
  }

  lemma PartsOf(h: Hash)
    ensures Parts(Lead(h), Significand(h), FromBE(h[Lead(h) + 4..]), Truncated(h), FromBE(h))
  {
    Split(h);
    if Lead(h) < 28 {
      TruncatedIsLarge(h);
    }
  }

  lemma PartsAreMonotone(i: nat, m: nat, u: nat, ta: nat, va: nat, j: nat, n: nat, w: nat, tb: nat, vb: nat)
    requires Parts(i, m, u, ta, va) && Parts(j, n, w, tb, vb) && va <= vb
    ensures ta <= tb
  {
    hide Pow256, Shifted;
    if i < j {
      EarlierLeadIsLarger(i, j, ta, vb);
    } else if j < i {
      EarlierLeadIsLarger(j, i, tb, va);
    } else if m > n {
      LeadingPartDecides(n, m, 28 - i, w);
    } else {
      ShiftedMonotone(m, n, 28 - i);
    }
  }

  lemma TruncatedIsMonotone(a: Hash, b: Hash)
    requires FromBE(a) <= FromBE(b)
    ensures Truncated(a) <= Truncated(b)
  {
    PartsOf(a);
    PartsOf(b);
    PartsAreMonotone(Lead(a), Significand(a), FromBE(a[Lead(a) + 4..]), Truncated(a), FromBE(a),
                     Lead(b), Significand(b), FromBE(b[Lead(b) + 4..]), Truncated(b), FromBE(b));
  }

  lemma EarlierLeadIsLarger(i: nat, j: nat, truncated: nat, value: nat)
    requires i < j <= 28 && Pow256(31 - i) <= truncated && value < Pow256(32 - j)
    ensures value < truncated
  {
    Pow256Monotone(32 - j, 31 - i);
  }

  lemma OrderByProduct(a: real, b: real, c: real)
    requires c > 0.0 && a * c <= b * c
    ensures a <= b
  {
  }

  lemma ProductOrder(a: real, b: real, c: real)
    requires c >= 0.0 && a <= b
    ensures a * c <= b * c
  {
  }

  lemma RealDivisionAntitone(x: real, b: real, c: real)
    requires x >= 0.0 && 0.0 < b <= c
    ensures x / c <= x / b
  {
    var q, r := x / b, x / c;
    assert q * b == x && r * c == x && q >= 0.0;
    ProductOrder(b, c, q);
    OrderByProduct(r, q, c);
  }

  /** Dividing by a larger hash never gives a larger result, zero divisors included. */
  lemma QuotientAntitone(x: Hash, small: Hash, large: Hash)
    requires AtMost(small, large) && Truncated(x) > 0
    ensures !Quotient(x, small).LessThan(Quotient(x, large))
    ensures Quotient(x, large).Infinite? ==> Quotient(x, small).Infinite?
  {
    AtMostIsNumeric(small, large);
    TruncatedIsMonotone(small, large);
    if Truncated(small) > 0 {
      RealDivisionAntitone(Truncated(x) as real, Truncated(small) as real, Truncated(large) as real);
    }
  }

  const EPSILON: real := 1.0 / 16777216.0

  lemma RatioAbove(x: real, y: real, u: real, v: real, k: real)
    requires 0.0 <= x && 0.0 < y <= v && k > 0.0 && u <= x * k
    ensures u / v <= x / y * k
  {
    var q, t := x / y, u / v;
    assert q * y == x && t * v == u && q * k >= 0.0;
    ProductOrder(y, v, q * k);
    assert y * (q * k) == x * k;
    OrderByProduct(t, q * k, v);
  }

  lemma RatioBelow(x: real, y: real, u: real, v: real, k: real)
    requires 0.0 <= x <= u && 0.0 < y && 0.0 < v <= y * k && k > 0.0
    ensures x / y / k <= u / v
  {
    var q, t := x / y, u / v;
    var w := q / k;
    assert q * y == x && t * v == u && w * k == q && w >= 0.0;
    ProductOrder(v, y * k, w);
    assert (y * k) * w == (w * k) * y;
    OrderByProduct(w, t, v);
  }

  lemma RealDivisionScaled(x: real, y: real, u: real, v: real, e: real)
    requires 0.0 <= x && 0.0 < y && e > 0.0
    requires x <= u <= x * (1.0 + e) && y <= v <= y * (1.0 + e)
    ensures x / y / (1.0 + e) <= u / v <= x / y * (1.0 + e)
  {
    RatioAbove(x, y, u, v, 1.0 + e);
    RatioBelow(x, y, u, v, 1.0 + e);
  }

  lemma WithinEpsilon(v: nat, t: nat)
    requires t <= v && 0x100_0000 * v <= 0x100_0001 * t
    ensures t as real <= v as real <= t as real * (1.0 + EPSILON)
  {
    assert 16777216.0 * v as real <= 16777217.0 * t as real;
    assert 16777216.0 * (1.0 + EPSILON) == 16777217.0;
    assert 16777216.0 * (t as real * (1.0 + EPSILON)) == t as real * 16777217.0;
  }

  lemma RatioError(ta: nat, tb: nat, va: nat, vb: nat)
    requires 0 < tb
    requires ta <= va && 0x100_0000 * va <= 0x100_0001 * ta
    requires tb <= vb && 0x100_0000 * vb <= 0x100_0001 * tb
    ensures ta as real / tb as real / (1.0 + EPSILON) <= va as real / vb as real
                                                      <= ta as real / tb as real * (1.0 + EPSILON)
  {
    WithinEpsilon(va, ta);
    WithinEpsilon(vb, tb);
    RealDivisionScaled(ta as real, tb as real, va as real, vb as real, EPSILON);
  }

  /** Relative error of a difficulty: within 1 + 2^-24 of the true ratio on both sides. */
  lemma QuotientError(a: Hash, b: Hash)
    requires FromBE(b) > 0
    ensures Quotient(a, b).Finite?
    ensures var q := Quotient(a, b).value;
            q / (1.0 + EPSILON) <= FromBE(a) as real / FromBE(b) as real <= q * (1.0 + EPSILON)
  {
    TruncationError(a);
    TruncationError(b);
    RatioError(Truncated(a), Truncated(b), FromBE(a), FromBE(b));
  }

  /** Where the first 28 bytes are zero nothing is cut, and the ratio is exact. */
  lemma QuotientExact(a: Hash, b: Hash)
    requires forall k :: 0 <= k < 28 ==> a[k] == 0 && b[k] == 0
    requires FromBE(b) > 0
    ensures Quotient(a, b) == Finite(FromBE(a) as real / FromBE(b) as real)
  {
    TruncationError(a);
    TruncationError(b);
  }

  // ---------- The difficulty-one target ----------

  /** `Hash256::diff1()`. */
  function Diff1(): Hash {
    [0x00, 0x00, 0x0f, 0xff, 0xff, 0x00, 0x00, 0x00] + seq(24, _ => 0)
  }

  /** The difficulty-one target as a number. */
  const DIFF1: nat := 0xfffff_000000_000000_000000_000000_000000_000000_000000_000000_000000

  lemma ThreeBytesUp(m: nat, k: nat)
    ensures Shifted(m, k + 3) == 0x100_0000 * Shifted(m, k)
  {
    assert Shifted(m, k + 3) == 256 * Shifted(m, k + 2) && Shifted(m, k + 2) == 256 * Shifted(m, k + 1);
  }

  lemma Shifted27(m: nat)
    ensures Shifted(m, 27) == m * 0x1_000000_000000_000000_000000_000000_000000_000000_000000_000000
  {
    hide Shifted;
    NotShifted(m);
    ThreeBytesUp(m, 0);
    ThreeBytesUp(m, 3);
    ThreeBytesUp(m, 6);
    ThreeBytesUp(m, 9);
    ThreeBytesUp(m, 12);
    ThreeBytesUp(m, 15);
    ThreeBytesUp(m, 18);
    ThreeBytesUp(m, 21);
    ThreeBytesUp(m, 24);
  }

  lemma FiveBytes()
    ensures FromBE([0x00, 0x00, 0x0f, 0xff, 0xff]) == 0xfffff
  {
    var s: seq<byte> := [0x00, 0x00, 0x0f, 0xff, 0xff];
    assert s[..4] == [0x00, 0x00, 0x0f, 0xff] && s[..4][..3] == [0x00, 0x00, 0x0f];
    assert s[..4][..3][..2] == [0x00, 0x00] && s[..4][..3][..2][..1] == [0x00];
    FromBESingle(0x00);
    assert FromBE(s[..4][..3][..2]) == 0 && FromBE(s[..4][..3]) == 0x0f && FromBE(s[..4]) == 0x0fff;
  }

  lemma Diff1Value()
    ensures FromBE(Diff1()) == DIFF1
  {
    var front: seq<byte> := [0x00, 0x00, 0x0f, 0xff, 0xff];
    var tail: seq<byte> := seq(27, _ => 0);
    hide FromBE, Shifted;
    assert Diff1() == front + tail;
    FromBEConcat(front, tail);
    LeadingZeros(tail);
    FiveBytes();
    Shifted27(0xfffff);
  }

  lemma Diff1IsPositive()
    ensures Truncated(Diff1()) > 0
  {
    var h := Diff1();
    FromBEHead(h[2..6]);
    assert h[2] == 0x0f && Lead(h) == 2;
    Pow256Values();
    assert Significand(h) > 0;
    ShiftedIsZero(Significand(h), 26);
  }
}
