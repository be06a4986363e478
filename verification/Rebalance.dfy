/** Fixed-point rescaling of the coinbase outputs (lib/mining/CoinbaseOutputs.cpp). */
module Rebalance {
  import opened ByteStrings

  const PRECISION: nat := 1_000_000
  const MAX64: nat := 0x1_0000_0000_0000_0000

  function Wrapped(n: nat): uint64 {
    n % MAX64
  }

  function Sum(coins: seq<uint64>): nat {
    if coins == [] then 0 else Sum(coins[..|coins| - 1]) + coins[|coins| - 1]
  }

  // ---------- One activation of `rebalance`, with uint64 arithmetic ----------

  /** Returned: the activation ended. Retry: it ends in the recursive call. */
  datatype Activation = Returned(coins: seq<uint64>) | Retry(coins: seq<uint64>)

  function Factor(total: uint64, shares: nat): uint64
    requires shares > 0
  {
    Wrapped(total * PRECISION) / shares
  }

  function ScaledCoin(c: uint64, factor: uint64): uint64 {
    Wrapped(c * factor) / PRECISION
  }

  function Scaled(coins: seq<uint64>, factor: uint64): (r: seq<uint64>)
    ensures |r| == |coins|
    ensures forall i :: 0 <= i < |r| ==> r[i] == ScaledCoin(coins[i], factor)
  {
    if coins == [] then [] else Scaled(coins[..|coins| - 1], factor) + [ScaledCoin(coins[|coins| - 1], factor)]
  }

  function Activate(coins: seq<uint64>, total: uint64): Activation {
    var shares := Wrapped(Sum(coins));
    if shares == 0 || shares == total then Returned(coins)
    else
      var scaled := Scaled(coins, Factor(total, shares));
      if Wrapped(Sum(scaled)) == total then Returned(scaled) else Retry(scaled)
  }

  lemma SumOfPrefix(coins: seq<uint64>, i: nat)
    requires i < |coins|
    ensures Sum(coins[..i + 1]) == Sum(coins[..i]) + coins[i]
  {
    assert coins[..i + 1][..i] == coins[..i];
  }

  lemma WrappedStep(a: nat, b: nat)
    ensures Wrapped(Wrapped(a) + b) == Wrapped(a + b)
  {
  }

  lemma NothingYet(coins: seq<uint64>)
    requires coins == []
    ensures Wrapped(Sum(coins)) == 0
  {
  }

  /** The first loop of `rebalance`. */
  method TotalShares(coins: array<uint64>) returns (totalShares: uint64)
    ensures totalShares == Wrapped(Sum(coins[..]))
  {
    totalShares := 0;
    for i := 0 to coins.Length
      invariant totalShares == Wrapped(Sum(coins[..i]))
    {
      SumOfPrefix(coins[..], i);
      assert coins[..][..i] == coins[..i] && coins[..][..i + 1] == coins[..i + 1];
      WrappedStep(Sum(coins[..i]), coins[i]);
      totalShares := Wrapped(totalShares + coins[i]);
    }
    assert coins[..coins.Length] == coins[..];
  }

  /** The second loop: every output is overwritten and added up. */
  method ScaleInPlace(coins: array<uint64>, factor: uint64) returns (newTotalCoins: uint64)
    modifies coins
    ensures coins[..] == Scaled(old(coins[..]), factor)
    ensures newTotalCoins == Wrapped(Sum(coins[..]))
  {
    hide ScaledCoin, Wrapped, Sum;
    newTotalCoins := 0;
    NothingYet(coins[..0]);
    for i := 0 to coins.Length
      invariant forall k :: 0 <= k < i ==> coins[k] == ScaledCoin(old(coins[k]), factor)
      invariant forall k :: i <= k < coins.Length ==> coins[k] == old(coins[k])
      invariant newTotalCoins == Wrapped(Sum(coins[..i]))
    {
      ghost var before := coins[..i];
      coins[i] := ScaledCoin(coins[i], factor);
      assert coins[..i] == before;
      SumOfPrefix(coins[..], i);
      assert coins[..][..i] == coins[..i] && coins[..][..i + 1] == coins[..i + 1];
      WrappedStep(Sum(coins[..i]), coins[i]);
      newTotalCoins := Wrapped(newTotalCoins + coins[i]);
    }
    assert coins[..coins.Length] == coins[..];
  }

  /** `rebalance` up to its recursive call; `retry` says whether it makes that call. */
  method RebalanceOnce(coins: array<uint64>, totalCoins: uint64) returns (retry: bool)
    modifies coins
    ensures Activate(old(coins[..]), totalCoins) == if retry then Retry(coins[..]) else Returned(coins[..])
  {
    if coins.Length == 0 {
      return false;
    }
    var totalShares := TotalShares(coins);
    if totalShares == 0 {
      return false;
    }
    if totalCoins == totalShares {
      return false;
    }
    var correctionFactor := Factor(totalCoins, totalShares);
    var newTotalCoins := ScaleInPlace(coins, correctionFactor);
    retry := newTotalCoins != totalCoins;
  }

  // ---------- Arithmetic of one pass ----------

  /** Neither the reward nor the sum of the shares is too large for the fixed-point format. */
  predicate Fits(coins: seq<uint64>, total: uint64) {
    total * PRECISION < MAX64 && Sum(coins) < MAX64
  }

  lemma {:induction false} SumBounds(coins: seq<uint64>, i: nat)
    requires i < |coins|
    ensures coins[i] <= Sum(coins)
  {
    if i == |coins| - 1 {
    } else {
      SumBounds(coins[..|coins| - 1], i);
    }
  }

  lemma Distribute(a: nat, b: nat, f: nat)
    ensures (a + b) * f == a * f + b * f
  {
  }

  lemma MulMonotone(a: nat, b: nat, f: nat)
    requires a <= b
    ensures a * f <= b * f
  {
    Distribute(a, b - a, f);
  }

  lemma FactorBounds(total: uint64, shares: nat)
    requires shares > 0 && total * PRECISION < MAX64
    ensures var f := Factor(total, shares);
            f == total * PRECISION / shares
            && shares * f <= total * PRECISION < shares * f + shares
  {
  }

  lemma ProductFits(c: nat, s: nat, bound: nat, f: nat)
    requires c <= s && s * f <= bound < MAX64
    ensures c * f <= bound && Wrapped(c * f) == c * f
  {
    MulMonotone(c, s, f);
  }

  /** No product wraps: each is at most the scaled reward. */
  lemma NoProductWraps(coins: seq<uint64>, total: uint64, f: nat, i: nat)
    requires Fits(coins, total) && i < |coins| && Sum(coins) > 0 && f == Factor(total, Sum(coins))
    ensures coins[i] * f <= total * PRECISION && ScaledCoin(coins[i], f) == coins[i] * f / PRECISION
  {
    FactorBounds(total, Sum(coins));
    SumBounds(coins, i);
    ProductFits(coins[i], Sum(coins), total * PRECISION, f);
  }

  lemma LargerQuotient(a: nat, b: nat, d: nat)
    requires d > 0 && a + d <= b
    ensures a / d < b / d
  {
    assert a == a / d * d + a % d && b == b / d * d + b % d;
    if b / d <= a / d {
      MulMonotone(b / d, a / d, d);
    }
  }

  lemma WrapLoses(n: nat)
    requires n >= MAX64
    ensures Wrapped(n) + MAX64 <= n
  {
    assert n == n / MAX64 * MAX64 + n % MAX64;
  }

  /** The factor is the one meant exactly if the scaled reward fits in 64 bits, whatever the outputs. */
  lemma FactorIsExact(total: uint64, shares: nat)
    requires 0 < shares < MAX64
    ensures Factor(total, shares) == total * PRECISION / shares <==> total * PRECISION < MAX64
  {
    if total * PRECISION >= MAX64 {
      WrapLoses(total * PRECISION);
      LargerQuotient(Wrapped(total * PRECISION), total * PRECISION, shares);
    } else {
      WrappedSmall(total * PRECISION);
    }
  }

  lemma {:induction false} ScaledSumBounds(coins: seq<uint64>, f: uint64)
    requires forall i :: 0 <= i < |coins| ==> ScaledCoin(coins[i], f) == coins[i] * f / PRECISION
    ensures PRECISION * Sum(Scaled(coins, f)) <= Sum(coins) * f
    ensures coins != [] ==> Sum(coins) * f < PRECISION * (Sum(Scaled(coins, f)) + |coins|)
  {
    if coins == [] {
    } else {
      var front, c := coins[..|coins| - 1], coins[|coins| - 1];
      ScaledSumBounds(front, f);
      Distribute(Sum(front), c, f);
      assert Scaled(coins, f)[..|coins| - 1] == Scaled(front, f);
    }
  }

  lemma LastOutput(coins: seq<uint64>, f: uint64)
    requires coins != []
    ensures var n := |coins| - 1;
            && Sum(coins) == Sum(coins[..n]) + coins[n]
            && Sum(Scaled(coins, f)) == Sum(Scaled(coins[..n], f)) + ScaledCoin(coins[n], f)
  {
    assert Scaled(coins, f)[..|coins| - 1] == Scaled(coins[..|coins| - 1], f);
  }

  /** Two losses are none exactly if neither is one. */
  lemma NoLoss(kept: nat, whole: nat, p: nat)
    requires PRECISION * kept <= whole
    ensures PRECISION * (kept + p / PRECISION) == whole + p <==> PRECISION * kept == whole && p % PRECISION == 0
  {
  }

  lemma UnroundedFront(coins: seq<uint64>, f: uint64)
    requires coins != []
    ensures var n := |coins| - 1;
            (forall i :: 0 <= i < |coins| ==> coins[i] * f % PRECISION == 0)
            <==> (forall i :: 0 <= i < n ==> coins[..n][i] * f % PRECISION == 0) && coins[n] * f % PRECISION == 0
  {
    var n := |coins| - 1;
    assert forall i :: 0 <= i < n ==> coins[..n][i] == coins[i];
  }

  /** Scaling loses nothing exactly if it rounds no output. */
  lemma {:induction false} ScaledSumIsExact(coins: seq<uint64>, f: uint64)
    requires forall i :: 0 <= i < |coins| ==> ScaledCoin(coins[i], f) == coins[i] * f / PRECISION
    ensures PRECISION * Sum(Scaled(coins, f)) == Sum(coins) * f
            <==> forall i :: 0 <= i < |coins| ==> coins[i] * f % PRECISION == 0
  {
    if coins == [] {
    } else {
      hide ScaledCoin, Sum, Scaled;
      var n := |coins| - 1;
      var front, c := coins[..n], coins[n];
      ScaledSumIsExact(front, f);
      ScaledSumBounds(front, f);
      Distribute(Sum(front), c, f);
      LastOutput(coins, f);
      NoLoss(Sum(Scaled(front, f)), Sum(front) * f, c * f);
      UnroundedFront(coins, f);
    }
  }

  /** The pass keeps the sum within the reward and misses it by less than one satoshi an output plus
      the rounding of the factor. */
  lemma PassBounds(coins: seq<uint64>, total: uint64, f: nat)
    requires Fits(coins, total) && Sum(coins) > 0 && f == Factor(total, Sum(coins))
    ensures Sum(Scaled(coins, f)) <= total
    ensures PRECISION * total < PRECISION * (Sum(Scaled(coins, f)) + |coins|) + Sum(coins)
  {
    forall i | 0 <= i < |coins| ensures ScaledCoin(coins[i], f) == coins[i] * f / PRECISION {
      NoProductWraps(coins, total, f, i);
    }
    ScaledSumBounds(coins, f);
    FactorBounds(total, Sum(coins));
  }

  lemma ScaledOrder(c: nat, d: nat, f: nat)
    requires c <= d
    ensures c * f / PRECISION <= d * f / PRECISION
  {
    MulMonotone(c, d, f);
  }

  /** The pass keeps the order of the outputs and leaves empty ones empty. */
  lemma PassKeepsOrder(coins: seq<uint64>, total: uint64, f: nat, i: nat, j: nat)
    requires Fits(coins, total) && Sum(coins) > 0 && f == Factor(total, Sum(coins)) && i < |coins| && j < |coins|
    ensures coins[i] <= coins[j] ==> Scaled(coins, f)[i] <= Scaled(coins, f)[j]
    ensures coins[i] == 0 ==> Scaled(coins, f)[i] == 0
  {
    NoProductWraps(coins, total, f, i);
    NoProductWraps(coins, total, f, j);
    if coins[i] <= coins[j] {
      ScaledOrder(coins[i], coins[j], f);
    }
  }

  lemma WrappedSmall(n: nat)
    requires n < MAX64
    ensures Wrapped(n) == n
  {
  }

  /** An activation in unbounded arithmetic. */
  lemma ActivateExactly(coins: seq<uint64>, total: uint64)
    requires Fits(coins, total)
    ensures Sum(coins) == 0 || Sum(coins) == total ==> Activate(coins, total) == Returned(coins)
    ensures Sum(coins) != 0 && Sum(coins) != total ==>
              var scaled := Scaled(coins, Factor(total, Sum(coins)));
              Activate(coins, total) == if Sum(scaled) == total then Returned(scaled) else Retry(scaled)
  {
    WrappedSmall(Sum(coins));
    if Sum(coins) != 0 && Sum(coins) != total {
      var f := Factor(total, Sum(coins));
      PassBounds(coins, total, f);
      WrappedSmall(Sum(Scaled(coins, f)));
    }
  }

  // ---------- Passes after the first ----------

  lemma LateFactor(total: uint64, shares: nat)
    requires 0 < shares <= total && total * PRECISION < MAX64
    ensures Factor(total, shares) >= PRECISION
  {
    FactorBounds(total, shares);
    var f := Factor(total, shares);
    if f < PRECISION {
      MulMonotone(f + 1, PRECISION, shares);
    }
  }

  /** Once the sum is within the reward no output shrinks. */
  lemma NoCoinShrinks(coins: seq<uint64>, total: uint64, f: nat, i: nat)
    requires Fits(coins, total) && 0 < Sum(coins) <= total && i < |coins| && f == Factor(total, Sum(coins))
    ensures coins[i] <= ScaledCoin(coins[i], f)
  {
    NoProductWraps(coins, total, f, i);
    LateFactor(total, Sum(coins));
    MulMonotone(PRECISION, f, coins[i]);
  }

  lemma {:induction false} SumGrows(a: seq<uint64>, b: seq<uint64>)
    requires |a| == |b| && forall i :: 0 <= i < |a| ==> a[i] <= b[i]
    ensures Sum(a) <= Sum(b) && (Sum(a) == Sum(b) <==> a == b)
  {
    if a == [] {
    } else {
      var n := |a| - 1;
      SumGrows(a[..n], b[..n]);
      assert a == a[..n] + [a[n]] && b == b[..n] + [b[n]];
    }
  }

  /** The gap to the reward strictly falls on every pass that changes anything. */
  lemma LatePass(coins: seq<uint64>, total: uint64, f: nat)
    requires Fits(coins, total) && 0 < Sum(coins) <= total && f == Factor(total, Sum(coins))
    ensures Sum(coins) <= Sum(Scaled(coins, f)) <= total
    ensures Scaled(coins, f) != coins ==> total - Sum(Scaled(coins, f)) < total - Sum(coins)
    ensures forall i :: 0 <= i < |coins| ==> coins[i] <= Scaled(coins, f)[i]
  {
    forall i | 0 <= i < |coins| ensures coins[i] <= Scaled(coins, f)[i] {
      NoCoinShrinks(coins, total, f, i);
    }
    SumGrows(coins, Scaled(coins, f));
    PassBounds(coins, total, f);
  }

  // ---------- The whole recursion ----------

  /** Settled: the recursion ends with these coins. Stalled: a pass reproduces its own input. */
  datatype Outcome = Settled(coins: seq<uint64>) | Stalled(coins: seq<uint64>)

  lemma RetryFits(coins: seq<uint64>, total: uint64)
    requires Fits(coins, total) && Activate(coins, total).Retry?
    ensures var next := Activate(coins, total).coins;
            Sum(next) < total && Fits(next, total) && |next| == |coins|
            && (Sum(coins) <= total && next != coins ==> Sum(coins) < Sum(next))
  {
    ActivateExactly(coins, total);
    PassBounds(coins, total, Factor(total, Sum(coins)));
    if Sum(coins) <= total {
      LatePass(coins, total, Factor(total, Sum(coins)));
    }
  }

  function Run(coins: seq<uint64>, total: uint64): (o: Outcome)
    requires Fits(coins, total)
    decreases Sum(coins) > total, if Sum(coins) > total then 0 else total - Sum(coins)
  {
    match Activate(coins, total)
    case Returned(c) => Settled(c)
    case Retry(c) =>
      RetryFits(coins, total);
      if c == coins then Stalled(c) else Run(c, total)
  }

  /** The result of the source's recursion if it ends within `n` activations. */
  function Within(coins: seq<uint64>, total: uint64, n: nat): Option<seq<uint64>>
    decreases n
  {
    if n == 0 then None
    else match Activate(coins, total)
         case Returned(c) => Some(c)
         case Retry(c) => Within(c, total, n - 1)
  }

  /** `rebalance` with its tail call. The code has no bound on its recursion; `depth` cuts it off. */
  method RebalanceOutputs(coins: array<uint64>, totalCoins: uint64, depth: nat) returns (settled: bool)
    modifies coins
    ensures Within(old(coins[..]), totalCoins, depth) == if settled then Some(coins[..]) else None
    decreases depth
  {
    if depth == 0 {
      return false;
    }
    var retry := RebalanceOnce(coins, totalCoins);
    if !retry {
      return true;
    }
    settled := RebalanceOutputs(coins, totalCoins, depth - 1);
  }

  lemma WithinStep(coins: seq<uint64>, total: uint64, n: nat)
    ensures |Activate(coins, total).coins| == |coins|
    ensures n > 0 ==> Within(coins, total, n) == if Activate(coins, total).Returned? then Some(Activate(coins, total).coins)
                                                 else Within(Activate(coins, total).coins, total, n - 1)
  {
  }

  lemma ReturnedIsBalanced(coins: seq<uint64>, total: uint64)
    requires Activate(coins, total).Returned?
    ensures var c := Activate(coins, total).coins;
            (Wrapped(Sum(c)) == total || Wrapped(Sum(c)) == 0) && Activate(c, total) == Returned(c)
  {
    hide Sum, Scaled, Factor;
  }

  /** Whenever `rebalance` returns, with or without wrap-around on the way, the sum as the code adds it up is the
      reward or zero, and another call changes nothing. */
  lemma {:induction false} ReturnsBalanced(coins: seq<uint64>, total: uint64, n: nat)
    requires Within(coins, total, n).Some?
    ensures var c := Within(coins, total, n).value;
            (Wrapped(Sum(c)) == total || Wrapped(Sum(c)) == 0) && Activate(c, total) == Returned(c)
    decreases n
  {
    hide Activate, Sum, Wrapped;
    WithinStep(coins, total, n);
    if Activate(coins, total).Returned? {
      ReturnedIsBalanced(coins, total);
    } else {
      ReturnsBalanced(Activate(coins, total).coins, total, n - 1);
    }
  }

  lemma ActivationKeepsZero(coins: seq<uint64>, total: uint64, i: nat)
    requires i < |coins| && coins[i] == 0
    ensures |Activate(coins, total).coins| == |coins| && Activate(coins, total).coins[i] == 0
  {
    hide Sum, Factor;
  }

  /** An output without coins has none when `rebalance` returns. */
  lemma {:induction false} KeepsZero(coins: seq<uint64>, total: uint64, n: nat, i: nat)
    requires Within(coins, total, n).Some? && i < |coins| && coins[i] == 0
    ensures |Within(coins, total, n).value| == |coins| && Within(coins, total, n).value[i] == 0
    decreases n
  {
    hide Activate;
    WithinStep(coins, total, n);
    ActivationKeepsZero(coins, total, i);
    if Activate(coins, total).Returned? {
    } else {
      KeepsZero(Activate(coins, total).coins, total, n - 1, i);
    }
  }

  lemma {:induction false} StalledRepeats(coins: seq<uint64>, total: uint64, n: nat)
    requires Activate(coins, total) == Retry(coins)
    ensures Within(coins, total, n) == None
  {
    if n == 0 {
    } else {
      StalledRepeats(coins, total, n - 1);
    }
  }

  /** How many more activations a run that settles can take. */
  function Budget(coins: seq<uint64>, total: uint64): nat {
    if Sum(coins) > total then total + 2 else total - Sum(coins) + 1
  }

  lemma {:induction false} WithinFollowsRun(coins: seq<uint64>, total: uint64, n: nat)
    requires Fits(coins, total) && Within(coins, total, n).Some?
    ensures Run(coins, total) == Settled(Within(coins, total, n).value)
    decreases n
  {
    hide Activate, Sum, Fits;
    match Activate(coins, total)
    case Returned(_) =>
    case Retry(next) =>
      if next == coins {
        StalledRepeats(coins, total, n);
      } else {
        RetryFits(coins, total);
        WithinFollowsRun(next, total, n - 1);
      }
  }

  lemma {:induction false} RunEndsWithin(coins: seq<uint64>, total: uint64, n: nat)
    requires Fits(coins, total) && Run(coins, total).Settled? && n >= Budget(coins, total)
    ensures Within(coins, total, n).Some?
    decreases n
  {
    hide Activate, Sum, Fits;
    match Activate(coins, total)
    case Returned(_) =>
    case Retry(next) =>
      RetryFits(coins, total);
      assert Run(coins, total) == Run(next, total) && Budget(next, total) < Budget(coins, total);
      RunEndsWithin(next, total, n - 1);
  }

  /** The run is what the recursion does: settled coins are what it returns, and when the run stalls it never returns. */
  lemma RunIsRecursion(coins: seq<uint64>, total: uint64)
    requires Fits(coins, total)
    ensures Run(coins, total).Settled? ==> Within(coins, total, total + 2) == Some(Run(coins, total).coins)
    ensures Run(coins, total).Stalled? ==> forall n :: Within(coins, total, n) == None
  {
    hide Within, Run;
    if Run(coins, total).Settled? {
      RunEndsWithin(coins, total, total + 2);
      WithinFollowsRun(coins, total, total + 2);
    }
    forall n | Within(coins, total, n).Some? ensures Run(coins, total).Settled? {
      WithinFollowsRun(coins, total, n);
    }
  }

  /** Settled coins add up to the reward or to zero, stalled coins stay short of the reward and are not all zero,
      and a pass reproduces them. */
  lemma {:induction false} Dichotomy(coins: seq<uint64>, total: uint64)
    requires Fits(coins, total)
    ensures var o := Run(coins, total);
            && |o.coins| == |coins| && Fits(o.coins, total)
            && (o.Settled? ==> Sum(o.coins) == total || Sum(o.coins) == 0)
            && (o.Settled? ==> Activate(o.coins, total) == Returned(o.coins))
            && (o.Stalled? ==> 0 < Sum(o.coins) < total && Activate(o.coins, total) == Retry(o.coins))
    decreases Sum(coins) > total, if Sum(coins) > total then 0 else total - Sum(coins)
  {
    ActivateExactly(coins, total);
    match Activate(coins, total)
    case Returned(c) =>
      ActivateExactly(c, total);
    case Retry(c) =>
      RetryFits(coins, total);
      if c != coins {
        Dichotomy(c, total);
      }
  }

  // ---------- When a pass stalls ----------

  lemma CoinStalls(c: nat, f: nat)
    requires f >= PRECISION
    ensures c * f / PRECISION == c <==> c * (f - PRECISION) < PRECISION
  {
    Distribute(PRECISION, f - PRECISION, c);
  }

  /** Short of the reward, a pass changes nothing exactly when the excess of the factor over one
      is too small to add a whole satoshi to any output. */
  lemma StallsExactly(coins: seq<uint64>, total: uint64, f: nat)
    requires Fits(coins, total) && 0 < Sum(coins) < total && f == Factor(total, Sum(coins))
    ensures f >= PRECISION
    ensures Activate(coins, total) == Retry(coins) <==>
            forall i :: 0 <= i < |coins| ==> coins[i] * (f - PRECISION) < PRECISION
  {
    LateFactor(total, Sum(coins));
    ActivateExactly(coins, total);
    forall i | 0 <= i < |coins|
      ensures Scaled(coins, f)[i] == coins[i] <==> coins[i] * (f - PRECISION) < PRECISION
    {
      NoProductWraps(coins, total, f, i);
      CoinStalls(coins[i], f);
    }
    if forall i :: 0 <= i < |coins| ==> coins[i] * (f - PRECISION) < PRECISION {
      assert Scaled(coins, f) == coins;
    }
  }

  /** A gap of less than a millionth of the sum is never closed. */
  lemma SmallGapNeverCloses(coins: seq<uint64>, total: uint64)
    requires Fits(coins, total) && 0 < (total - Sum(coins)) * PRECISION < Sum(coins)
    ensures Run(coins, total) == Stalled(coins)
    ensures forall n :: Within(coins, total, n) == None
  {
    hide Sum, Run, Within, Activate;
    var s := Sum(coins);
    LateFactor(total, s);
    FactorBounds(total, s);
    var f := Factor(total, s);
    FactorBelow(f, s, total * PRECISION, PRECISION + 1);
    StallsExactly(coins, total, f);
    StalledNeverEnds(coins, total);
    StalledRun(coins, total);
  }

  lemma StalledRun(coins: seq<uint64>, total: uint64)
    requires Fits(coins, total) && Activate(coins, total) == Retry(coins)
    ensures Run(coins, total) == Stalled(coins)
  {
  }

  /** Three equal shares of a reward of 100 stay at 99: the recursion does not end. */
  lemma ThreeEqualSharesStall()
    ensures Fits([33, 33, 33], 100) && Run([33, 33, 33], 100) == Stalled([33, 33, 33])
    ensures forall n :: Within([33, 33, 33], 100, n) == None
  {
    var coins: seq<uint64> := [33, 33, 33];
    assert coins[..2] == [33, 33] && [33, 33][..1] == [33] && [33][..0] == [];
    assert Sum(coins) == 99;
    assert Factor(100, 99) == 1010101;
    StallsExactly(coins, 100, 1010101);
    forall n ensures Within(coins, 100, n) == None {
      StalledRepeats(coins, 100, n);
    }
  }

  // ---------- When the recursion ends ----------

  /** The pass to come would round nothing, or there is none to come. */
  predicate NothingRounded(coins: seq<uint64>, total: uint64) {
    Sum(coins) == 0 || Sum(coins) == total
    || var f := Wrapped(total * PRECISION) / Sum(coins);
       Sum(coins) * f == total * PRECISION && forall i :: 0 <= i < |coins| ==> coins[i] * f % PRECISION == 0
  }

  /** An activation ends the recursion exactly if neither the factor nor any output is rounded. */
  lemma ReturnsExactly(coins: seq<uint64>, total: uint64)
    requires Fits(coins, total)
    ensures Activate(coins, total).Returned? <==> NothingRounded(coins, total)
  {
    ActivateExactly(coins, total);
    if Sum(coins) != 0 && Sum(coins) != total {
      var f := Factor(total, Sum(coins));
      forall i | 0 <= i < |coins| ensures ScaledCoin(coins[i], f) == coins[i] * f / PRECISION {
        NoProductWraps(coins, total, f, i);
      }
      ScaledSumBounds(coins, f);
      ScaledSumIsExact(coins, f);
      FactorBounds(total, Sum(coins));
    }
  }

  /** The coins after `k` activations; what has returned stays as it is. */
  function Passes(coins: seq<uint64>, total: uint64, k: nat): seq<uint64>
    decreases k
  {
    if k == 0 then coins else Passes(Activate(coins, total).coins, total, k - 1)
  }

  lemma ActivationFits(coins: seq<uint64>, total: uint64)
    requires Fits(coins, total)
    ensures Fits(Activate(coins, total).coins, total) && |Activate(coins, total).coins| == |coins|
  {
    ActivateExactly(coins, total);
    if Activate(coins, total).Retry? {
      RetryFits(coins, total);
    }
  }

  lemma PassesStep(coins: seq<uint64>, total: uint64, k: nat)
    ensures k > 0 ==> Passes(coins, total, k) == Passes(Activate(coins, total).coins, total, k - 1)
  {
  }

  lemma {:induction false} ReturnedStays(coins: seq<uint64>, total: uint64, k: nat)
    requires Activate(coins, total) == Returned(coins)
    ensures Passes(coins, total, k) == coins
  {
    if k == 0 {
    } else {
      ReturnedStays(coins, total, k - 1);
    }
  }

  /** Whatever `rebalance` returns within `n` activations is what `n` passes lead to, for every input. */
  lemma {:induction false} PassesReachResult(coins: seq<uint64>, total: uint64, n: nat)
    requires Within(coins, total, n).Some?
    ensures Passes(coins, total, n) == Within(coins, total, n).value
    decreases n
  {
    hide Activate, Within, Passes;
    NoPasses(coins, total);
    WithinStep(coins, total, n);
    PassesStep(coins, total, n);
    var next := Activate(coins, total).coins;
    if Activate(coins, total).Returned? {
      ReturnedIsBalanced(coins, total);
      ReturnedStays(next, total, n - 1);
    } else {
      PassesReachResult(next, total, n - 1);
    }
  }

  ghost predicate SomePassRoundsNothing(coins: seq<uint64>, total: uint64, n: nat) {
    exists k :: 0 <= k < n && NothingRounded(Passes(coins, total, k), total)
  }

  lemma LaterPasses(coins: seq<uint64>, total: uint64, n: nat)
    requires n > 0
    ensures SomePassRoundsNothing(coins, total, n)
            <==> NothingRounded(coins, total) || SomePassRoundsNothing(Activate(coins, total).coins, total, n - 1)
  {
    hide Activate, NothingRounded;
    var next := Activate(coins, total).coins;
    assert Passes(coins, total, 0) == coins;
    if k :| 0 <= k < n - 1 && NothingRounded(Passes(next, total, k), total) {
      assert Passes(coins, total, k + 1) == Passes(next, total, k);
    }
    if k :| 0 < k < n && NothingRounded(Passes(coins, total, k), total) {
      assert Passes(coins, total, k) == Passes(next, total, k - 1);
    }
  }

  /** `rebalance` ends within `n` activations if and only if one of its first `n` passes rounds nothing. */
  lemma {:induction false} EndsExactly(coins: seq<uint64>, total: uint64, n: nat)
    requires Fits(coins, total)
    ensures Within(coins, total, n).Some? <==> SomePassRoundsNothing(coins, total, n)
    decreases n
  {
    hide Activate, NothingRounded, Fits, Within, SomePassRoundsNothing;
    if n == 0 {
      NoPasses(coins, total);
    } else {
      var next := Activate(coins, total).coins;
      ReturnsExactly(coins, total);
      ActivationFits(coins, total);
      WithinStep(coins, total, n);
      LaterPasses(coins, total, n);
      EndsExactly(next, total, n - 1);
    }
  }

  lemma NoPasses(coins: seq<uint64>, total: uint64)
    ensures Within(coins, total, 0) == None && !SomePassRoundsNothing(coins, total, 0)
  {
  }

  /** Whatever the reward, `rebalance` ends if and only if some pass rounds nothing, and then within as many activations
      as the reward has satoshis, and two. */
  lemma EndsWithinReward(coins: seq<uint64>, total: uint64)
    requires Fits(coins, total)
    ensures (exists n :: Within(coins, total, n).Some?) <==> SomePassRoundsNothing(coins, total, total + 2)
  {
    hide Within, SomePassRoundsNothing, Run;
    EndsExactly(coins, total, total + 2);
    if n :| Within(coins, total, n).Some? {
      WithinFollowsRun(coins, total, n);
      EnoughBudget(coins, total);
      RunEndsWithin(coins, total, total + 2);
    }
  }

  lemma EnoughBudget(coins: seq<uint64>, total: uint64)
    ensures Budget(coins, total) <= total + 2
  {
  }

  // ---------- Rewards of some size ----------

  /** At least three coins of reward for each output and unit of precision. */
  predicate Ample(n: nat, total: uint64) {
    3 * n * PRECISION <= total
  }

  /** What is known of the sums before and after a pass. */
  ghost predicate PassSums(before: nat, after: nat, n: nat, total: nat) {
    0 < before && after <= total && PRECISION * total < PRECISION * (after + n) + before
  }

  lemma PassSumsOf(coins: seq<uint64>, total: uint64)
    requires Fits(coins, total) && 0 < Sum(coins) && Activate(coins, total).Retry?
    ensures var next := Activate(coins, total).coins;
            Fits(next, total) && |next| == |coins| && PassSums(Sum(coins), Sum(next), |coins|, total)
            && Sum(next) < total && (Sum(coins) <= total ==> Sum(coins) <= Sum(next))
  {
    ActivateExactly(coins, total);
    RetryFits(coins, total);
    PassBounds(coins, total, Factor(total, Sum(coins)));
  }

  lemma SmallExcess(s: nat, n: nat, before: nat, total: uint64, f: nat)
    requires Ample(n, total) && total * PRECISION < MAX64 && 0 < n
    requires PassSums(before, s, n, total) && before <= s && f == Factor(total, s)
    ensures f <= PRECISION + 1 && 2 * n * PRECISION <= s
  {
    FactorBounds(total, s);
    SumIsLarge(s, n, before, total);
    FactorBelow(f, s, total * PRECISION, PRECISION + 2);
  }

  lemma SumIsLarge(s: nat, n: nat, before: nat, total: nat)
    requires 3 * n * PRECISION <= total && PassSums(before, s, n, total) && before <= s && 0 < n
    ensures 2 * n * PRECISION <= s && total * PRECISION < (PRECISION + 2) * s
  {
  }

  lemma FactorBelow(f: nat, s: nat, bound: nat, k: nat)
    requires s * f <= bound < k * s
    ensures f < k
  {
    if k <= f {
      MulMonotone(k, f, s);
    }
  }

  /** With the factor one unit above one, the pass leaves a gap too small for another. */
  lemma LastGap(s: nat, after: nat, n: nat, before: nat, total: uint64)
    requires PassSums(before, s, n, total) && before <= s && 2 * n * PRECISION <= s <= after
    requires s * (PRECISION + 1) < PRECISION * (after + n)
    ensures (total - after) * PRECISION < after
  {
  }

  lemma StalledNeverEnds(coins: seq<uint64>, total: uint64)
    requires Activate(coins, total) == Retry(coins)
    ensures forall n :: Within(coins, total, n) == None
  {
    forall n ensures Within(coins, total, n) == None {
      StalledRepeats(coins, total, n);
    }
  }

  lemma FourthStalls(before: nat, coins: seq<uint64>, total: uint64)
    requires Fits(coins, total) && coins != [] && Ample(|coins|, total)
    requires PassSums(before, Sum(coins), |coins|, total) && before <= Sum(coins) < total
    requires Activate(coins, total).Retry? && Factor(total, Sum(coins)) == PRECISION + 1
    ensures forall n :: Within(Activate(coins, total).coins, total, n) == None
  {
    var s, f := Sum(coins), Factor(total, Sum(coins));
    SmallExcess(s, |coins|, before, total, f);
    ActivateExactly(coins, total);
    RetryFits(coins, total);
    LatePass(coins, total, f);
    forall i | 0 <= i < |coins| ensures ScaledCoin(coins[i], f) == coins[i] * f / PRECISION {
      NoProductWraps(coins, total, f, i);
    }
    ScaledSumBounds(coins, f);
    LastGap(s, Sum(Scaled(coins, f)), |coins|, before, total);
    SmallGapNeverCloses(Scaled(coins, f), total);
  }

  /** After two passes that leave something over, the third ends the recursion or it never ends. */
  lemma ThirdDecides(before: nat, coins: seq<uint64>, total: uint64, n: nat)
    requires Fits(coins, total) && coins != [] && Ample(|coins|, total)
    requires PassSums(before, Sum(coins), |coins|, total) && before <= Sum(coins) < total
    requires Within(coins, total, n).Some?
    ensures Activate(coins, total).Returned?
  {
    hide Activate, Sum, Within;
    var f := Factor(total, Sum(coins));
    NoPasses(coins, total);
    WithinStep(coins, total, n);
    LateFactor(total, Sum(coins));
    SmallExcess(Sum(coins), |coins|, before, total, f);
    if f == PRECISION {
      StallsExactly(coins, total, f);
      if Activate(coins, total) == Retry(coins) {
        StalledNeverEnds(coins, total);
      }
    } else if Activate(coins, total).Retry? {
      FourthStalls(before, coins, total);
    }
  }

  lemma SecondDecides(before: nat, coins: seq<uint64>, total: uint64, n: nat)
    requires Fits(coins, total) && coins != [] && Ample(|coins|, total)
    requires PassSums(before, Sum(coins), |coins|, total) && 0 < Sum(coins) < total && Within(coins, total, n).Some?
    ensures Within(coins, total, 2).Some?
  {
    hide Activate, Sum, Within, Ample, Fits, PassSums;
    NoPasses(coins, total);
    WithinStep(coins, total, n);
    WithinStep(coins, total, 2);
    if Activate(coins, total).Retry? {
      var next := Activate(coins, total).coins;
      PassSumsOf(coins, total);
      ThirdDecides(Sum(coins), next, total, n - 1);
      WithinStep(next, total, 1);
    }
  }

  lemma {:induction false} WithinGrows(coins: seq<uint64>, total: uint64, m: nat, n: nat)
    requires m <= n && Within(coins, total, m).Some?
    ensures Within(coins, total, n) == Within(coins, total, m)
    decreases m
  {
    hide Activate, Within;
    NoPasses(coins, total);
    WithinStep(coins, total, m);
    WithinStep(coins, total, n);
    if Activate(coins, total).Returned? {
    } else {
      WithinGrows(Activate(coins, total).coins, total, m - 1, n - 1);
    }
  }

  lemma EmptyIsBalanced(coins: seq<uint64>, total: uint64, n: nat)
    requires n > 0 && (Sum(coins) == 0 || Sum(coins) == total) && Fits(coins, total)
    ensures Activate(coins, total) == Returned(coins) && Within(coins, total, n) == Some(coins)
  {
    ActivateExactly(coins, total);
  }

  lemma RetryHasShares(coins: seq<uint64>, total: uint64)
    requires Fits(coins, total) && Activate(coins, total).Retry?
    ensures Sum(coins) > 0 && coins != []
  {
    ActivateExactly(coins, total);
  }

  lemma ThreeAreEnough(coins: seq<uint64>, total: uint64, n: nat)
    requires Fits(coins, total) && Ample(|coins|, total) && Within(coins, total, n).Some?
    ensures Within(coins, total, 3).Some?
  {
    hide Activate, Sum, Within, Ample, Fits, PassSums;
    NoPasses(coins, total);
    WithinStep(coins, total, n);
    WithinStep(coins, total, 3);
    if Activate(coins, total).Retry? {
      var next := Activate(coins, total).coins;
      RetryHasShares(coins, total);
      PassSumsOf(coins, total);
      if Sum(next) == 0 {
        EmptyIsBalanced(next, total, 2);
      } else {
        SecondDecides(Sum(coins), next, total, n - 1);
      }
    }
  }

  /** For a reward of at least three million satoshis an output, `rebalance` ends within three activations or never. */
  lemma EndsWithinThree(coins: seq<uint64>, total: uint64)
    requires Fits(coins, total) && Ample(|coins|, total)
    ensures (exists n :: Within(coins, total, n).Some?) <==> Within(coins, total, 3).Some?
    ensures forall n :: Within(coins, total, n).Some? ==> Within(coins, total, n) == Within(coins, total, 3)
  {
    hide Activate, Within, Ample, Fits;
    forall n | Within(coins, total, n).Some? ensures Within(coins, total, n) == Within(coins, total, 3) {
      ThreeAreEnough(coins, total, n);
      if n <= 3 {
        WithinGrows(coins, total, n, 3);
      } else {
        WithinGrows(coins, total, 3, n);
      }
    }
  }

  // ---------- Ending at zero ----------

  lemma {:induction false} SumIsZero(coins: seq<uint64>)
    ensures Sum(coins) == 0 <==> forall i :: 0 <= i < |coins| ==> coins[i] == 0
  {
    if coins == [] {
    } else {
      var n := |coins| - 1;
      SumIsZero(coins[..n]);
      assert forall i :: 0 <= i < n ==> coins[i] == coins[..n][i];
    }
  }

  lemma {:induction false} StaysPositive(coins: seq<uint64>, total: uint64, n: nat)
    requires Fits(coins, total) && 0 < Sum(coins) <= total && Within(coins, total, n).Some?
    ensures Sum(Within(coins, total, n).value) == total
    decreases n
  {
    hide Activate, Within, Sum;
    NoPasses(coins, total);
    WithinStep(coins, total, n);
    ActivateExactly(coins, total);
    if Activate(coins, total).Returned? {
    } else {
      PassSumsOf(coins, total);
      StaysPositive(Activate(coins, total).coins, total, n - 1);
    }
  }

  lemma ScaledToZero(coins: seq<uint64>, total: uint64, f: nat)
    requires Fits(coins, total) && Sum(coins) > 0 && f == Factor(total, Sum(coins))
    ensures Sum(Scaled(coins, f)) == 0 <==> forall i :: 0 <= i < |coins| ==> coins[i] * f < PRECISION
  {
    hide Factor, Sum, Fits;
    var scaled := Scaled(coins, f);
    SumIsZero(scaled);
    forall i | 0 <= i < |coins| ensures scaled[i] == 0 <==> coins[i] * f < PRECISION {
      NoProductWraps(coins, total, f, i);
      hide ScaledCoin;
      assert scaled[i] == coins[i] * f / PRECISION;
    }
  }

  lemma FirstPassIsZero(coins: seq<uint64>, total: uint64)
    requires Fits(coins, total) && total > 0 && Sum(coins) > 0 && Sum(coins) != total
    ensures var next := Activate(coins, total).coins;
            && Sum(next) <= total && Fits(next, total)
            && (Sum(next) == 0 <==> forall i :: 0 <= i < |coins| ==> coins[i] * Factor(total, Sum(coins)) < PRECISION)
            && (Activate(coins, total).Returned? ==> Sum(next) == total)
  {
    hide Activate, Sum, Factor, Scaled;
    ActivateExactly(coins, total);
    ScaledToZero(coins, total, Factor(total, Sum(coins)));
    PassBounds(coins, total, Factor(total, Sum(coins)));
  }

  /** Non-zero shares of a non-zero reward end with every output at zero, exactly if the first factor scales each of
      them below one satoshi; the code then returns although nothing was shared out. */
  lemma EndsAtZeroExactly(coins: seq<uint64>, total: uint64)
    requires Fits(coins, total) && total > 0 && Sum(coins) > 0
    ensures (exists n :: Within(coins, total, n).Some? && Sum(Within(coins, total, n).value) == 0)
            <==> Sum(coins) != total && forall i :: 0 <= i < |coins| ==> coins[i] * Factor(total, Sum(coins)) < PRECISION
  {
    hide Activate, Within, Sum, Factor;
    if Sum(coins) == total {
      forall n | Within(coins, total, n).Some? ensures Within(coins, total, n).value == coins {
        NoPasses(coins, total);
        EmptyIsBalanced(coins, total, n);
      }
    } else {
      FirstPassIsZero(coins, total);
      var next := Activate(coins, total).coins;
      if Sum(next) == 0 {
        EmptyIsBalanced(next, total, 1);
        WithinStep(coins, total, 2);
        assert Within(coins, total, 2).Some? && Sum(Within(coins, total, 2).value) == 0;
      } else {
        forall n: nat | Within(coins, total, n).Some? ensures Sum(Within(coins, total, n).value) == total {
          NoPasses(coins, total);
          WithinStep(coins, total, n);
          if Activate(coins, total).Retry? {
            StaysPositive(next, total, n - 1);
          }
        }
      }
    }
  }

  /** Two outputs of a hundred million shares and a reward of one satoshi end at zero. */
  lemma TinyRewardIsLost()
    ensures Fits([100000000, 100000000], 1) && Within([100000000, 100000000], 1, 2) == Some([0, 0])
  {
    var coins: seq<uint64> := [100000000, 100000000];
    assert coins[..1] == [100000000] && [100000000][..0] == [];
    assert Sum(coins) == 200000000 && Factor(1, 200000000) == 0;
    assert Scaled(coins, 0) == [0, 0];
    SumIsZero([0, 0]);
  }

  /** The reward is shared out in full if and only if there are shares, they are not all scaled to zero, and one of
      the first three passes rounds nothing. */
  lemma SharesOutExactly(coins: seq<uint64>, total: uint64)
    requires Fits(coins, total) && Ample(|coins|, total) && total > 0
    ensures (exists n :: Within(coins, total, n).Some? && Sum(Within(coins, total, n).value) == total)
            <==> && Sum(coins) > 0
                 && (Sum(coins) == total || exists i :: 0 <= i < |coins| && coins[i] * Factor(total, Sum(coins)) >= PRECISION)
                 && SomePassRoundsNothing(coins, total, 3)
  {
    hide SomePassRoundsNothing, Activate, Within, Sum, Factor, Ample;
    EndsExactly(coins, total, 3);
    EndsWithinThree(coins, total);
    if Sum(coins) == 0 {
      forall n | Within(coins, total, n).Some? ensures Within(coins, total, n).value == coins {
        NoPasses(coins, total);
        EmptyIsBalanced(coins, total, n);
      }
    } else {
      EndsAtZeroExactly(coins, total);
      forall n | Within(coins, total, n).Some?
        ensures Sum(Within(coins, total, n).value) == total || Sum(Within(coins, total, n).value) == 0
      {
        WithinFollowsRun(coins, total, n);
        Dichotomy(coins, total);
      }
    }
  }
}
