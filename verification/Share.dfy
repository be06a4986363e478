/** Network state, jobs and the decision on a submitted share (lib/stratum/NetworkState.cpp,
    lib/stratum/StratumJob.cpp, lib/mining/BlockHeader.cpp). */
module Share {
  import opened ByteStrings
  import opened Hash256
  import opened Coinbase
  import opened Merkle

  // ---------- What a job is made of ----------

  datatype NetworkState = NetworkState(
    version: uint32,
    bits: uint32,
    miningStartTime: uint32,
    blockHeight: uint32,
    previousBlock: Hash,
    miningTarget: Hash,
    coinbaseCoins: uint64)
  {
    /** Initialised once by the constructors. */
    function MiningDiff(): Double {
      Quotient(Diff1(), miningTarget).DividedBy(4096.0)
    }

    /** `operator!=` looks at the height and the previous block only. */
    predicate Differs(them: NetworkState) {
      if blockHeight != them.blockHeight then true
      else if !(previousBlock == them.previousBlock) then true
      else false
    }
  }

  datatype Generation = Generation(
    network: NetworkState,
    transactions: seq<seq<byte>>,
    commitment: seq<byte>,
    merkleBranch: seq<Hash>)

  type Tx = t: CoinbaseTransaction | t.Valid() witness CoinbaseTransaction([], 0, 0)

  /** A coinbase transaction together with the generation information it was generated from.
      The origin is history: no decision of the pool reads it. */
  datatype BuiltCoinbase = BuiltCoinbase(origin: Generation, tx: Tx)

  datatype Job = Job(id: uint32, diff: real, creationTime: uint32, generation: Generation, coinbase: BuiltCoinbase)

  // ---------- Block header ----------

  /** `swap32` on an integer: its host bytes read big-endian. */
  function SwappedInt(n: uint32): uint32 {
    FromLE32IsUInt32(LE(n, 4));
    FromBE(LE(n, 4))
  }

  /** The 80 bytes of the header structure on a little-endian host. */
  function Header(version: uint32, previousBlock: Hash, merkleRoot: Hash, time: uint32, bits: uint32, nonce: uint32): (h: seq<byte>)
    ensures |h| == 80
    ensures h[..4] == LE(version, 4) && h[4..36] == previousBlock && h[36..68] == merkleRoot
    ensures h[68..72] == LE(time, 4) && h[72..76] == Reversed(LE(bits, 4)) && h[76..] == LE(nonce, 4)
  {
    FromBEIsReversedLE(LE(bits, 4));
    LEOfFromLE(Reversed(LE(bits, 4)));
    LE(version, 4) + previousBlock + merkleRoot + LE(time, 4) + LE(SwappedInt(bits), 4) + LE(nonce, 4)
  }

  // ---------- The share ----------

  /** The coinbase with the miner's extranonces filled in. */
  function ShareCoinbase(job: Job, extraNonce1: uint32, extraNonce2: uint32): seq<byte> {
    var tx: CoinbaseTransaction := job.coinbase.tx;
    tx.Part1() + LE(extraNonce1, 4) + LE(extraNonce2, 4) + tx.Part2()
  }

  function ShareHeader(job: Job, time: uint32, nonce: uint32, coinbase: seq<byte>, sha256d: Hasher): seq<byte> {
    var network := job.generation.network;
    Header(network.version, network.previousBlock, GetRoot(sha256d, sha256d(coinbase), job.generation.merkleBranch),
           time, network.bits, nonce)
  }

  /** The block hash is compared most significant byte first. */
  function BlockHash(header: seq<byte>, hasher: Hasher): Hash {
    Reversed(hasher(header))
  }

  /** The difficulty of a share in the unit of job difficulties. */
  function ShareMiningDiff(hash: Hash): Double {
    Quotient(Diff1(), hash).DividedBy(4096.0).Times(256.0)
  }

  /** What is handed to the block submitter. */
  datatype Block = Block(header: seq<byte>, coinbase: seq<byte>, transactions: seq<seq<byte>>)

  /** Return value of `checkSolution`, or the exception "low diff". */
  datatype Verdict = Accepted(submitted: bool) | LowDiff

  predicate Refused(job: Job, hash: Hash) {
    ShareMiningDiff(hash).LessThan(Finite(job.diff))
  }

  predicate SolvesBlock(job: Job, hash: Hash) {
    AtMost(hash, job.generation.network.miningTarget)
  }

  /** Difficulty `diff` asked of the number `v` that a header hashes to, up to the error of the division: the verdict can
      be a success only if 16 * diff * v is at most the difficulty-one target `one`, and a refusal only if it is more. */
  predicate Decides(verdict: Verdict, diff: real, v: nat, one: nat) {
    && (v == 0 ==> verdict.Accepted?)
    && (v > 0 && verdict.Accepted? ==> 16.0 * diff * v as real <= one as real * (1.0 + EPSILON))
    && (v > 0 && verdict.LowDiff? ==> one as real < 16.0 * diff * v as real * (1.0 + EPSILON))
  }

  lemma RatioDecides(q: real, d: real, v: real, diff: real)
    requires v > 0.0 && q / (1.0 + EPSILON) <= d / v <= q * (1.0 + EPSILON)
    ensures q / 4096.0 * 256.0 >= diff ==> 16.0 * diff * v <= d * (1.0 + EPSILON)
    ensures q / 4096.0 * 256.0 < diff ==> d < 16.0 * diff * v * (1.0 + EPSILON)
  {
    var e, r := 1.0 + EPSILON, d / v;
    assert r * v == d && q / e * e == q;
    assert q / 4096.0 * 256.0 == q / 16.0;
    if q / 16.0 >= diff {
      ProductOrder(q / e, r, e);
      ProductOrder(16.0 * diff, r * e, v);
      assert r * e * v == d * e;
    } else {
      StrictProduct(q, 16.0 * diff, e);
      StrictProduct(r, 16.0 * diff * e, v);
      assert 16.0 * diff * e * v == 16.0 * diff * v * e;
    }
  }

  lemma StrictProduct(x: real, y: real, k: real)
    requires x < y && k > 0.0
    ensures x * k < y * k
  {
    assert (y - x) * k > 0.0;
  }

  lemma BlockHashNumber(header: seq<byte>, hasher: Hasher)
    ensures FromBE(BlockHash(header, hasher)) == FromLE(hasher(header))
  {
    FromBEIsReversedLE(BlockHash(header, hasher));
    ReversedTwice(hasher(header));
  }

  lemma RefusedByRatio(job: Job, hash: Hash)
    ensures Quotient(Diff1(), hash).Finite? ==>
              (Refused(job, hash) <==> Quotient(Diff1(), hash).value / 4096.0 * 256.0 < job.diff)
    ensures Quotient(Diff1(), hash).Infinite? ==> !Refused(job, hash)
  {
    hide Quotient, Diff1;
  }

  lemma NeverForZero(hash: Hash)
    requires FromBE(hash) == 0
    ensures Quotient(Diff1(), hash).Infinite?
  {
    hide Diff1;
    TruncationError(hash);
    Diff1IsPositive();
  }

  lemma RefusedDecides(job: Job, hash: Hash)
    ensures Decides(if Refused(job, hash) then LowDiff else Accepted(false), job.diff, FromBE(hash), FromBE(Diff1()))
  {
    hide Quotient, Diff1, FromBE, Refused;
    RefusedByRatio(job, hash);
    if FromBE(hash) == 0 {
      NeverForZero(hash);
    } else {
      QuotientError(Diff1(), hash);
      RatioDecides(Quotient(Diff1(), hash).value, FromBE(Diff1()) as real, FromBE(hash) as real, job.diff);
    }
  }

  lemma DecidesAlike(verdict: Verdict, other: Verdict, diff: real, v: nat, one: nat)
    requires Decides(verdict, diff, v, one) && verdict.LowDiff? == other.LowDiff?
    ensures Decides(other, diff, v, one)
  {
  }

  lemma SubmitsExactly(job: Job, time: uint32, nonce: uint32, extraNonce1: uint32, extraNonce2: uint32, sha256d: Hasher,
                       hasher: Hasher)
    ensures var header := ShareHeader(job, time, nonce, ShareCoinbase(job, extraNonce1, extraNonce2), sha256d);
            var hash := BlockHash(header, hasher);
            var v := FromLE(hasher(header));
            && (SolvesBlock(job, hash) <==> v <= FromBE(job.generation.network.miningTarget))
            && forall verdict: Verdict :: verdict.LowDiff? == Refused(job, hash) ==> Decides(verdict, job.diff, v, DIFF1)
  {
    hide ShareHeader, ShareCoinbase, BlockHash, Refused, Decides, Diff1;
    Diff1Value();
    var header := ShareHeader(job, time, nonce, ShareCoinbase(job, extraNonce1, extraNonce2), sha256d);
    var hash := BlockHash(header, hasher);
    BlockHashNumber(header, hasher);
    AtMostIsNumeric(hash, job.generation.network.miningTarget);
    RefusedDecides(job, hash);
    forall verdict: Verdict | verdict.LowDiff? == Refused(job, hash) ensures Decides(verdict, job.diff, FromLE(hasher(header)), DIFF1) {
      DecidesAlike(if Refused(job, hash) then LowDiff else Accepted(false), verdict, job.diff, FromBE(hash), DIFF1);
    }
  }

  /** `checkSolution`. The block goes out before the difficulty is looked at. With `v` the number that the rebuilt header
      hashes to, least significant byte first, the block goes out exactly if `v` is at most the network's target. */
  method CheckSolution(job: Job, time: uint32, nonce: uint32, extraNonce1: uint32, extraNonce2: uint32,
                       sha256d: Hasher, hasher: Hasher)
    returns (verdict: Verdict, submissions: seq<Block>)
    ensures var coinbase := ShareCoinbase(job, extraNonce1, extraNonce2);
            var header := ShareHeader(job, time, nonce, coinbase, sha256d);
            var hash := BlockHash(header, hasher);
            && submissions == (if SolvesBlock(job, hash) then [Block(header, coinbase, job.generation.transactions)] else [])
            && verdict == (if Refused(job, hash) then LowDiff else Accepted(SolvesBlock(job, hash)))
    ensures var v := FromLE(hasher(ShareHeader(job, time, nonce, ShareCoinbase(job, extraNonce1, extraNonce2), sha256d)));
            && (submissions != [] <==> v <= FromBE(job.generation.network.miningTarget))
            && (verdict.Accepted? ==> (verdict.submitted <==> submissions != []))
            && Decides(verdict, job.diff, v, DIFF1)
  {
    hide Decides, Quotient, Diff1, Header, FromLE, FromBE, Reversed;
    SubmitsExactly(job, time, nonce, extraNonce1, extraNonce2, sha256d, hasher);
    var tx: CoinbaseTransaction := job.coinbase.tx;
    var rawCoinbaseTx := tx.Part1();
    rawCoinbaseTx := rawCoinbaseTx + LE(extraNonce1, 4);
    rawCoinbaseTx := rawCoinbaseTx + LE(extraNonce2, 4);
    rawCoinbaseTx := rawCoinbaseTx + tx.Part2();
    var network := job.generation.network;
    var merkleRoot := GetRoot(sha256d, sha256d(rawCoinbaseTx), job.generation.merkleBranch);
    var header := Header(network.version, network.previousBlock, merkleRoot, time, network.bits, nonce);
    var hash := Reverse(hasher(header));
    var submit := IsLower(hash, network.miningTarget, true);
    submissions := [];
    if submit {
      submissions := submissions + [Block(header, rawCoinbaseTx, job.generation.transactions)];
    }
    var ratio := Divide(Diff1(), hash);
    var shareDiff := ratio.DividedBy(4096.0);
    var shareMiningDiff := shareDiff.Times(256.0);
    if shareMiningDiff.LessThan(Finite(job.diff)) {
      return LowDiff, submissions;
    }
    verdict := Accepted(submit);
  }

  // ---------- The cap on job difficulties ----------

  /** `createJob` lowers a difficulty above the cap to a quarter of it. */
  function CappedDiff(miningDiff: Double, diff: real): real {
    var cap := miningDiff.Times(256.0);
    if cap.LessThan(Finite(diff)) && cap.Finite? then cap.value / 4.0 else diff
  }

  predicate WithinCap(network: NetworkState, diff: real) {
    !network.MiningDiff().Times(256.0).LessThan(Finite(diff))
  }

  lemma MiningDiffIsPositive(network: NetworkState)
    ensures network.MiningDiff().Infinite? || (network.MiningDiff().Finite? && network.MiningDiff().value > 0.0)
  {
    Diff1IsPositive();
    var b := Truncated(network.miningTarget);
    if b > 0 {
      PositiveQuotient(Truncated(Diff1()) as real, b as real);
    }
  }

  lemma PositiveQuotient(x: real, y: real)
    requires x > 0.0 && y > 0.0
    ensures x / y > 0.0
  {
    assert (x / y) * y == x;
  }

  lemma CappedDiffIsWithinCap(network: NetworkState, diff: real)
    ensures WithinCap(network, CappedDiff(network.MiningDiff(), diff))
    ensures diff > 0.0 ==> CappedDiff(network.MiningDiff(), diff) > 0.0
    ensures WithinCap(network, diff) ==> CappedDiff(network.MiningDiff(), diff) == diff
  {
    MiningDiffIsPositive(network);
  }

  lemma ScalingKeepsOrder(x: real, y: real)
    ensures x / 4096.0 * 256.0 < y / 4096.0 * 256.0 <==> x < y
  {
  }

  /** A share that solves the block meets the difficulty of every job within the cap, also where the
      hash or the target is zero. */
  lemma BlockIsNeverLowDiff(network: NetworkState, diff: real, hash: Hash)
    requires WithinCap(network, diff) && AtMost(hash, network.miningTarget)
    ensures !ShareMiningDiff(hash).LessThan(Finite(diff))
  {
    Diff1IsPositive();
    QuotientAntitone(Diff1(), hash, network.miningTarget);
    var q, t := Quotient(Diff1(), hash), Quotient(Diff1(), network.miningTarget);
    if q.Finite? && t.Finite? {
      ScalingKeepsOrder(q.value, t.value);
    }
  }

  /** The cap is exact: it is the largest difficulty at which no block can be refused. */
  lemma CapIsExact(network: NetworkState, diff: real)
    ensures WithinCap(network, diff) <==>
            forall hash: Hash :: AtMost(hash, network.miningTarget) ==> !ShareMiningDiff(hash).LessThan(Finite(diff))
  {
    if WithinCap(network, diff) {
      forall hash: Hash | AtMost(hash, network.miningTarget) ensures !ShareMiningDiff(hash).LessThan(Finite(diff)) {
        BlockIsNeverLowDiff(network, diff, hash);
      }
    } else {
      AtMostIsNumeric(network.miningTarget, network.miningTarget);
      assert ShareMiningDiff(network.miningTarget).LessThan(Finite(diff));
    }
  }

  // ---------- The block that is sent ----------

  /** For a coinbase generated with zero nonces, what a share fills in gives the coinbase built with the miner's. */
  lemma ShareCoinbaseIsBuilt(job: Job, height: uint32, id: seq<byte>, outputs: seq<Output>, built: uint32,
                             extraNonce1: uint32, extraNonce2: uint32)
    requires |outputs| < 0x1_0000_0000_0000_0000
    requires job.coinbase.tx == Build(height, 0, 0, id, outputs, built)
    ensures ShareCoinbase(job, extraNonce1, extraNonce2) == Build(height, extraNonce1, extraNonce2, id, outputs, built).raw
    ensures HeightOf(ShareCoinbase(job, extraNonce1, extraNonce2)) == Some(height)
  {
    hide Build, HeightOf;
    ExtranonceSplice(height, 0, 0, extraNonce1, extraNonce2, id, outputs, built);
    HeightReadsBack(height, extraNonce1, extraNonce2, id, outputs, built);
  }
}
