/** The job manager and the stratum connections as objects, each method proved against a function on
    their values (lib/stratum/JobManager.cpp, lib/stratum/StratumClientConnection.cpp,
    lib/stratum/calls/MiningSubmit.cpp). */
module Pool {
  import opened ByteStrings
  import opened Hash256
  import opened Coinbase
  import opened Merkle
  import opened Share
  import Rebalance

  // ---------- Values ----------

  datatype Manager = Manager(generation: Generation, coinbase: BuiltCoinbase, jobCounter: uint32, defaultDiff: real)

  datatype Reply = Right | UnknownJob(id: uint32) | LowDiffShare

  datatype Message = SetDifficulty(diff: real) | Notify(job: Job, force: bool) | Answer(reply: Reply)

  datatype Client = Client(
    jobs: seq<Job>,
    activeJob: Option<Job>,
    currentDiff: real,
    startedMining: int,
    acceptedShares: real,
    outbox: seq<Message>)

  /** The readings of the system clock that one call takes, one after another. */
  datatype Clock = Clock(measured: int, restarted: int, created: uint32)

  const DIFF_FLOOR: real := 0.01

  // ---------- Creating jobs ----------

  function ChosenDiff(diff: real, clientDiff: real, defaultDiff: real): real {
    if diff >= 0.0 then diff else if clientDiff >= 0.0 then clientDiff else defaultDiff
  }

  /** `diff` is the difficulty wanted if that is within the cap, and a quarter of the cap otherwise. */
  predicate IsCapped(network: NetworkState, wanted: real, diff: real) {
    if WithinCap(network, wanted) then diff == wanted
    else network.MiningDiff().Finite? && diff == 64.0 * network.MiningDiff().value
  }

  lemma CappedDiffIsCapped(network: NetworkState, wanted: real)
    ensures IsCapped(network, wanted, CappedDiff(network.MiningDiff(), wanted))
  {
    hide NetworkState.MiningDiff;
    MiningDiffIsPositive(network);
  }

  function CreatedJob(m: Manager, clientDiff: real, diff: real, created: uint32): (r: (Manager, Job)) {
    var network := m.generation.network;
    var id: uint32 := (m.jobCounter + 1) % 0x1_0000_0000;
    var capped := CappedDiff(network.MiningDiff(), ChosenDiff(diff, clientDiff, m.defaultDiff));
    var creation: uint32 := if created < network.miningStartTime then network.miningStartTime else created;
    (m.(jobCounter := id), Job(id, capped, creation, m.generation, m.coinbase))
  }

  /** `calcNewDiff`: the difficulty to aim for (-1 for no opinion) and the new start of the measurement. */
  function NewDiff(c: Client, clock: Clock): (real, int) {
    var total := clock.measured - c.startedMining;
    if total <= 0 then (-1.0, c.startedMining)
    else if c.acceptedShares == 0.0 then
      (if c.currentDiff / 10.0 >= DIFF_FLOOR then c.currentDiff / 10.0 else DIFF_FLOOR, clock.restarted)
    else if total < 10 then (-1.0, c.startedMining)
    else
      var rate := c.acceptedShares / total as real * 60.0 / 6.0;
      var wanted := if rate < DIFF_FLOOR then DIFF_FLOOR else rate;
      (if wanted > c.currentDiff * 1.1 || wanted < c.currentDiff / 1.1 then wanted else c.currentDiff, c.startedMining)
  }

  /** Shares per minute that a miner would find at difficulty `d` if it went on as it did since it was last measured. */
  ghost function PerMinute(c: Client, clock: Clock, d: real): real
    requires clock.measured > c.startedMining && d > 0.0
  {
    c.acceptedShares / (clock.measured - c.startedMining) as real * 60.0 / d
  }

  /** Six times the speed over a difficulty, bounded through a fuzz factor `k` on the difficulty. */
  lemma RateAt(rate: real, d: real, k: real)
    requires rate > 0.0 && d > 0.0 && k > 0.0
    ensures d * k >= rate ==> rate * 6.0 / d <= 6.0 * k
    ensures d <= rate * k ==> rate * 6.0 / d >= 6.0 / k
  {
    var x, low := rate * 6.0 / d, 6.0 / k;
    assert x * d == rate * 6.0 && low * k == 6.0;
    if d * k >= rate {
      assert (6.0 * k) * d == 6.0 * (d * k);
      OrderByProduct(x, 6.0 * k, d);
    }
    if d <= rate * k {
      PositiveQuotient(6.0, k);
      ProductOrder(d, rate * k, low);
      assert (rate * k) * low == (low * k) * rate;
      OrderByProduct(low, x, d);
    }
  }

  /** After ten seconds with an accepted share the difficulty chosen lets a miner of the measured speed find six
      shares a minute, within a tenth if it is left as it is; only the floor lets it find fewer. */
  lemma VardiffMeetsTarget(c: Client, clock: Clock)
    requires c.acceptedShares > 0.0 && clock.measured - c.startedMining >= 10
    requires c.currentDiff == -1.0 || c.currentDiff > 0.0
    ensures NewDiff(c, clock).0 > 0.0
    ensures var d := NewDiff(c, clock).0;
            && PerMinute(c, clock, d) <= 6.0 * 1.1
            && (d > DIFF_FLOOR * 1.1 ==> PerMinute(c, clock, d) >= 6.0 / 1.1)
            && (d > DIFF_FLOOR && d != c.currentDiff ==> PerMinute(c, clock, d) == 6.0)
  {
    var total := (clock.measured - c.startedMining) as real;
    var speed := c.acceptedShares / total;
    assert speed * total == c.acceptedShares;
    assert speed > 0.0;
    var rate := speed * 60.0 / 6.0;
    var wanted := if rate < DIFF_FLOOR then DIFF_FLOOR else rate;
    var d := NewDiff(c, clock).0;
    RateAt(rate, d, 1.1);
    RateAt(rate, d, 1.0);
    assert c.currentDiff / 1.1 * 1.1 == c.currentDiff;
    assert speed * 60.0 == rate * 6.0;
  }

  /** `job`: the active job, or a new one when there is none or one is forced. */
  function FetchedJob(m: Manager, c: Client, force: bool, clock: Clock): (Manager, Client, Job) {
    if !force && c.activeJob.Some? then (m, c, c.activeJob.value)
    else
      var (diff, started) := NewDiff(c, clock);
      var (m', job) := CreatedJob(m, c.currentDiff, diff, clock.created);
      (m', c.(jobs := c.jobs + [job], activeJob := Some(job), startedMining := started), job)
  }

  /** Difficulty `d` lets a miner of the speed measured find six shares a minute, within a tenth, fewer only at the floor. */
  ghost predicate MeetsTarget(c: Client, clock: Clock, d: real)
    requires clock.measured > c.startedMining
  {
    && d > 0.0 && PerMinute(c, clock, d) <= 6.0 * 1.1
    && (d > DIFF_FLOOR * 1.1 ==> PerMinute(c, clock, d) >= 6.0 / 1.1)
    && (d > DIFF_FLOOR && d != c.currentDiff ==> PerMinute(c, clock, d) == 6.0)
  }

  lemma FetchedJobIsCreated(m: Manager, c: Client, force: bool, clock: Clock)
    requires force || c.activeJob.None?
    ensures var (_, c', job) := FetchedJob(m, c, force, clock);
            var (diff, started) := NewDiff(c, clock);
            && IsCapped(m.generation.network, if diff >= 0.0 then diff else if c.currentDiff >= 0.0 then c.currentDiff else m.defaultDiff,
                        job.diff)
            && c'.startedMining == started && c'.currentDiff == c.currentDiff
  {
    hide NewDiff, CappedDiff, IsCapped, NetworkState.MiningDiff;
    CappedDiffIsCapped(m.generation.network, ChosenDiff(NewDiff(c, clock).0, c.currentDiff, m.defaultDiff));
  }

  /** The difficulty of a new job, up to the cap. After ten seconds with an accepted share it meets the target. Without
      any share it is a tenth of the connection's, but no less than the floor, and the measurement starts again. In the
      first ten seconds with a share, or when no time has passed, it is the connection's, or the default if it has none. */
  lemma NewJobDiff(m: Manager, c: Client, force: bool, clock: Clock)
    requires force || c.activeJob.None?
    requires (c.currentDiff == -1.0 || c.currentDiff > 0.0) && c.acceptedShares >= 0.0
    ensures var (_, c', job) := FetchedJob(m, c, force, clock);
            var network, elapsed := m.generation.network, clock.measured - c.startedMining;
            && (elapsed >= 10 && c.acceptedShares > 0.0 ==>
                  exists wanted :: IsCapped(network, wanted, job.diff) && MeetsTarget(c, clock, wanted))
            && (elapsed > 0 && c.acceptedShares == 0.0 ==>
                  && IsCapped(network, if c.currentDiff >= DIFF_FLOOR * 10.0 then c.currentDiff / 10.0 else DIFF_FLOOR, job.diff)
                  && c'.startedMining == clock.restarted)
            && (elapsed <= 0 || (elapsed < 10 && c.acceptedShares > 0.0) ==>
                  IsCapped(network, if c.currentDiff > 0.0 then c.currentDiff else m.defaultDiff, job.diff))
            && (elapsed <= 0 || c.acceptedShares > 0.0 ==> c'.startedMining == c.startedMining)
  {
    hide IsCapped, PerMinute, FetchedJob;
    FetchedJobIsCreated(m, c, force, clock);
    if clock.measured - c.startedMining >= 10 && c.acceptedShares > 0.0 {
      VardiffMeetsTarget(c, clock);
      assert MeetsTarget(c, clock, NewDiff(c, clock).0);
    }
  }

  /** `sendJob` after the job has been fetched, in its two halves: first the difficulty if it changed. */
  function DiffSent(c: Client, job: Job): Client {
    if job.diff != c.currentDiff then c.(outbox := c.outbox + [SetDifficulty(job.diff)], currentDiff := job.diff) else c
  }

  function JobSent(c: Client, job: Job, force: bool): Client {
    c.(outbox := c.outbox + [Notify(job, force)])
  }

  function Announced(c: Client, job: Job, force: bool): Client {
    JobSent(DiffSent(c, job), job, force)
  }

  function Sent(m: Manager, c: Client, force: bool, clock: Clock): (Manager, Client) {
    var (m', c', job) := FetchedJob(m, c, force, clock);
    (m', Announced(c', job, force))
  }

  /** A client that is sent one forced job after another. */
  function SentMany(m: Manager, c: Client, clocks: seq<Clock>): (Manager, Client)
    decreases |clocks|
  {
    if clocks == [] then (m, c)
    else
      var (m', c') := Sent(m, c, true, clocks[0]);
      SentMany(m', c', clocks[1..])
  }

  /** Time has passed at each job since the measurement was last started. */
  predicate Passing(startedMining: int, clocks: seq<Clock>)
    decreases |clocks|
  {
    clocks == [] || (clocks[0].measured > startedMining && Passing(clocks[0].restarted, clocks[1..]))
  }

  function PowerOfTen(n: nat): (p: real)
    ensures p == 1.0 || p >= 10.0
  {
    if n == 0 then 1.0 else 10.0 * PowerOfTen(n - 1)
  }

  lemma SmallerIsWithinCap(network: NetworkState, small: real, large: real)
    requires small <= large && WithinCap(network, large)
    ensures WithinCap(network, small)
  {
    hide NetworkState.MiningDiff;
  }

  lemma EasesOffOnce(m: Manager, c: Client, clock: Clock)
    requires c.acceptedShares == 0.0 && c.currentDiff >= DIFF_FLOOR && WithinCap(m.generation.network, c.currentDiff)
    requires clock.measured > c.startedMining
    ensures var (m', c') := Sent(m, c, true, clock);
            && m'.generation == m.generation && c'.acceptedShares == 0.0 && c'.startedMining == clock.restarted
            && c'.currentDiff == (if c.currentDiff >= DIFF_FLOOR * 10.0 then c.currentDiff / 10.0 else DIFF_FLOOR)
            && WithinCap(m'.generation.network, c'.currentDiff)
  {
    hide NetworkState.MiningDiff, WithinCap, CappedDiff, PerMinute;
    var wanted := if c.currentDiff >= DIFF_FLOOR * 10.0 then c.currentDiff / 10.0 else DIFF_FLOOR;
    SmallerIsWithinCap(m.generation.network, wanted, c.currentDiff);
    NewJobDiff(m, c, true, clock);
  }

  /** While no share comes in, every new job brings the difficulty down tenfold until it stands at the floor. */
  lemma {:induction false} EasesOff(m: Manager, c: Client, clocks: seq<Clock>)
    requires c.acceptedShares == 0.0 && c.currentDiff >= DIFF_FLOOR && WithinCap(m.generation.network, c.currentDiff)
    requires Passing(c.startedMining, clocks)
    ensures var d := SentMany(m, c, clocks).1.currentDiff;
            if c.currentDiff >= DIFF_FLOOR * PowerOfTen(|clocks|) then d * PowerOfTen(|clocks|) == c.currentDiff
            else d == DIFF_FLOOR
    decreases |clocks|
  {
    hide Sent, WithinCap;
    if clocks == [] {
    } else {
      EasesOffOnce(m, c, clocks[0]);
      var (m', c') := Sent(m, c, true, clocks[0]);
      EasesOff(m', c', clocks[1..]);
      EasedTwice(c.currentDiff, c'.currentDiff, SentMany(m', c', clocks[1..]).1.currentDiff, PowerOfTen(|clocks| - 1));
    }
  }

  lemma EasedTwice(first: real, second: real, last: real, p: real)
    requires first >= DIFF_FLOOR && (p == 1.0 || p >= 10.0)
    requires second == if first >= DIFF_FLOOR * 10.0 then first / 10.0 else DIFF_FLOOR
    requires if second >= DIFF_FLOOR * p then last * p == second else last == DIFF_FLOOR
    ensures if first >= DIFF_FLOOR * (10.0 * p) then last * (10.0 * p) == first else last == DIFF_FLOOR
  {
    if first >= DIFF_FLOOR * 10.0 {
      assert last * (10.0 * p) == 10.0 * (last * p);
    }
  }

  function Cleared(c: Client): Client {
    c.(jobs := [], activeJob := None)
  }

  function FirstWithId(jobs: seq<Job>, id: uint32): Option<Job> {
    if jobs == [] then None else if jobs[0].id == id then Some(jobs[0]) else FirstWithId(jobs[1..], id)
  }

  /** `getActiveJob`: the active job is asked first. */
  function Lookup(c: Client, id: uint32): Option<Job> {
    if c.activeJob.Some? && c.activeJob.value.id == id then c.activeJob else FirstWithId(c.jobs, id)
  }

  /** The parsed parameters of `mining.submit` with the connection's own extranonce. */
  datatype Submission = Submission(jobId: uint32, time: uint32, nonce: uint32, extraNonce1: uint32, extraNonce2: uint32)

  /** Credit for the submission, the answer, and the blocks sent to the network. */
  function Judged(c: Client, s: Submission, sha256d: Hasher, hasher: Hasher): (real, Reply, seq<Block>) {
    match Lookup(c, s.jobId)
    case None => (0.0, UnknownJob(s.jobId), [])
    case Some(job) =>
      var coinbase := ShareCoinbase(job, s.extraNonce1, s.extraNonce2);
      var header := ShareHeader(job, s.time, s.nonce, coinbase, sha256d);
      var hash := BlockHash(header, hasher);
      var blocks := if SolvesBlock(job, hash) then [Block(header, coinbase, job.generation.transactions)] else [];
      if Refused(job, hash) then (0.0, LowDiffShare, blocks) else (job.diff, Right, blocks)
  }

  function Submitted(c: Client, s: Submission, sha256d: Hasher, hasher: Hasher): Client {
    var (credit, reply, _) := Judged(c, s, sha256d, hasher);
    c.(acceptedShares := c.acceptedShares + credit, outbox := c.outbox + [Answer(reply)])
  }

  // ---------- Coinbase outputs ----------

  function CoinsOf(outputs: seq<Output>): (coins: seq<uint64>)
    ensures |coins| == |outputs|
    ensures forall i :: 0 <= i < |coins| ==> coins[i] == outputs[i].coins
  {
    if outputs == [] then [] else [outputs[0].coins] + CoinsOf(outputs[1..])
  }

  function WithCoins(outputs: seq<Output>, coins: seq<uint64>): (r: seq<Output>)
    requires |coins| == |outputs|
    ensures |r| == |outputs|
    ensures forall i :: 0 <= i < |r| ==> r[i] == outputs[i].(coins := coins[i])
  {
    if outputs == [] then [] else [outputs[0].(coins := coins[0])] + WithCoins(outputs[1..], coins[1..])
  }

  /** The outputs with the commitment in first place: replaced if there is one, put in front otherwise. */
  function WithCommitment(outputs: seq<Output>, commitment: seq<byte>): (r: seq<Output>)
    ensures r != [] && r[0] == Output(0, Commitment(commitment))
  {
    var first := Output(0, Commitment(commitment));
    if outputs == [] || !outputs[0].destination.Commitment? then [first] + outputs else [first] + outputs[1..]
  }

  /** The outputs that an update balances: the first one becomes the new commitment. */
  function RenewedOutputs(outputs: seq<Output>, commitment: seq<byte>): (r: seq<Output>)
    requires outputs != []
    ensures |r| == |outputs| && r[0] == Output(0, Commitment(commitment))
  {
    outputs[0 := Output(0, Commitment(commitment))]
  }

  /** Rebalancing again what a call has returned, with the commitment renewed, changes no amount. */
  lemma SecondRebalanceChangesNothing(outputs: seq<Output>, balanced: seq<Output>, commitment: seq<byte>, total: uint64,
                                      depth: nat)
    requires outputs != [] && outputs[0].destination.Commitment? && outputs[0].coins == 0
    requires var result := Rebalance.Within(CoinsOf(outputs), total, depth);
             result.Some? && |result.value| == |outputs| && balanced == WithCoins(outputs, result.value)
    ensures var again := CoinsOf(WithCommitment(balanced, commitment));
            && again == CoinsOf(balanced) == Rebalance.Within(CoinsOf(outputs), total, depth).value
            && Rebalance.Within(again, total, depth) == Some(again)
  {
    hide Rebalance.Activate;
    var coins := CoinsOf(outputs);
    Rebalance.NoPasses(coins, total);
    Rebalance.ReturnsBalanced(coins, total, depth);
    Rebalance.KeepsZero(coins, total, depth, 0);
    var result := Rebalance.Within(coins, total, depth).value;
    assert CoinsOf(balanced) == result;
    assert CoinsOf(WithCommitment(balanced, commitment)) == result;
    Rebalance.WithinStep(result, total, depth);
  }

  /** The coins of renewed outputs are the old ones with nothing in first place. */
  lemma RenewedCoins(outputs: seq<Output>, commitment: seq<byte>)
    requires outputs != []
    ensures CoinsOf(RenewedOutputs(outputs, commitment)) == CoinsOf(outputs)[0 := 0]
  {
  }

  lemma CommittedCoins(outputs: seq<Output>, commitment: seq<byte>)
    ensures CoinsOf(WithCommitment(outputs, commitment))
            == if outputs != [] && outputs[0].destination.Commitment? then CoinsOf(outputs)[0 := 0] else [0] + CoinsOf(outputs)
  {
  }

  /** The commitment is worth nothing still when rebalancing has returned. */
  lemma CommitmentStaysFree(outputs: seq<Output>, total: uint64, depth: nat)
    requires outputs != [] && outputs[0].coins == 0 && Rebalance.Within(CoinsOf(outputs), total, depth).Some?
    ensures var result := Rebalance.Within(CoinsOf(outputs), total, depth).value;
            |result| == |outputs| && WithCoins(outputs, result)[0] == outputs[0]
  {
    hide Rebalance.Within;
    Rebalance.KeepsZero(CoinsOf(outputs), total, depth, 0);
  }

  lemma SameCoins(outputs: seq<Output>, coins: seq<uint64>)
    requires |coins| == |outputs|
    ensures CoinsOf(WithCoins(outputs, coins)) == coins
  {
  }

  /** What an update makes of the outputs `was`: `balanced` after its first rebalancing, and the same amounts and payees
      after its second. */
  lemma UpdatedOutputs(was: seq<Output>, balanced: seq<Output>, commitment: seq<byte>, total: uint64, depth: nat)
    requires was != []
    requires var result := Rebalance.Within(CoinsOf(RenewedOutputs(was, commitment)), total, depth);
             result.Some? && |result.value| == |was| && balanced == WithCoins(RenewedOutputs(was, commitment), result.value)
    ensures |balanced| == |was| && balanced[0] == Output(0, Commitment(commitment))
    ensures forall i :: 1 <= i < |was| ==> balanced[i].destination == was[i].destination
    ensures var again := WithCommitment(balanced, commitment);
            var result := Rebalance.Within(CoinsOf(RenewedOutputs(was, commitment)), total, depth).value;
            && Rebalance.Within(CoinsOf(again), total, depth) == Some(result) && |again| == |was|
            && CoinsOf(WithCoins(again, result)) == result
  {
    hide Rebalance.Within;
    var renewed := RenewedOutputs(was, commitment);
    CommitmentStaysFree(renewed, total, depth);
    SecondRebalanceChangesNothing(renewed, balanced, commitment, total, depth);
    SameCoins(renewed, Rebalance.Within(CoinsOf(renewed), total, depth).value);
    SameCoins(WithCommitment(balanced, commitment), CoinsOf(balanced));
  }

  class JobManager {
    const defaultDiff: real
    const coinbaseId: seq<byte>
    var generation: Generation
    var coinbaseOutputs: seq<Output>
    var coinbase: BuiltCoinbase
    var jobCounter: uint32

    constructor (defaultDiff: real, coinbaseId: seq<byte>, generation: Generation, coinbase: BuiltCoinbase)
      ensures View() == Manager(generation, coinbase, 0, defaultDiff) && coinbaseOutputs == []
    {
      this.defaultDiff := defaultDiff;
      this.coinbaseId := coinbaseId;
      this.generation := generation;
      this.coinbaseOutputs := [];
      this.coinbase := coinbase;
      this.jobCounter := 0;
    }

    function View(): Manager
      reads this
    {
      Manager(generation, coinbase, jobCounter, defaultDiff)
    }

    method CreateJob(clientDiff: real, diff: real, created: uint32) returns (job: Job)
      modifies this`jobCounter
      ensures (View(), job) == CreatedJob(old(View()), clientDiff, diff, created)
      ensures IsCapped(generation.network, if diff >= 0.0 then diff else if clientDiff >= 0.0 then clientDiff else defaultDiff,
                       job.diff)
      ensures job.creationTime >= generation.network.miningStartTime && job.creationTime >= created
      ensures job.creationTime == generation.network.miningStartTime || job.creationTime == created
      ensures job.generation == generation && job.coinbase == coinbase && job.id == jobCounter
    {
      MiningDiffIsPositive(generation.network);
      hide NetworkState.MiningDiff;
      var chosen := diff;
      if chosen < 0.0 {
        chosen := clientDiff;
      }
      if chosen < 0.0 {
        chosen := defaultDiff;
      }
      var network := generation.network;
      var cap := network.MiningDiff().Times(256.0);
      if cap.LessThan(Finite(chosen)) {
        chosen := cap.value / 4.0;
      }
      jobCounter := (jobCounter + 1) % 0x1_0000_0000;
      var creationTime := created;
      if creationTime < network.miningStartTime {
        creationTime := network.miningStartTime;
      }
      job := Job(jobCounter, chosen, creationTime, generation, coinbase);
    }

    /** `coinbaseOutputs.rebalance`; false stands for a recursion deeper than `depth`. */
    method RebalanceCoins(depth: nat) returns (settled: bool)
      modifies this`coinbaseOutputs
      ensures var result := Rebalance.Within(CoinsOf(old(coinbaseOutputs)), generation.network.coinbaseCoins, depth);
              && settled == result.Some?
              && (settled ==> |result.value| == |old(coinbaseOutputs)|
                              && coinbaseOutputs == WithCoins(old(coinbaseOutputs), result.value))
    {
      hide Rebalance.Within;
      var outputs := coinbaseOutputs;
      var cells := new uint64[|outputs|](i requires 0 <= i < |outputs| => outputs[i].coins);
      assert cells[..] == CoinsOf(outputs);
      settled := Rebalance.RebalanceOutputs(cells, generation.network.coinbaseCoins, depth);
      coinbaseOutputs := WithCoins(outputs, cells[..]);
    }

    /** `generateCoinbaseTransaction`, if its rebalancing ends. */
    method GenerateCoinbaseTransaction(now: uint32, depth: nat) returns (built: Option<BuiltCoinbase>)
      requires |coinbaseOutputs| < 0xffff_ffff_ffff_ffff
      modifies this`coinbaseOutputs
      ensures var outputs := WithCommitment(old(coinbaseOutputs), generation.commitment);
              var result := Rebalance.Within(CoinsOf(outputs), generation.network.coinbaseCoins, depth);
              && built.Some? == result.Some?
              && (result.Some? ==>
                    && |result.value| == |outputs| && coinbaseOutputs == WithCoins(outputs, result.value)
                    && built.value == BuiltCoinbase(generation, Build(generation.network.blockHeight, 0, 0, coinbaseId,
                                                                      coinbaseOutputs, now)))
      ensures var added := if old(coinbaseOutputs) != [] && old(coinbaseOutputs)[0].destination.Commitment? then 0 else 1;
              var coins := if added == 0 then CoinsOf(old(coinbaseOutputs))[0 := 0] else [0] + CoinsOf(old(coinbaseOutputs));
              built.Some? ==>
                && Rebalance.Within(coins, generation.network.coinbaseCoins, depth) == Some(CoinsOf(coinbaseOutputs))
                && |coinbaseOutputs| == |old(coinbaseOutputs)| + added
                && coinbaseOutputs[0] == Output(0, Commitment(generation.commitment))
                && forall i :: 1 - added <= i < |old(coinbaseOutputs)| ==>
                     coinbaseOutputs[i + added].destination == old(coinbaseOutputs)[i].destination
    {
      hide Rebalance.Within, Build;
      CommittedCoins(coinbaseOutputs, generation.commitment);
      var newCommitment := Output(0, Commitment(generation.commitment));
      if |coinbaseOutputs| == 0 || RedeemScript(coinbaseOutputs[0].destination)[0] != 0x6a {
        coinbaseOutputs := [newCommitment] + coinbaseOutputs;
      } else {
        coinbaseOutputs := coinbaseOutputs[0 := newCommitment];
      }
      assert coinbaseOutputs == WithCommitment(old(coinbaseOutputs), generation.commitment);
      var settled := RebalanceCoins(depth);
      if !settled {
        return None;
      }
      ghost var committed := WithCommitment(old(coinbaseOutputs), generation.commitment);
      CommitmentStaysFree(committed, generation.network.coinbaseCoins, depth);
      SameCoins(committed, Rebalance.Within(CoinsOf(committed), generation.network.coinbaseCoins, depth).value);
      var tx := BuildTransaction(generation.network.blockHeight, 0, 0, coinbaseId, coinbaseOutputs, now);
      built := Some(BuiltCoinbase(generation, tx));
    }

    /** `updateWork` up to the new coinbase; false when rebalancing does not end within `depth`. */
    method Install(newGeneration: Generation, now: uint32, depth: nat) returns (finished: bool)
      requires 0 < |coinbaseOutputs| < 0xffff_ffff_ffff_ffff
      modifies this`generation, this`coinbaseOutputs, this`coinbase
      ensures generation == newGeneration
      ensures var result := Rebalance.Within(CoinsOf(old(coinbaseOutputs))[0 := 0], newGeneration.network.coinbaseCoins, depth);
              finished == result.Some? && (finished ==> CoinsOf(coinbaseOutputs) == result.value)
      ensures finished ==>
                && |coinbaseOutputs| == |old(coinbaseOutputs)|
                && coinbaseOutputs[0] == Output(0, Commitment(newGeneration.commitment))
                && forall i :: 1 <= i < |coinbaseOutputs| ==>
                     coinbaseOutputs[i].destination == old(coinbaseOutputs)[i].destination
      ensures coinbase == if finished then BuiltCoinbase(generation, Build(generation.network.blockHeight, 0, 0, coinbaseId,
                                                                           coinbaseOutputs, now))
                          else old(coinbase)
    {
      var newCommitment := Output(0, Commitment(newGeneration.commitment));
      ghost var was := coinbaseOutputs;
      assert RenewedOutputs(was, newGeneration.commitment) == was[0 := newCommitment];
      hide Build, Rebalance.Within, RenewedOutputs, WithCoins, CoinsOf, WithCommitment;
      RenewedCoins(was, newGeneration.commitment);
      generation := newGeneration;
      coinbaseOutputs := coinbaseOutputs[0 := newCommitment];
      finished := RebalanceCoins(depth);
      if finished {
        ghost var balanced := coinbaseOutputs;
        UpdatedOutputs(was, balanced, generation.commitment, generation.network.coinbaseCoins, depth);
        var built := GenerateCoinbaseTransaction(now, depth);
        coinbase := built.value;
      }
    }
  }

  // ---------- Connections ----------

  class StratumClientConnection {
    var jobs: seq<Job>
    var activeJob: Option<Job>
    var currentDiff: real
    var startedMining: int
    var acceptedShares: real
    var outbox: seq<Message>

    constructor (now: int)
      ensures View() == Client([], None, -1.0, now, 0.0, [])
    {
      jobs, activeJob := [], None;
      currentDiff, startedMining, acceptedShares := -1.0, now, 0.0;
      outbox := [];
    }

    function View(): Client
      reads this
    {
      Client(jobs, activeJob, currentDiff, startedMining, acceptedShares, outbox)
    }

    /** The source divides before it looks at the elapsed time; the quotient is not used when that is not positive. */
    method CalcNewDiff(clock: Clock) returns (newDiff: real)
      modifies this`startedMining
      ensures (newDiff, startedMining) == NewDiff(old(View()), clock)
    {
      var totalMiningTime := clock.measured - startedMining;
      if totalMiningTime <= 0 {
        return -1.0;
      }
      if acceptedShares == 0.0 {
        startedMining := clock.restarted;
        newDiff := currentDiff / 10.0;
        return if newDiff >= DIFF_FLOOR then newDiff else DIFF_FLOOR;
      }
      if totalMiningTime < 10 {
        return -1.0;
      }
      newDiff := acceptedShares / totalMiningTime as real * 60.0 / 6.0;
      if newDiff < DIFF_FLOOR {
        newDiff := DIFF_FLOOR;
      }
      if newDiff > currentDiff * 1.1 || newDiff < currentDiff / 1.1 {
        return newDiff;
      }
      newDiff := currentDiff;
    }

    method GetJob(manager: JobManager, forceNew: bool, clock: Clock) returns (job: Job)
      modifies this`jobs, this`activeJob, this`startedMining, manager`jobCounter
      ensures (manager.View(), View(), job) == FetchedJob(old(manager.View()), old(View()), forceNew, clock)
    {
      if !forceNew && activeJob.Some? {
        return activeJob.value;
      }
      var diff := CalcNewDiff(clock);
      job := manager.CreateJob(currentDiff, diff, clock.created);
      jobs := jobs + [job];
      activeJob := Some(jobs[|jobs| - 1]);
    }

    method SendUnsolicited(message: Message)
      modifies this`outbox
      ensures outbox == old(outbox) + [message]
    {
      outbox := outbox + [message];
    }

    method UpdateDiff(newDiff: real)
      modifies this`outbox, this`currentDiff
      ensures outbox == old(outbox) + [SetDifficulty(newDiff)] && currentDiff == newDiff
    {
      SendUnsolicited(SetDifficulty(newDiff));
      currentDiff := newDiff;
    }

    method SendJob(manager: JobManager, forceNew: bool, clock: Clock)
      modifies this, manager`jobCounter
      ensures (manager.View(), View()) == Sent(old(manager.View()), old(View()), forceNew, clock)
    {
      var job := GetJob(manager, forceNew, clock);
      if job.diff != currentDiff {
        UpdateDiff(job.diff);
      }
      SendUnsolicited(Notify(job, forceNew));
    }

    method ClearJobs()
      modifies this`jobs, this`activeJob
      ensures View() == Cleared(old(View()))
    {
      jobs := [];
      activeJob := None;
    }

    method GetActiveJob(id: uint32) returns (job: Option<Job>)
      ensures job == Lookup(View(), id)
    {
      if activeJob.Some? && activeJob.value.id == id {
        return activeJob;
      }
      if |jobs| == 0 {
        return None;
      }
      var i := 0;
      while i < |jobs|
        invariant 0 <= i <= |jobs|
        invariant FirstWithId(jobs, id) == FirstWithId(jobs[i..], id)
      {
        if jobs[i].id == id {
          return Some(jobs[i]);
        }
        i := i + 1;
      }
      job := None;
    }

    /** `MiningSubmit::process`. */
    method ProcessSubmit(s: Submission, sha256d: Hasher, hasher: Hasher) returns (blocks: seq<Block>)
      modifies this`acceptedShares, this`outbox
      ensures View() == Submitted(old(View()), s, sha256d, hasher)
      ensures blocks == Judged(old(View()), s, sha256d, hasher).2
      ensures match Lookup(old(View()), s.jobId)
              case None =>
                blocks == [] && acceptedShares == old(acceptedShares) && outbox == old(outbox) + [Answer(UnknownJob(s.jobId))]
              case Some(job) =>
                var header := ShareHeader(job, s.time, s.nonce, ShareCoinbase(job, s.extraNonce1, s.extraNonce2), sha256d);
                var v := FromLE(hasher(header));
                && (blocks != [] <==> v <= FromBE(job.generation.network.miningTarget))
                && (|| (outbox == old(outbox) + [Answer(Right)] && acceptedShares == old(acceptedShares) + job.diff
                        && Decides(Accepted(blocks != []), job.diff, v, DIFF1))
                    || (outbox == old(outbox) + [Answer(LowDiffShare)] && acceptedShares == old(acceptedShares)
                        && Decides(LowDiff, job.diff, v, DIFF1)))
    {
      hide Decides, ShareHeader, ShareCoinbase, BlockHash, Refused, SolvesBlock, FromLE, FromBE;
      var job := GetActiveJob(s.jobId);
      if job.None? {
        SendUnsolicited(Answer(UnknownJob(s.jobId)));
        return [];
      }
      var verdict;
      verdict, blocks := CheckSolution(job.value, s.time, s.nonce, s.extraNonce1, s.extraNonce2, sha256d, hasher);
      if verdict.Accepted? {
        acceptedShares := acceptedShares + job.value.diff;
        SendUnsolicited(Answer(Right));
      } else {
        SendUnsolicited(Answer(LowDiffShare));
      }
    }
  }

  // ---------- Sending jobs to every client ----------

  function SentTo(c: Client, m: Manager, force: bool, clock: Clock): (Manager, Client) {
    Sent(m, if force then Cleared(c) else c, force, clock)
  }

  /** The manager and the clients after each client in turn has been served. */
  function SentToAll(m: Manager, clients: seq<Client>, force: bool, clocks: seq<Clock>): (r: (Manager, seq<Client>))
    requires |clocks| == |clients|
    ensures |r.1| == |clients|
  {
    if clients == [] then (m, [])
    else
      var n := |clients| - 1;
      var (m', served) := SentToAll(m, clients[..n], force, clocks[..n]);
      var (m'', last) := SentTo(clients[n], m', force, clocks[n]);
      (m'', served + [last])
  }

  function Views(clients: seq<StratumClientConnection>): (v: seq<Client>)
    reads clients
    ensures |v| == |clients|
    ensures forall i :: 0 <= i < |v| ==> v[i] == clients[i].View()
  {
    if clients == [] then [] else [clients[0].View()] + Views(clients[1..])
  }

  lemma SentToAllStep(m: Manager, clients: seq<Client>, force: bool, clocks: seq<Clock>, i: nat)
    requires |clocks| == |clients| && i < |clients|
    ensures var (before, served) := SentToAll(m, clients[..i], force, clocks[..i]);
            var (after, last) := SentTo(clients[i], before, force, clocks[i]);
            SentToAll(m, clients[..i + 1], force, clocks[..i + 1]) == (after, served + [last])
  {
    assert clients[..i + 1][..i] == clients[..i] && clocks[..i + 1][..i] == clocks[..i];
  }

  /** What serving client `i` of a list makes of it, for a manager that was `m` before the first one was served:
      a job of its own from the manager's information and coinbase if it had none or is forced, and that job sent. */
  predicate Served(m: Manager, was: Client, now: Client, force: bool, i: nat) {
    && now.activeJob.Some? && now.outbox != []
    && now.outbox[|now.outbox| - 1] == Notify(now.activeJob.value, force)
    && (if force || was.activeJob.None?
        then var job := now.activeJob.value;
             && now.jobs == (if force then [] else was.jobs) + [job]
             && job.generation == m.generation && job.coinbase == m.coinbase
             && (force ==> job.id == (m.jobCounter + 1 + i) % 0x1_0000_0000)
        else now.jobs == was.jobs && now.activeJob == was.activeJob)
  }

  /** Nothing of the manager changes but the counter, which goes up once for each client when a new job is forced. */
  predicate CountedOn(m: Manager, after: Manager, force: bool, n: nat) {
    after == m.(jobCounter := after.jobCounter) && (force ==> after.jobCounter == (m.jobCounter + n) % 0x1_0000_0000)
  }

  lemma SentToOne(m: Manager, before: Manager, c: Client, force: bool, clock: Clock, i: nat)
    requires CountedOn(m, before, force, i)
    ensures var (after, now) := SentTo(c, before, force, clock);
            CountedOn(m, after, force, i + 1) && Served(m, c, now, force, i)
  {
    hide NewDiff, CappedDiff, NetworkState.MiningDiff;
  }

  /** After a forced update each client holds one job only, made from the manager's information and coinbase and
      numbered by the client's place, and was sent it last; without force a client keeps the active job it had. */
  lemma {:induction false} EachClientIsServed(m: Manager, clients: seq<Client>, force: bool, clocks: seq<Clock>)
    requires |clocks| == |clients|
    ensures var (after, served) := SentToAll(m, clients, force, clocks);
            && CountedOn(m, after, force, |clients|)
            && forall i :: 0 <= i < |clients| ==> Served(m, clients[i], served[i], force, i)
    decreases |clients|
  {
    hide SentTo, Served, CountedOn;
    if clients == [] {
      NoneCounted(m, force);
    } else {
      var n := |clients| - 1;
      EachClientIsServed(m, clients[..n], force, clocks[..n]);
      SentToOne(m, SentToAll(m, clients[..n], force, clocks[..n]).0, clients[n], force, clocks[n], n);
    }
  }

  lemma NoneCounted(m: Manager, force: bool)
    ensures CountedOn(m, m, force, 0)
  {
  }

  lemma SentToNone(m: Manager, force: bool)
    ensures SentToAll(m, [], force, []) == (m, [])
  {
  }

  method ServeClient(manager: JobManager, client: StratumClientConnection, force: bool, clock: Clock)
    modifies client, manager`jobCounter
    ensures (manager.View(), client.View()) == SentTo(old(client.View()), old(manager.View()), force, clock)
  {
    if force {
      client.ClearJobs();
    }
    client.SendJob(manager, force, clock);
  }

  /** `sendNewJobsToClients`. */
  method SendNewJobsToClients(manager: JobManager, clients: seq<StratumClientConnection>, force: bool, clocks: seq<Clock>)
    requires |clocks| == |clients|
    requires forall i, j :: 0 <= i < j < |clients| ==> clients[i] != clients[j]
    modifies clients, manager`jobCounter
    ensures (manager.View(), Views(clients)) == SentToAll(old(manager.View()), old(Views(clients)), force, clocks)
  {
    hide SentToAll, SentTo, Sent, FetchedJob, Views;
    ghost var was, start := Views(clients), manager.View();
    SentToNone(start, force);
    ghost var served: (Manager, seq<Client>) := (start, []);
    var i := 0;
    while i < |clients|
      invariant 0 <= i <= |clients|
      invariant |served.1| == i && manager.View() == served.0
      invariant forall k :: 0 <= k < i ==> clients[k].View() == served.1[k]
      invariant forall k :: i <= k < |clients| ==> clients[k].View() == was[k]
      invariant served == SentToAll(start, was[..i], force, clocks[..i])
    {
      ServeClient(manager, clients[i], force, clocks[i]);
      SentToAllStep(start, was, force, clocks, i);
      served := (manager.View(), served.1 + [clients[i].View()]);
      i := i + 1;
    }
    assert was[..i] == was && clocks[..i] == clocks;
    assert Views(clients) == served.1;
  }

  /** `updateWork` for one new generation information, run without interruption. Unless rebalancing hangs,
      the coinbase is built from the new information and every client is sent a job made from both. */
  method UpdateWork(manager: JobManager, generation: Generation, clients: seq<StratumClientConnection>,
                    now: uint32, clocks: seq<Clock>, depth: nat)
    returns (finished: bool)
    requires 0 < |manager.coinbaseOutputs| < 0xffff_ffff_ffff_ffff
    requires |clocks| == |clients|
    requires forall i, j :: 0 <= i < j < |clients| ==> clients[i] != clients[j]
    modifies manager, clients
    ensures manager.generation == generation
    ensures var result := Rebalance.Within(CoinsOf(old(manager.coinbaseOutputs))[0 := 0], generation.network.coinbaseCoins, depth);
            finished == result.Some? && (finished ==> CoinsOf(manager.coinbaseOutputs) == result.value)
    ensures finished ==>
              && |manager.coinbaseOutputs| == |old(manager.coinbaseOutputs)|
              && manager.coinbaseOutputs[0] == Output(0, Commitment(generation.commitment))
              && forall i :: 1 <= i < |manager.coinbaseOutputs| ==>
                   manager.coinbaseOutputs[i].destination == old(manager.coinbaseOutputs)[i].destination
    ensures if finished then
              && manager.coinbase == BuiltCoinbase(generation, Build(generation.network.blockHeight, 0, 0, manager.coinbaseId,
                                                                     manager.coinbaseOutputs, now))
              && (manager.View(), Views(clients))
                 == SentToAll(Manager(generation, manager.coinbase, old(manager.jobCounter), manager.defaultDiff), old(Views(clients)),
                              generation.network.Differs(old(manager.generation.network)), clocks)
            else manager.coinbase == old(manager.coinbase) && Views(clients) == old(Views(clients))
  {
    hide SentToAll, Build, Rebalance.Within;
    var blockUpdate := generation.network.Differs(manager.generation.network);
    finished := manager.Install(generation, now, depth);
    if finished {
      SendNewJobsToClients(manager, clients, blockUpdate, clocks);
    }
  }
}
