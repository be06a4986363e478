/** The text exchanged with a Stratum v1 miner: what `mining.notify` carries, what `mining.submit` brings
    back, and a miner that works from the text alone (lib/stratum/StratumJob.cpp,
    lib/mining/MerkleBranch.cpp, lib/stratum/calls/MiningSubmit.cpp, lib/stratum/StratumCall.h). */
module Miner {
  import opened ByteStrings
  import opened Hash256
  import opened Coinbase
  import opened Merkle
  import opened Share
  import opened Pool

  // ---------- Server to miner ----------

  datatype Fields = Fields(
    jobId: string,
    prevHash: string,
    coinb1: string,
    coinb2: string,
    branch: seq<string>,
    version: string,
    bits: string,
    time: string,
    clean: bool)

  function IntHex(n: uint32, littleEndian: bool): string {
    Hex(if littleEndian then LE(n, 4) else Reversed(LE(n, 4)))
  }

  function HexArray(branch: seq<Hash>): (r: seq<string>)
    ensures |r| == |branch|
    ensures forall i :: 0 <= i < |r| ==> r[i] == Hex(branch[i])
  {
    if branch == [] then [] else HexArray(branch[..|branch| - 1]) + [Hex(branch[|branch| - 1])]
  }

  function NotifyFields(job: Job, force: bool): Fields {
    var network := job.generation.network;
    var tx: CoinbaseTransaction := job.coinbase.tx;
    Fields(IntHex(job.id, false), Hex(Swapped32(network.previousBlock)), Hex(tx.Part1()), Hex(tx.Part2()),
           HexArray(job.generation.merkleBranch), IntHex(network.version, false), IntHex(network.bits, true),
           IntHex(job.creationTime, false), force)
  }

  method Int2Hex(n: uint32, littleEndian: bool) returns (hex: string)
    ensures hex == IntHex(n, littleEndian)
  {
    var encoded := LE(n, 4);
    if littleEndian {
      hex := AsHex(encoded);
      return;
    }
    encoded := Reverse(encoded);
    hex := AsHex(encoded);
  }

  /** `MerkleBranch::asHexArray`. */
  method AsHexArray(branch: seq<Hash>) returns (hexArray: seq<string>)
    ensures hexArray == HexArray(branch)
  {
    hexArray := [];
    for i := 0 to |branch|
      invariant hexArray == HexArray(branch[..i])
    {
      var hex := AsHex(branch[i]);
      assert branch[..i + 1][..i] == branch[..i];
      hexArray := hexArray + [hex];
    }
    assert branch[..|branch|] == branch;
  }

  /** `StratumJob::toJson`: the previous block hash is copied, swapped in place and printed. */
  method ToJson(job: Job, force: bool) returns (fields: Fields)
    ensures fields == NotifyFields(job, force)
    ensures ParseUInt32BE(UnHex(fields.jobId)) == Some(job.id) && fields.clean == force
    ensures ParseUInt32BE(UnHex(fields.time)) == Some(job.creationTime)
    ensures ParseUInt32BE(UnHex(fields.version)) == Some(job.generation.network.version)
    ensures ParseUInt32LE(UnHex(fields.bits)) == Some(job.generation.network.bits)
  {
    hide ParseUInt32BE, ParseUInt32LE, IntHex;
    PrintedIntParses(job.id);
    PrintedIntParses(job.creationTime);
    PrintedIntParses(job.generation.network.version);
    PrintedIntParses(job.generation.network.bits);
    var network := job.generation.network;
    var previousBlockHash := new byte[32](i requires 0 <= i < 32 => network.previousBlock[i]);
    assert previousBlockHash[..] == network.previousBlock;
    Swap32In256(previousBlockHash);
    var tx: CoinbaseTransaction := job.coinbase.tx;
    var jobId := Int2Hex(job.id, false);
    var prevHash := AsHex(previousBlockHash[..]);
    var coinb1 := AsHex(tx.Part1());
    var coinb2 := AsHex(tx.Part2());
    var branch := AsHexArray(job.generation.merkleBranch);
    var version := Int2Hex(network.version, false);
    var bits := Int2Hex(network.bits, true);
    var time := Int2Hex(job.creationTime, false);
    fields := Fields(jobId, prevHash, coinb1, coinb2, branch, version, bits, time, force);
  }

  // ---------- Miner to server ----------

  /** `getParam<ByteString>`: a missing parameter is the empty byte string. */
  function Param(params: seq<string>, idx: nat): seq<byte> {
    if |params| > idx then UnHex(params[idx]) else []
  }

  /** The constructor of `MiningSubmit`; None stands for the exception on a parameter of more than four bytes. */
  function ParsedSubmit(params: seq<string>, extraNonce1: uint32): Option<Submission> {
    var jobId :- ParseUInt32BE(Param(params, 1));
    var extraNonce2 :- ParseUInt32LE(Param(params, 2));
    var time :- ParseUInt32BE(Param(params, 3));
    var nonce :- ParseUInt32BE(Param(params, 4));
    Some(Submission(jobId, time, nonce, extraNonce1, extraNonce2))
  }

  // ---------- A miner that sees only the text ----------

  /** The coinbase from the two parts, the extranonce of the connection and the miner's own four bytes. */
  function MinerCoinbase(f: Fields, extraNonce1: string, extraNonce2: seq<byte>): seq<byte> {
    UnHex(f.coinb1) + UnHex(extraNonce1) + extraNonce2 + UnHex(f.coinb2)
  }

  /** The hash is joined with each element of the branch in turn and hashed. */
  function MinerRoot(branch: seq<string>, sha256d: Hasher, hash: seq<byte>): seq<byte>
    decreases |branch|
  {
    if branch == [] then hash else MinerRoot(branch[1..], sha256d, sha256d(hash + UnHex(branch[0])))
  }

  /** The header assembled in the byte order of the protocol, then turned word by word for hashing. */
  function MinerHeader(f: Fields, root: seq<byte>, time: uint32, nonce: uint32): seq<byte>
    requires |UnHex(f.version)| == 4 && |UnHex(f.prevHash)| == 32 && |UnHex(f.bits)| == 4 && |root| == 32
  {
    Swapped32(UnHex(f.version) + UnHex(f.prevHash) + Swapped32(root) + Reversed(LE(time, 4)) + UnHex(f.bits)
              + Reversed(LE(nonce, 4)))
  }

  /** The parameters a miner submits: the job id as it was received, the rest printed. */
  function MinerSubmit(user: string, f: Fields, extraNonce2: seq<byte>, time: uint32, nonce: uint32): seq<string> {
    [user, f.jobId, Hex(extraNonce2), IntHex(time, false), IntHex(nonce, false)]
  }

  // ---------- Both hash the same bytes ----------

  /** Printing and parsing again gives back every 32-bit job id, time and nonce. */
  lemma PrintedIntParses(n: uint32)
    ensures ParseUInt32BE(UnHex(IntHex(n, false))) == Some(n)
    ensures ParseUInt32LE(UnHex(IntHex(n, true))) == Some(n)
  {
    UnHexOfHex(LE(n, 4));
    UnHexOfHex(Reversed(LE(n, 4)));
    ReversedTwice(LE(n, 4));
    UInt32RoundTrip(n);
  }

  lemma SubmissionSurvives(user: string, job: Job, force: bool, extraNonce1: uint32, extraNonce2: seq<byte>,
                           time: uint32, nonce: uint32)
    requires |extraNonce2| == 4
    ensures FromLE(extraNonce2) < 0x1_0000_0000
    ensures ParsedSubmit(MinerSubmit(user, NotifyFields(job, force), extraNonce2, time, nonce), extraNonce1)
            == Some(Submission(job.id, time, nonce, extraNonce1, FromLE(extraNonce2)))
  {
    hide ParseUInt32BE, IntHex;
    FromLE32IsUInt32(extraNonce2);
    PrintedIntParses(job.id);
    PrintedIntParses(time);
    PrintedIntParses(nonce);
    UnHexOfHex(extraNonce2);
  }

  lemma SameCoinbase(job: Job, force: bool, extraNonce1: uint32, extraNonce2: seq<byte>)
    requires |extraNonce2| == 4 && FromLE(extraNonce2) < 0x1_0000_0000
    ensures MinerCoinbase(NotifyFields(job, force), Hex(LE(extraNonce1, 4)), extraNonce2)
            == ShareCoinbase(job, extraNonce1, FromLE(extraNonce2))
  {
    var tx: CoinbaseTransaction := job.coinbase.tx;
    UnHexOfHex(tx.Part1());
    UnHexOfHex(tx.Part2());
    UnHexOfHex(LE(extraNonce1, 4));
    LEOfFromLE(extraNonce2);
  }

  lemma {:induction false} SameRoot(branch: seq<Hash>, sha256d: Hasher, hash: Hash)
    ensures MinerRoot(HexArray(branch), sha256d, hash) == GetRoot(sha256d, hash, branch)
    decreases |branch|
  {
    if branch == [] {
    } else {
      UnHexOfHex(branch[0]);
      assert HexArray(branch)[1..] == HexArray(branch[1..]);
      SameRoot(branch[1..], sha256d, sha256d(Join(hash, branch[0])));
    }
  }

  lemma BranchSent(job: Job, force: bool)
    ensures NotifyFields(job, force).branch == HexArray(job.generation.merkleBranch)
  {
  }

  lemma OneMoreField(front: seq<byte>, swapped: seq<byte>, field: seq<byte>)
    requires |front| % 4 == 0 && |field| % 4 == 0 && Swapped32(front) == swapped
    ensures |front + field| % 4 == 0 && Swapped32(front + field) == swapped + Swapped32(field)
  {
    hide Swapped32;
    Swapped32Concat(front, field);
  }

  lemma SixFields(a: seq<byte>, b: seq<byte>, c: seq<byte>, d: seq<byte>, e: seq<byte>, f: seq<byte>)
    requires |a| == 4 && |b| == 32 && |c| == 32 && |d| == 4 && |e| == 4 && |f| == 4
    ensures Swapped32(a + b + c + d + e + f)
            == Swapped32(a) + Swapped32(b) + Swapped32(c) + Swapped32(d) + Swapped32(e) + Swapped32(f)
  {
    hide Swapped32;
    var s1, t1 := a, Swapped32(a);
    OneMoreField(s1, t1, b);
    var s2, t2 := s1 + b, t1 + Swapped32(b);
    OneMoreField(s2, t2, c);
    var s3, t3 := s2 + c, t2 + Swapped32(c);
    OneMoreField(s3, t3, d);
    var s4, t4 := s3 + d, t3 + Swapped32(d);
    OneMoreField(s4, t4, e);
    OneMoreField(s4 + e, t4 + Swapped32(e), f);
  }

  lemma SwappedBackWord(n: uint32)
    ensures Swapped32(Reversed(LE(n, 4))) == LE(n, 4)
    ensures Swapped32(LE(n, 4)) == LE(SwappedInt(n), 4)
  {
    Swapped32Word(Reversed(LE(n, 4)));
    ReversedTwice(LE(n, 4));
    Swapped32Word(LE(n, 4));
    FromBEIsReversedLE(LE(n, 4));
    LEOfFromLE(Reversed(LE(n, 4)));
  }

  lemma SameHeader(job: Job, force: bool, root: Hash, time: uint32, nonce: uint32)
    ensures var f := NotifyFields(job, force);
            && |UnHex(f.version)| == 4 && |UnHex(f.prevHash)| == 32 && |UnHex(f.bits)| == 4
            && MinerHeader(f, root, time, nonce)
               == Header(job.generation.network.version, job.generation.network.previousBlock, root, time,
                         job.generation.network.bits, nonce)
  {
    hide SwappedInt;
    var n := job.generation.network;
    UnHexOfHex(Reversed(LE(n.version, 4)));
    UnHexOfHex(Swapped32(n.previousBlock));
    UnHexOfHex(LE(n.bits, 4));
    SixFields(Reversed(LE(n.version, 4)), Swapped32(n.previousBlock), Swapped32(root), Reversed(LE(time, 4)), LE(n.bits, 4),
              Reversed(LE(nonce, 4)));
    SwappedBackWord(n.version);
    Swapped32Twice(n.previousBlock);
    Swapped32Twice(root);
    SwappedBackWord(time);
    SwappedBackWord(n.bits);
    SwappedBackWord(nonce);
  }

  /** A miner that decodes the notification, fills in both extranonces and submits what it found has
      hashed the very coinbase and header that the server rebuilds from the parsed submission. */
  lemma MinerAndServerAgree(user: string, job: Job, force: bool, extraNonce1: uint32, extraNonce2: seq<byte>,
                            time: uint32, nonce: uint32, sha256d: Hasher)
    requires |extraNonce2| == 4
    ensures var f := NotifyFields(job, force);
            var coinbase := MinerCoinbase(f, Hex(LE(extraNonce1, 4)), extraNonce2);
            var root := MinerRoot(f.branch, sha256d, sha256d(coinbase));
            var parsed := ParsedSubmit(MinerSubmit(user, f, extraNonce2, time, nonce), extraNonce1);
            && |UnHex(f.version)| == 4 && |UnHex(f.prevHash)| == 32 && |UnHex(f.bits)| == 4 && |root| == 32
            && parsed.Some? && parsed.value.jobId == job.id
            && coinbase == ShareCoinbase(job, parsed.value.extraNonce1, parsed.value.extraNonce2)
            && MinerHeader(f, root, time, nonce)
               == ShareHeader(job, parsed.value.time, parsed.value.nonce, coinbase, sha256d)
  {
    hide ParsedSubmit, MinerSubmit, MinerCoinbase, MinerHeader, ShareCoinbase, Header, NotifyFields;
    SubmissionSurvives(user, job, force, extraNonce1, extraNonce2, time, nonce);
    SameCoinbase(job, force, extraNonce1, extraNonce2);
    var coinbase := ShareCoinbase(job, extraNonce1, FromLE(extraNonce2));
    SameRoot(job.generation.merkleBranch, sha256d, sha256d(coinbase));
    BranchSent(job, force);
    SameHeader(job, force, GetRoot(sha256d, sha256d(coinbase), job.generation.merkleBranch), time, nonce);
  }

  /** A miner that takes the time, too, from the notification hashes a header dated when the job was created. */
  lemma MinerAtJobTime(user: string, job: Job, force: bool, extraNonce1: uint32, extraNonce2: seq<byte>, nonce: uint32,
                       sha256d: Hasher)
    requires |extraNonce2| == 4
    ensures var f := NotifyFields(job, force);
            && f.clean == force && ParseUInt32BE(UnHex(f.time)) == Some(job.creationTime)
            && |UnHex(f.version)| == 4 && |UnHex(f.prevHash)| == 32 && |UnHex(f.bits)| == 4
            && var time := ParseUInt32BE(UnHex(f.time)).value;
               var coinbase := MinerCoinbase(f, Hex(LE(extraNonce1, 4)), extraNonce2);
               var root := MinerRoot(f.branch, sha256d, sha256d(coinbase));
               |root| == 32 && MinerHeader(f, root, time, nonce) == ShareHeader(job, job.creationTime, nonce, coinbase, sha256d)
  {
    hide MinerCoinbase, MinerHeader, ShareHeader, ParseUInt32BE, IntHex;
    PrintedIntParses(job.creationTime);
    MinerAndServerAgree(user, job, force, extraNonce1, extraNonce2, job.creationTime, nonce, sha256d);
    SubmissionSurvives(user, job, force, extraNonce1, extraNonce2, job.creationTime, nonce);
  }

  /** A submission is refused for its form exactly if one of its four numbers has more than four bytes; what is missing
      counts as zero. */
  lemma RefusedFormExactly(params: seq<string>, extraNonce1: uint32)
    ensures ParsedSubmit(params, extraNonce1).None? <==> exists k :: 1 <= k <= 4 && |Param(params, k)| > 4
    ensures |params| <= 1 ==> ParsedSubmit(params, extraNonce1) == Some(Submission(0, 0, 0, extraNonce1, 0))
  {
    hide UnHex;
    if ParsedSubmit(params, extraNonce1).None? {
      assert |Param(params, 1)| > 4 || |Param(params, 2)| > 4 || |Param(params, 3)| > 4 || |Param(params, 4)| > 4;
    }
  }
}
