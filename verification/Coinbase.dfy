/** The coinbase transaction: its construction around the extranonce, the splice that fills the
    extranonce in, and a transaction reader that recovers every field
    (lib/mining/CoinbaseTransaction.cpp, lib/mining/AbstractCoinbaseOutput.cpp,
    lib/mining/CoinbaseOutput.cpp, lib/mining/CoinbaseCommitment.cpp). */
module Coinbase {
  import opened ByteStrings
  import opened Script

  // ---------- Outputs ----------

  type Hash160 = h: seq<byte> | |h| == 20 witness seq(20, _ => 0)

  /** The concrete classes behind AbstractCoinbaseOutput. */
  datatype Destination =
    | Commitment(commitment: seq<byte>)
    | P2PKH(hash: Hash160)
    | P2SH(hash: Hash160)
    | P2WPKH(hash: Hash160)

  datatype Output = Output(coins: uint64, destination: Destination)

  function RedeemScript(d: Destination): (s: seq<byte>)
    ensures 0 < |s| < 0x1_0000_0010
    ensures s[0] == OP_RETURN <==> d.Commitment?
  {
    match d
    case Commitment(c) => [OP_RETURN] + PushRaw(c)
    case P2PKH(h) => [OP_DUP, OP_HASH160] + PushRaw(h) + [OP_EQUALVERIFY, OP_CHECKSIG]
    case P2SH(h) => [OP_HASH160] + PushRaw(h) + [OP_EQUAL]
    case P2WPKH(h) => [OP_0] + PushRaw(h)
  }

  /** The script of each kind of output: what it pushes, between its opcodes. */
  lemma RedeemScriptLayout(d: Destination)
    ensures var s := RedeemScript(d);
            match d
            case Commitment(c) => s[0] == OP_RETURN && ReadPush(s[1..]) == Some((Pushed(c), []))
            case P2PKH(h) =>
              && |s| == 25 && s[..2] == [OP_DUP, OP_HASH160] && s[23..] == [OP_EQUALVERIFY, OP_CHECKSIG]
              && ReadPush(s[2..]) == Some((h, s[23..]))
            case P2SH(h) =>
              && |s| == 23 && s[0] == OP_HASH160 && s[22] == OP_EQUAL && ReadPush(s[1..]) == Some((h, s[22..]))
            case P2WPKH(h) => |s| == 22 && s[0] == OP_0 && ReadPush(s[1..]) == Some((h, []))
  {
    hide ReadPush, PushRaw;
    var s := RedeemScript(d);
    match d
    case Commitment(c) =>
      assert s[1..] == PushRaw(c) + [];
      PushReadsBack(c, []);
    case P2PKH(h) =>
      PushOfHash(h);
      assert s[2..] == PushRaw(h) + s[23..];
      PushReadsBack(h, s[23..]);
    case P2SH(h) =>
      PushOfHash(h);
      assert s[1..] == PushRaw(h) + s[22..];
      PushReadsBack(h, s[22..]);
    case P2WPKH(h) =>
      PushOfHash(h);
      assert s[1..] == PushRaw(h) + [];
      PushReadsBack(h, []);
  }

  lemma PushOfHash(h: Hash160)
    ensures |PushRaw(h)| == 21 && Pushed(h) == h
  {
  }

  function OutputRaw(o: Output): seq<byte> {
    LE(o.coins, 8) + VarData(RedeemScript(o.destination))
  }

  function OutputsRaw(outputs: seq<Output>): seq<byte> {
    if outputs == [] then [] else OutputRaw(outputs[0]) + OutputsRaw(outputs[1..])
  }

  lemma {:induction false} OutputsRawAppend(outputs: seq<Output>, o: Output)
    ensures OutputsRaw(outputs + [o]) == OutputsRaw(outputs) + OutputRaw(o)
  {
    if outputs == [] {
      assert OutputsRaw([o]) == OutputRaw(o) + OutputsRaw([o][1..]);
    } else {
      assert (outputs + [o])[1..] == outputs[1..] + [o];
      OutputsRawAppend(outputs[1..], o);
    }
  }

  // ---------- Layout ----------

  function NullHash(): (s: seq<byte>)
    ensures |s| == 32
  {
    seq(32, _ => 0)
  }

  /** Pushes of the height and the time. */
  function ScriptHead(height: uint32, time: uint32): (s: seq<byte>)
    ensures |s| <= 0x2_0000_0008
  {
    PushRaw(ScriptNumber(height)) + PushRaw(ScriptNumber(time))
  }

  function Nonces(nonce1: uint32, nonce2: uint32): (s: seq<byte>)
    ensures |s| == 8
  {
    LE(nonce1, 4) + LE(nonce2, 4)
  }

  function InputScript(height: uint32, time: uint32, nonces: seq<byte>, id: seq<byte>): (s: seq<byte>)
    requires |nonces| == 8
    ensures |s| < 0x4_0000_0000
  {
    ScriptHead(height, time) + PushRaw(nonces) + PushRaw(id)
  }

  /** Everything before the input script when that script has `scriptSize` bytes. */
  function Prefix(scriptSize: uint64): seq<byte> {
    LE(1, 4) + VarInt(1) + NullHash() + LE(0xffff_ffff, 4) + VarInt(scriptSize)
  }

  /** Everything behind the input script. */
  function Suffix(outputs: seq<Output>): seq<byte>
    requires |outputs| < 0x1_0000_0000_0000_0000
  {
    LE(0, 4) + VarInt(|outputs|) + OutputsRaw(outputs) + LE(0, 4)
  }

  datatype CoinbaseTransaction = CoinbaseTransaction(raw: seq<byte>, part1Size: nat, part2Start: nat) {
    predicate Valid() {
      part1Size <= |raw| && part2Start <= |raw|
    }

    function Part1(): seq<byte>
      requires Valid()
    {
      raw[..part1Size]
    }

    function Part2(): seq<byte>
      requires Valid()
    {
      raw[part2Start..]
    }
  }

  /** The transaction assembled from its pushes, with the offsets on both sides of the nonces. */
  function Assemble(head: seq<byte>, nonces: seq<byte>, id: seq<byte>, suffix: seq<byte>): (tx: CoinbaseTransaction)
    requires |nonces| == 8 && |head| + |id| <= 0x3_0000_000c
    ensures tx.Valid()
  {
    PushOfNonces(nonces);
    var script := head + PushRaw(nonces) + id;
    var prefix := Prefix(|script|);
    CoinbaseTransaction(prefix + script + suffix, |prefix| + |head| + 1, |prefix| + |head| + 9)
  }

  /** What `build` returns when the clock reads `time`. */
  function Build(height: uint32, nonce1: uint32, nonce2: uint32, id: seq<byte>, outputs: seq<Output>, time: uint32):
    (tx: CoinbaseTransaction)
    requires |outputs| < 0x1_0000_0000_0000_0000
    ensures tx.Valid()
  {
    Assemble(ScriptHead(height, time), Nonces(nonce1, nonce2), PushRaw(id), Suffix(outputs))
  }

  // ---------- Construction ----------

  lemma PushOfNonces(nonces: seq<byte>)
    requires |nonces| == 8
    ensures PushRaw(nonces) == [8] + nonces
  {
  }

  /** `Script::operator<<` with something to push. */
  method AppendPush(script: seq<byte>, data: seq<byte>) returns (r: seq<byte>)
    ensures r == script + PushRaw(data)
  {
    var push := PushDataRaw(data);
    r := script + push;
  }

  /** `makeCoinbaseRedeemScript`; the offsets are relative to the script. */
  method MakeCoinbaseRedeemScript(height: uint32, nonce1: uint32, nonce2: uint32, identification: seq<byte>, now: uint32)
    returns (raw: seq<byte>, part1Size: nat, part2Start: nat)
    ensures raw == InputScript(height, now, Nonces(nonce1, nonce2), identification)
    ensures part1Size == |ScriptHead(height, now)| + 1 && part2Start == part1Size + 8
  {
    var number := FromUInt(height);
    raw := AppendPush([], number);
    assert raw == PushRaw(ScriptNumber(height));
    number := FromUInt(now);
    raw := AppendPush(raw, number);
    assert raw == ScriptHead(height, now);
    part1Size := |raw| + 1;
    var nonces := Nonces(nonce1, nonce2);
    raw := AppendPush(raw, nonces);
    PushOfNonces(nonces);
    part2Start := |raw|;
    raw := AppendPush(raw, identification);
  }

  /** `build` with explicit nonces. */
  method BuildTransaction(height: uint32, nonce1: uint32, nonce2: uint32, identification: seq<byte>,
                          outputs: seq<Output>, now: uint32)
    returns (tx: CoinbaseTransaction)
    requires |outputs| < 0x1_0000_0000_0000_0000
    ensures tx == Build(height, nonce1, nonce2, identification, outputs, now)
  {
    var count := EncodeVarInt(1);
    var raw := LE(1, 4) + count + NullHash() + LE(0xffff_ffff, 4);
    ghost var beforeScript := raw;
    var redeemScript, part1Size, part2Start := MakeCoinbaseRedeemScript(height, nonce1, nonce2, identification, now);
    var scriptSize := |redeemScript|;
    var length := EncodeVarInt(scriptSize);
    raw := raw + (length + redeemScript);
    Associate(beforeScript, length, redeemScript);
    part1Size := part1Size + (|raw| - scriptSize);
    part2Start := part2Start + (|raw| - scriptSize);

    ghost var upToScript := raw;
    count := EncodeVarInt(|outputs|);
    raw := raw + LE(0, 4) + count;
    Associate(upToScript, LE(0, 4), count);
    ghost var beforeOutputs := LE(0, 4) + count;
    var rawOutputs := AppendOutputs(raw, outputs);
    raw := rawOutputs + LE(0, 4);
    Associate(upToScript, beforeOutputs, OutputsRaw(outputs));
    Associate(upToScript, beforeOutputs + OutputsRaw(outputs), LE(0, 4));
    tx := CoinbaseTransaction(raw, part1Size, part2Start);
  }

  /** The conversion of an output to bytes. */
  method OutputBytes(o: Output) returns (encoded: seq<byte>)
    ensures encoded == OutputRaw(o)
  {
    encoded := LE(o.coins, 8);
    var script := RedeemScript(o.destination);
    var length := EncodeVarInt(|script|);
    encoded := encoded + (length + script);
  }

  lemma AppendOneOutput(start: seq<byte>, outputs: seq<Output>, i: nat, bytes: seq<byte>)
    requires i < |outputs| && bytes == OutputRaw(outputs[i])
    ensures start + OutputsRaw(outputs[..i + 1]) == start + OutputsRaw(outputs[..i]) + bytes
  {
    assert outputs[..i + 1] == outputs[..i] + [outputs[i]];
    OutputsRawAppend(outputs[..i], outputs[i]);
    Associate(start, OutputsRaw(outputs[..i]), bytes);
  }

  /** The loop of `build` over the outputs. */
  method AppendOutputs(start: seq<byte>, outputs: seq<Output>) returns (raw: seq<byte>)
    ensures raw == start + OutputsRaw(outputs)
  {
    raw := start;
    var i := 0;
    while i < |outputs|
      invariant 0 <= i <= |outputs|
      invariant raw == start + OutputsRaw(outputs[..i])
    {
      var bytes := OutputBytes(outputs[i]);
      AppendOneOutput(start, outputs, i, bytes);
      raw := raw + bytes;
      i := i + 1;
    }
    assert outputs[..i] == outputs;
  }

  // ---------- The extranonce splice ----------

  lemma SpliceParts(prefix: seq<byte>, head: seq<byte>, hole: seq<byte>, other: seq<byte>, id: seq<byte>, suffix: seq<byte>,
                    raw: seq<byte>, start: nat)
    requires |hole| == |other| == 8 && start == |prefix| + |head| + 1
    requires raw == prefix + (head + ([8] + hole) + id) + suffix
    ensures |raw| >= start + 8 && raw[start..start + 8] == hole
    ensures raw[..start] + other + raw[start + 8..] == prefix + (head + ([8] + other) + id) + suffix
  {
  }

  lemma AssembledSplice(head: seq<byte>, hole: seq<byte>, other: seq<byte>, id: seq<byte>, suffix: seq<byte>)
    requires |hole| == |other| == 8 && |head| + |id| <= 0x3_0000_000c
    ensures var tx, filled := Assemble(head, hole, id, suffix), Assemble(head, other, id, suffix);
            tx.Valid() && tx.part2Start == tx.part1Size + 8
            && tx.raw[tx.part1Size..tx.part2Start] == hole
            && tx.Part1() + other + tx.Part2() == filled.raw
            && filled.part1Size == tx.part1Size && filled.part2Start == tx.part2Start
  {
    var tx := Assemble(head, hole, id, suffix);
    PushOfNonces(hole);
    PushOfNonces(other);
    SpliceParts(Prefix(|head| + 9 + |id|), head, hole, other, id, suffix, tx.raw, tx.part1Size);
  }

  /** The two offsets enclose exactly the nonces, and filling in others gives the transaction built with those. */
  lemma ExtranonceSplice(height: uint32, a: uint32, b: uint32, nonce1: uint32, nonce2: uint32,
                         id: seq<byte>, outputs: seq<Output>, time: uint32)
    requires |outputs| < 0x1_0000_0000_0000_0000
    ensures var tx, filled := Build(height, a, b, id, outputs, time), Build(height, nonce1, nonce2, id, outputs, time);
            tx.Valid() && tx.part2Start == tx.part1Size + 8
            && tx.raw[tx.part1Size..tx.part2Start] == LE(a, 4) + LE(b, 4)
            && tx.Part1() + LE(nonce1, 4) + LE(nonce2, 4) + tx.Part2() == filled.raw
            && filled.part1Size == tx.part1Size && filled.part2Start == tx.part2Start
  {
    AssembledSplice(ScriptHead(height, time), Nonces(a, b), Nonces(nonce1, nonce2), PushRaw(id), Suffix(outputs));
    Associate(Build(height, a, b, id, outputs, time).Part1(), LE(nonce1, 4), LE(nonce2, 4));
  }

  // ---------- Transactions in general ----------

  datatype TxInput = TxInput(previousTx: seq<byte>, index: uint32, script: seq<byte>, sequence: uint32) {
    predicate Valid() {
      |previousTx| == 32 && |script| < 0x1_0000_0000_0000_0000
    }
  }

  datatype TxOutput = TxOutput(coins: uint64, script: seq<byte>) {
    predicate Valid() {
      |script| < 0x1_0000_0000_0000_0000
    }
  }

  datatype Transaction = Transaction(version: uint32, inputs: seq<TxInput>, outputs: seq<TxOutput>, locktime: uint32) {
    predicate Valid() {
      && |inputs| < 0x1_0000_0000_0000_0000 && |outputs| < 0x1_0000_0000_0000_0000
      && (forall i :: 0 <= i < |inputs| ==> inputs[i].Valid())
      && (forall i :: 0 <= i < |outputs| ==> outputs[i].Valid())
    }
  }

  function InputRaw(i: TxInput): seq<byte>
    requires i.Valid()
  {
    i.previousTx + (LE(i.index, 4) + (VarData(i.script) + LE(i.sequence, 4)))
  }

  function InputsRaw(inputs: seq<TxInput>): seq<byte>
    requires forall i :: 0 <= i < |inputs| ==> inputs[i].Valid()
  {
    if inputs == [] then [] else InputRaw(inputs[0]) + InputsRaw(inputs[1..])
  }

  function TxOutputRaw(o: TxOutput): seq<byte>
    requires o.Valid()
  {
    LE(o.coins, 8) + VarData(o.script)
  }

  function TxOutputsRaw(outputs: seq<TxOutput>): seq<byte>
    requires forall i :: 0 <= i < |outputs| ==> outputs[i].Valid()
  {
    if outputs == [] then [] else TxOutputRaw(outputs[0]) + TxOutputsRaw(outputs[1..])
  }

  /** The serialisation without witnesses. */
  function TransactionRaw(t: Transaction): seq<byte>
    requires t.Valid()
  {
    LE(t.version, 4) + (VarInt(|t.inputs|) + (InputsRaw(t.inputs)
    + (VarInt(|t.outputs|) + (TxOutputsRaw(t.outputs) + LE(t.locktime, 4)))))
  }

  function ReadUInt32(s: seq<byte>): Option<(uint32, seq<byte>)> {
    if |s| < 4 then None else FromLE32IsUInt32(s[..4]); Some((FromLE(s[..4]), s[4..]))
  }

  function ReadUInt64(s: seq<byte>): Option<(uint64, seq<byte>)> {
    if |s| < 8 then None else FromLEBound(s[..8]); Pow256Values(); Some((FromLE(s[..8]), s[8..]))
  }

  function ReadInput(s0: seq<byte>): Option<(TxInput, seq<byte>)> {
    var (previousTx, s1) :- Take(s0, 32);
    var (index, s2) :- ReadUInt32(s1);
    var (script, s3) :- ReadVarData(s2);
    var (sequence, s4) :- ReadUInt32(s3);
    Some((TxInput(previousTx, index, script, sequence), s4))
  }

  function ReadInputs(s: seq<byte>, n: nat): Option<(seq<TxInput>, seq<byte>)> {
    if n == 0 then Some(([], s))
    else
      var (first, s1) :- ReadInput(s);
      var (others, s2) :- ReadInputs(s1, n - 1);
      Some(([first] + others, s2))
  }

  function ReadOutput(s0: seq<byte>): Option<(TxOutput, seq<byte>)> {
    var (coins, s1) :- ReadUInt64(s0);
    var (script, s2) :- ReadVarData(s1);
    Some((TxOutput(coins, script), s2))
  }

  function ReadOutputs(s: seq<byte>, n: nat): Option<(seq<TxOutput>, seq<byte>)> {
    if n == 0 then Some(([], s))
    else
      var (first, s1) :- ReadOutput(s);
      var (others, s2) :- ReadOutputs(s1, n - 1);
      Some(([first] + others, s2))
  }

  /** A transaction reader; bytes left over make the input unreadable. */
  function ReadTransaction(s: seq<byte>): Option<Transaction> {
    var (version, s1) :- ReadUInt32(s);
    var (inputCount, s2) :- ReadVarInt(s1);
    var (inputs, s3) :- ReadInputs(s2, inputCount);
    var (outputCount, s4) :- ReadVarInt(s3);
    var (outputs, s5) :- ReadOutputs(s4, outputCount);
    var (locktime, s6) :- ReadUInt32(s5);
    if s6 == [] then Some(Transaction(version, inputs, outputs, locktime)) else None
  }

  lemma UInt32ReadsBack(n: uint32, rest: seq<byte>)
    ensures ReadUInt32(LE(n, 4) + rest) == Some((n, rest))
  {
    var s := LE(n, 4) + rest;
    assert s[..4] == LE(n, 4) && s[4..] == rest;
    UInt32RoundTrip(n);
  }

  lemma InputReadsBack(i: TxInput, rest: seq<byte>)
    requires i.Valid()
    ensures ReadInput(InputRaw(i) + rest) == Some((i, rest))
  {
    var s4 := LE(i.sequence, 4) + rest;
    var s3 := VarData(i.script) + s4;
    var s2 := LE(i.index, 4) + s3;
    Associate(VarData(i.script), LE(i.sequence, 4), rest);
    Associate(LE(i.index, 4), VarData(i.script) + LE(i.sequence, 4), rest);
    Associate(i.previousTx, LE(i.index, 4) + (VarData(i.script) + LE(i.sequence, 4)), rest);
    TakeOfConcat(i.previousTx, s2);
    UInt32ReadsBack(i.index, s3);
    VarDataReadsBack(i.script, s4);
    UInt32ReadsBack(i.sequence, rest);
  }

  lemma {:induction false} InputsReadBack(inputs: seq<TxInput>, rest: seq<byte>)
    requires forall i :: 0 <= i < |inputs| ==> inputs[i].Valid()
    ensures ReadInputs(InputsRaw(inputs) + rest, |inputs|) == Some((inputs, rest))
  {
    hide ReadInput, InputRaw;
    if inputs == [] {
      assert InputsRaw(inputs) + rest == rest;
    } else {
      var tail := InputsRaw(inputs[1..]) + rest;
      Associate(InputRaw(inputs[0]), InputsRaw(inputs[1..]), rest);
      InputReadsBack(inputs[0], tail);
      InputsReadBack(inputs[1..], rest);
      assert inputs == [inputs[0]] + inputs[1..];
    }
  }

  lemma UInt64ReadsBack(n: uint64, rest: seq<byte>)
    ensures ReadUInt64(LE(n, 8) + rest) == Some((n, rest))
  {
    var s := LE(n, 8) + rest;
    assert s[..8] == LE(n, 8) && s[8..] == rest;
    UInt64RoundTrip(n);
  }

  lemma OutputReadsBack(o: TxOutput, rest: seq<byte>)
    requires o.Valid()
    ensures ReadOutput(TxOutputRaw(o) + rest) == Some((o, rest))
  {
    hide ReadUInt64, ReadVarData, VarData, LE;
    Associate(LE(o.coins, 8), VarData(o.script), rest);
    UInt64ReadsBack(o.coins, VarData(o.script) + rest);
    VarDataReadsBack(o.script, rest);
  }

  lemma {:induction false} OutputsReadBack(outputs: seq<TxOutput>, rest: seq<byte>)
    requires forall i :: 0 <= i < |outputs| ==> outputs[i].Valid()
    ensures ReadOutputs(TxOutputsRaw(outputs) + rest, |outputs|) == Some((outputs, rest))
  {
    hide ReadOutput, TxOutputRaw;
    if outputs == [] {
      assert TxOutputsRaw(outputs) + rest == rest;
    } else {
      var tail := TxOutputsRaw(outputs[1..]) + rest;
      Associate(TxOutputRaw(outputs[0]), TxOutputsRaw(outputs[1..]), rest);
      OutputReadsBack(outputs[0], tail);
      OutputsReadBack(outputs[1..], rest);
      assert outputs == [outputs[0]] + outputs[1..];
    }
  }

  /** Reading inverts writing, for every transaction. */
  lemma TransactionReadsBack(t: Transaction)
    requires t.Valid()
    ensures ReadTransaction(TransactionRaw(t)) == Some(t)
  {
    var s5 := LE(t.locktime, 4);
    var s4 := TxOutputsRaw(t.outputs) + s5;
    var s3 := VarInt(|t.outputs|) + s4;
    var s2 := InputsRaw(t.inputs) + s3;
    var s1 := VarInt(|t.inputs|) + s2;
    UInt32ReadsBack(t.version, s1);
    VarIntReadsBack(|t.inputs|, s2);
    InputsReadBack(t.inputs, s3);
    VarIntReadsBack(|t.outputs|, s4);
    OutputsReadBack(t.outputs, s5);
    assert s5 + [] == s5;
    UInt32ReadsBack(t.locktime, []);
  }

  // ---------- The coinbase reads back ----------

  function AsTxOutputs(outputs: seq<Output>): (t: seq<TxOutput>)
    ensures |t| == |outputs|
    ensures forall i :: 0 <= i < |t| ==> t[i] == TxOutput(outputs[i].coins, RedeemScript(outputs[i].destination))
  {
    if outputs == [] then []
    else [TxOutput(outputs[0].coins, RedeemScript(outputs[0].destination))] + AsTxOutputs(outputs[1..])
  }

  lemma {:induction false} OutputsAreTxOutputs(outputs: seq<Output>)
    ensures OutputsRaw(outputs) == TxOutputsRaw(AsTxOutputs(outputs))
  {
    if outputs == [] {
    } else {
      OutputsAreTxOutputs(outputs[1..]);
      assert AsTxOutputs(outputs)[1..] == AsTxOutputs(outputs[1..]);
    }
  }

  /** The transaction a coinbase stands for: version 1, one null input, every output, locktime 0. */
  function AsTransaction(script: seq<byte>, outputs: seq<Output>): (t: Transaction)
    requires |script| < 0x4_0000_0000 && |outputs| < 0x1_0000_0000_0000_0000
    ensures t.Valid()
  {
    Transaction(1, [TxInput(NullHash(), 0xffff_ffff, script, 0)], AsTxOutputs(outputs), 0)
  }

  lemma Regroup(version: seq<byte>, inputs: seq<byte>, hash: seq<byte>, index: seq<byte>, size: seq<byte>, script: seq<byte>,
                sequence: seq<byte>, count: seq<byte>, outputs: seq<byte>, locktime: seq<byte>)
    ensures (version + inputs + hash + index + size) + script + (sequence + count + outputs + locktime)
            == version + (inputs + ((hash + (index + ((size + script) + sequence))) + (count + (outputs + locktime))))
  {
    var rest := count + (outputs + locktime);
    assert sequence + count + outputs + locktime == sequence + rest;
    var body := (size + script) + sequence;
    assert (version + inputs + hash + index + size) + script + (sequence + rest) == version + inputs + hash + index + body + rest;
    var input := hash + (index + body);
    assert version + inputs + hash + index + body + rest == version + inputs + input + rest;
    Associate(version + inputs, input, rest);
    Associate(version, inputs, input + rest);
  }

  lemma CoinbaseReadsBack(height: uint32, nonce1: uint32, nonce2: uint32, id: seq<byte>, outputs: seq<Output>, time: uint32)
    requires |outputs| < 0x1_0000_0000_0000_0000
    ensures var script := InputScript(height, time, Nonces(nonce1, nonce2), id);
            var read := ReadTransaction(Build(height, nonce1, nonce2, id, outputs, time).raw);
            && read == Some(AsTransaction(script, outputs))
            && read.value.version == 1 && read.value.locktime == 0
            && read.value.inputs == [TxInput(NullHash(), 0xffff_ffff, script, 0)] && |read.value.outputs| == |outputs|
            && (forall i :: 0 <= i < 32 ==> NullHash()[i] == 0)
            && (forall i :: 0 <= i < |outputs| ==>
                  read.value.outputs[i] == TxOutput(outputs[i].coins, RedeemScript(outputs[i].destination)))
  {
    var script := InputScript(height, time, Nonces(nonce1, nonce2), id);
    var t := AsTransaction(script, outputs);
    OutputsAreTxOutputs(outputs);
    Regroup(LE(1, 4), VarInt(1), NullHash(), LE(0xffff_ffff, 4), VarInt(|script|), script, LE(0, 4), VarInt(|outputs|),
            OutputsRaw(outputs), LE(0, 4));
    assert t.inputs[1..] == [];
    assert InputsRaw(t.inputs) == InputRaw(t.inputs[0]);
    TransactionReadsBack(t);
  }

  /** Everything a script pushes; None when some operation is no push. */
  function ReadPushes(script: seq<byte>): Option<seq<seq<byte>>>
    decreases |script|
  {
    if script == [] then Some([])
    else
      var (data, rest) :- ReadPush(script);
      if |rest| >= |script| then None
      else
        var others :- ReadPushes(rest);
        Some([data] + others)
  }

  /** A script that pushes each of `items`. */
  function PushAll(items: seq<seq<byte>>): seq<byte> {
    if items == [] then [] else PushAll(items[..|items| - 1]) + PushRaw(items[|items| - 1])
  }

  function PushedAll(items: seq<seq<byte>>): (r: seq<seq<byte>>)
    ensures |r| == |items|
    ensures forall i :: 0 <= i < |items| ==> r[i] == Pushed(items[i])
  {
    if items == [] then [] else PushedAll(items[..|items| - 1]) + [Pushed(items[|items| - 1])]
  }

  lemma ReadPushesStep(data: seq<byte>, rest: seq<byte>, others: seq<seq<byte>>)
    requires ReadPushes(rest) == Some(others)
    ensures ReadPushes(PushRaw(data) + rest) == Some([Pushed(data)] + others)
  {
    PushReadsBack(data, rest);
  }

  /** Any script of pushes reads back item by item. */
  lemma {:induction false} PushAllReadsBack(items: seq<seq<byte>>, rest: seq<byte>, others: seq<seq<byte>>)
    requires ReadPushes(rest) == Some(others)
    ensures ReadPushes(PushAll(items) + rest) == Some(PushedAll(items) + others)
  {
    if items == [] {
      assert PushAll(items) + rest == rest;
      assert PushedAll(items) + others == others;
    } else {
      var front, last := items[..|items| - 1], items[|items| - 1];
      ReadPushesStep(last, rest, others);
      PushAllReadsBack(front, PushRaw(last) + rest, [Pushed(last)] + others);
      Associate(PushAll(front), PushRaw(last), rest);
      assert PushedAll(items) + others == PushedAll(front) + ([Pushed(last)] + others);
    }
  }

  lemma PushAllAppend(items: seq<seq<byte>>, data: seq<byte>)
    ensures PushAll(items + [data]) == PushAll(items) + PushRaw(data)
  {
    assert (items + [data])[..|items|] == items;
  }

  lemma HeadIsPushes(height: uint32, time: uint32)
    ensures ScriptHead(height, time) == PushAll([ScriptNumber(height), ScriptNumber(time)])
  {
    var a, b := ScriptNumber(height), ScriptNumber(time);
    PushAllAppend([], a);
    assert [] + [a] == [a] && [] + PushRaw(a) == PushRaw(a);
    PushAllAppend([a], b);
    assert [a] + [b] == [a, b];
  }

  lemma InputScriptIsPushes(height: uint32, time: uint32, nonces: seq<byte>, id: seq<byte>)
    requires |nonces| == 8
    ensures InputScript(height, time, nonces, id) == PushAll([ScriptNumber(height), ScriptNumber(time), nonces, id])
  {
    var head := [ScriptNumber(height), ScriptNumber(time)];
    HeadIsPushes(height, time);
    PushAllAppend(head, nonces);
    PushAllAppend(head + [nonces], id);
    assert head + [nonces] + [id] == [ScriptNumber(height), ScriptNumber(time), nonces, id];
  }

  /** The input script reads back as four pushes, and the first two are the height and the time. */
  lemma InputScriptReadsBack(height: uint32, time: uint32, nonces: seq<byte>, id: seq<byte>)
    requires |nonces| == 8
    ensures ReadPushes(InputScript(height, time, nonces, id))
            == Some([Pushed(ScriptNumber(height)), Pushed(ScriptNumber(time)), nonces, Pushed(id)])
    ensures NumberOf(Pushed(ScriptNumber(height))) == height && IsMinimalNumber(Pushed(ScriptNumber(height)))
    ensures NumberOf(Pushed(ScriptNumber(time))) == time && IsMinimalNumber(Pushed(ScriptNumber(time)))
  {
    UInt32NumberIsShort(height);
    UInt32NumberIsShort(time);
    PushedNumberReads(height, []);
    PushedNumberReads(time, []);
    var items := [ScriptNumber(height), ScriptNumber(time), nonces, id];
    InputScriptIsPushes(height, time, nonces, id);
    PushAllReadsBack(items, [], []);
    assert PushAll(items) + [] == PushAll(items);
    assert PushedAll(items) + [] == [Pushed(items[0]), Pushed(items[1]), nonces, Pushed(id)];
  }

  /** The height a coinbase transaction carries, as a reader finds it. */
  function HeightOf(raw: seq<byte>): Option<int> {
    var tx :- ReadTransaction(raw);
    if |tx.inputs| != 1 then None
    else
      var pushes :- ReadPushes(tx.inputs[0].script);
      if pushes == [] then None else Some(NumberOf(pushes[0]))
  }

  lemma HeightReadsBack(height: uint32, nonce1: uint32, nonce2: uint32, id: seq<byte>, outputs: seq<Output>, time: uint32)
    requires |outputs| < 0x1_0000_0000_0000_0000
    ensures HeightOf(Build(height, nonce1, nonce2, id, outputs, time).raw) == Some(height)
  {
    CoinbaseReadsBack(height, nonce1, nonce2, id, outputs, time);
    InputScriptReadsBack(height, time, Nonces(nonce1, nonce2), id);
  }
}
