/** Script pushes and CompactSize integers, each with the reader that inverts it
    (lib/mining/txscript/PushData.cpp, lib/mining/txscript/Op.h, lib/mining/VarInt.cpp,
    lib/mining/VarData.h). */
module Script {
  import opened ByteStrings

  const OP_0: byte := 0x00
  const OP_PUSHDATA1: byte := 0x4c
  const OP_PUSHDATA2: byte := 0x4d
  const OP_PUSHDATA4: byte := 0x4e
  const OP_1NEGATE: byte := 0x4f
  const OP_1: byte := 0x51
  const OP_16: byte := 0x60
  const OP_RETURN: byte := 0x6a
  const OP_DUP: byte := 0x76
  const OP_EQUAL: byte := 0x87
  const OP_EQUALVERIFY: byte := 0x88
  const OP_HASH160: byte := 0xa9
  const OP_CHECKSIG: byte := 0xac

  /** The first `n` bytes and what follows them. */
  function Take(s: seq<byte>, n: nat): Option<(seq<byte>, seq<byte>)> {
    if n <= |s| then Some((s[..n], s[n..])) else None
  }

  lemma TakeOfConcat(a: seq<byte>, b: seq<byte>)
    ensures Take(a + b, |a|) == Some((a, b))
  {
    assert (a + b)[..|a|] == a && (a + b)[|a|..] == b;
  }

  // ---------- Script numbers ----------

  /** The little-endian bytes of `n`, with a zero byte added where the last one would carry a sign bit. */
  function ScriptNumber(n: nat): (s: seq<byte>)
    ensures s != []
  {
    if n < 0x80 then [n] else [n % 256] + ScriptNumber(n / 256)
  }

  /** `fromUInt`: a do-while loop that runs on while the last byte had its high bit set. */
  method FromUInt(integer: nat) returns (encoded: seq<byte>)
    ensures encoded == ScriptNumber(integer)
  {
    var rest := integer;
    encoded := [rest % 256];
    var lastSignFlag := rest % 256 >= 0x80;
    rest := rest / 256;
    while rest != 0 || lastSignFlag
      invariant ScriptNumber(integer) == if rest != 0 || lastSignFlag then encoded + ScriptNumber(rest) else encoded
      decreases rest, lastSignFlag
    {
      assert encoded + [rest % 256] + ScriptNumber(rest / 256) == encoded + ([rest % 256] + ScriptNumber(rest / 256));
      encoded := encoded + [rest % 256];
      lastSignFlag := rest % 256 >= 0x80;
      rest := rest / 256;
    }
  }

  /** How a script interpreter reads a number: little-endian, the top bit of the last byte is the sign. */
  function NumberOf(s: seq<byte>): int
  {
    if s == [] then 0
    else if s[|s| - 1] < 0x80 then FromLE(s)
    else 0 - FromLE(s[..|s| - 1] + [s[|s| - 1] - 0x80])
  }

  /** No byte could be dropped: the last one carries more than a sign, or keeps one off the byte before. */
  predicate IsMinimalNumber(s: seq<byte>) {
    s == [] || s[|s| - 1] % 0x80 != 0 || (|s| >= 2 && s[|s| - 2] >= 0x80)
  }

  lemma NumberStep(d: byte, t: seq<byte>)
    requires t != [] && t[|t| - 1] < 0x80
    ensures var s := [d] + t;
            s[|s| - 1] == t[|t| - 1] && FromLE(s) == d + 256 * FromLE(t) && NumberOf(s) == FromLE(s)
    ensures IsMinimalNumber(t) || (|t| == 1 && d >= 0x80) ==> IsMinimalNumber([d] + t)
  {
    var s := [d] + t;
    assert s[1..] == t && s[|s| - 1] == t[|t| - 1];
    assert |t| >= 2 ==> s[|s| - 2] == t[|t| - 2];
  }

  lemma {:induction false} ScriptNumberReads(n: nat)
    ensures NumberOf(ScriptNumber(n)) == n
    ensures var s := ScriptNumber(n); s[|s| - 1] < 0x80 && FromLE(s) == n
    ensures n > 0 ==> IsMinimalNumber(ScriptNumber(n))
  {
    if n < 0x80 {
      assert NumberOf([n]) == FromLE([n]) == n;
    } else {
      hide FromLE, NumberOf, IsMinimalNumber;
      ScriptNumberReads(n / 256);
      NumberStep(n % 256, ScriptNumber(n / 256));
    }
  }

  lemma {:induction false} MinimalNonZero(s: seq<byte>)
    requires s != [] && IsMinimalNumber(s) && s[|s| - 1] < 0x80
    ensures FromLE(s) > 0
  {
    if |s| > 1 {
      if |s| == 2 {
        assert s[1..] == [s[1]];
        assert FromLE(s[1..]) == s[1];
      } else {
        MinimalNonZero(s[1..]);
      }
    } else {
      assert FromLE(s) == s[0];
    }
  }

  /** A minimal script number is the only one of its value, so it is what `fromUInt` writes. */
  lemma {:induction false} MinimalNumberIsUnique(s: seq<byte>)
    requires IsMinimalNumber(s) && NumberOf(s) > 0
    ensures s == ScriptNumber(NumberOf(s))
  {
    var n := NumberOf(s);
    if |s| == 1 {
      assert FromLE(s) == s[0];
    } else {
      var t := s[1..];
      assert t[|t| - 1] == s[|s| - 1] && n == s[0] + 256 * FromLE(t);
      if IsMinimalNumber(t) {
        MinimalNonZero(t);
        MinimalNumberIsUnique(t);
      } else {
        assert |t| == 1 && t == [0];
        assert FromLE(t) == 0;
      }
      assert s == [s[0]] + t;
    }
  }

  // ---------- Pushes ----------

  /** The bytes `PushData::raw` writes. */
  function PushRaw(data: seq<byte>): (raw: seq<byte>)
    ensures 1 <= |raw| <= 0x1_0000_0004
  {
    var len := |data|;
    if len == 0 || data == [0x00] then [OP_0]
    else if len == 1 && data[0] <= 0x10 then [data[0] + 0x50]
    else if len <= 0x4b then [len] + data
    else if len < 0x100 then [OP_PUSHDATA1] + LE(len, 1) + data
    else if len < 0x1_0000 then [OP_PUSHDATA2] + LE(len, 2) + data
    else if len < 0x1_0000_0000 then [OP_PUSHDATA4] + LE(len, 4) + data
    else [OP_PUSHDATA4] + LE(0xffff_ffff, 4) + data[..0xffff_ffff]
  }

  /** `PushData::raw`, branch by branch. */
  method PushDataRaw(data: seq<byte>) returns (raw: seq<byte>)
    ensures raw == PushRaw(data)
  {
    hide LE;
    raw := [];
    var len := |data|;
    assert data[..len] == data;
    LEOne(len);
    LETwo(len);
    if len == 0 {
      return raw + [OP_0];
    } else if len == 1 {
      if data[0] == 0x00 {
        return raw + [OP_0];
      } else if 0x01 <= data[0] <= 0x10 {
        return raw + [data[0] + (OP_1 - 0x01)];
      }
    }
    if 0x01 <= len <= 0x4b {
      raw := raw + [len];
    } else if 0x4c <= len < 0x100 {
      raw := raw + [OP_PUSHDATA1];
      raw := raw + [len];
    } else if 0x100 <= len < 0x1_0000 {
      raw := raw + [OP_PUSHDATA2];
      raw := raw + [len % 256];
      raw := raw + [len / 0x100 % 256];
    } else {
      if len >= 0x1_0000_0000 {
        len := 0xffff_ffff;
      }
      raw := raw + [OP_PUSHDATA4];
      raw := raw + [len % 256];
      raw := raw + [len / 0x100 % 256];
      raw := raw + [len / 0x1_0000 % 256];
      raw := raw + [len / 0x100_0000 % 256];
      LE4Digits(len);
    }
    raw := raw + data[..len];
  }

  lemma LEOne(n: nat)
    ensures n < 0x100 ==> LE(n, 1) == [n]
  {
    assert LE(n, 1) == [n % 256] + LE(n / 256, 0);
  }

  lemma LETwo(n: nat)
    ensures LE(n, 2) == [n % 256, n / 0x100 % 256]
  {
    assert LE(n, 2) == [n % 256] + LE(n / 256, 1);
  }

  lemma LEStep(n: nat, width: nat)
    requires width > 0
    ensures LE(n, width) == [n % 256] + LE(n / 256, width - 1)
  {
  }

  lemma DivideTwice(n: nat)
    ensures n / 0x100 / 0x100 == n / 0x1_0000 && n / 0x1_0000 / 0x100 == n / 0x100_0000
  {
  }

  lemma LE4Digits(n: nat)
    ensures LE(n, 4) == [n % 256, n / 0x100 % 256, n / 0x1_0000 % 256, n / 0x100_0000 % 256]
  {
    hide LE;
    DivideTwice(n);
    LEStep(n, 4);
    LEStep(n / 0x100, 3);
    LETwo(n / 0x1_0000);
  }

  /** A length field of `width` bytes, then that many bytes. */
  function ReadCounted(s: seq<byte>, width: nat): Option<(seq<byte>, seq<byte>)> {
    if |s| < width then None else Take(s[width..], FromLE(s[..width]))
  }

  /** Script reader: what the first operation pushes and the script behind it. */
  function ReadPush(s: seq<byte>): Option<(seq<byte>, seq<byte>)> {
    if s == [] then None
    else if s[0] == OP_0 then Some(([], s[1..]))
    else if s[0] <= 0x4b then Take(s[1..], s[0])
    else if s[0] == OP_PUSHDATA1 then ReadCounted(s[1..], 1)
    else if s[0] == OP_PUSHDATA2 then ReadCounted(s[1..], 2)
    else if s[0] == OP_PUSHDATA4 then ReadCounted(s[1..], 4)
    else if s[0] == OP_1NEGATE then Some(([0x81], s[1..]))
    else if OP_1 <= s[0] <= OP_16 then Some(([s[0] - 0x50], s[1..]))
    else None
  }

  lemma ReadCountedBack(len: nat, width: nat, data: seq<byte>, rest: seq<byte>)
    requires |data| == len < Pow256(width)
    ensures ReadCounted(LE(len, width) + data + rest, width) == Some((data, rest))
  {
    var s := LE(len, width) + data + rest;
    assert s[..width] == LE(len, width) && s[width..] == data + rest;
    FromLEOfLE(len, width);
    TakeOfConcat(data, rest);
  }

  /** What a push of `data` leaves on the stack: the single zero byte becomes the empty string,
      and data beyond 2^32 - 1 bytes is cut. */
  function Pushed(data: seq<byte>): seq<byte> {
    if data == [0x00] then [] else if |data| < 0x1_0000_0000 then data else data[..0xffff_ffff]
  }

  lemma OpcodeReadsBack(data: seq<byte>, rest: seq<byte>)
    requires data == [] || (|data| == 1 && data[0] <= 0x10)
    ensures ReadPush(PushRaw(data) + rest) == Some((Pushed(data), rest))
  {
    var s := PushRaw(data) + rest;
    assert s[1..] == rest && (data != [] ==> data == [data[0]]);
  }

  lemma DirectPushReadsBack(data: seq<byte>, rest: seq<byte>)
    requires 0 < |data| <= 0x4b && (|data| == 1 ==> data[0] > 0x10)
    ensures ReadPush(PushRaw(data) + rest) == Some((Pushed(data), rest))
  {
    hide Take;
    var s := PushRaw(data) + rest;
    assert s[0] == |data| && s[1..] == data + rest;
    TakeOfConcat(data, rest);
  }

  /** The opcode and the width of the length field of a long push. */
  function LongPush(data: seq<byte>): (byte, nat) {
    if |data| < 0x100 then (OP_PUSHDATA1, 1) else if |data| < 0x1_0000 then (OP_PUSHDATA2, 2) else (OP_PUSHDATA4, 4)
  }

  lemma LongPushRaw(data: seq<byte>)
    requires |data| > 0x4b
    ensures var (opcode, width) := LongPush(data);
            PushRaw(data) == [opcode] + LE(|Pushed(data)|, width) + Pushed(data) && |Pushed(data)| < Pow256(width)
  {
    hide LE;
    Pow256Values();
  }

  lemma LongPushReads(data: seq<byte>, s: seq<byte>)
    requires s != [] && s[0] == LongPush(data).0
    ensures ReadPush(s) == ReadCounted(s[1..], LongPush(data).1)
  {
    hide ReadCounted;
  }

  lemma LongPushReadsBack(data: seq<byte>, rest: seq<byte>)
    requires |data| > 0x4b
    ensures ReadPush(PushRaw(data) + rest) == Some((Pushed(data), rest))
  {
    hide LE, ReadCounted, ReadPush, PushRaw, Pushed, LongPush, Pow256;
    var (opcode, width) := LongPush(data);
    LongPushRaw(data);
    var s := PushRaw(data) + rest;
    assert s[0] == opcode && s[1..] == LE(|Pushed(data)|, width) + Pushed(data) + rest;
    LongPushReads(data, s);
    ReadCountedBack(|Pushed(data)|, width, Pushed(data), rest);
  }

  lemma PushReadsBack(data: seq<byte>, rest: seq<byte>)
    ensures ReadPush(PushRaw(data) + rest) == Some((Pushed(data), rest))
  {
    hide ReadPush, PushRaw, Pushed;
    if data == [] || (|data| == 1 && data[0] <= 0x10) {
      OpcodeReadsBack(data, rest);
    } else if |data| <= 0x4b {
      DirectPushReadsBack(data, rest);
    } else {
      LongPushReadsBack(data, rest);
    }
  }

  /** Exactly the single zero byte and data of 2^32 bytes or more do not survive a push. */
  lemma PushRoundTripExactly(data: seq<byte>, rest: seq<byte>)
    ensures ReadPush(PushRaw(data) + rest) == Some((data, rest)) <==> data != [0x00] && |data| < 0x1_0000_0000
  {
    PushReadsBack(data, rest);
  }

  lemma NoShorterPush(s: seq<byte>, data: seq<byte>)
    requires ReadPush(s) == Some((data, [])) && data != [0x81]
    ensures |PushRaw(data)| <= |s|
  {
    if OP_PUSHDATA1 <= s[0] <= OP_PUSHDATA4 {
      var width := if s[0] == OP_PUSHDATA1 then 1 else if s[0] == OP_PUSHDATA2 then 2 else 4;
      FromLEBound(s[1..][..width]);
      Pow256Values();
    }
  }

  /** No script that pushes the same data is shorter, but for the single byte 0x81: `OP_1NEGATE` would push it. */
  lemma PushIsShortestExactly(data: seq<byte>)
    ensures (forall s :: ReadPush(s) == Some((data, [])) ==> |PushRaw(data)| <= |s|) <==> data != [0x81]
  {
    if data == [0x81] {
      var s: seq<byte> := [OP_1NEGATE];
      assert s[1..] == [] && ReadPush(s) == Some((data, []));
    } else {
      forall s | ReadPush(s) == Some((data, [])) ensures |PushRaw(data)| <= |s| {
        NoShorterPush(s, data);
      }
    }
  }

  /** Height and time: the number pushed is read back as a minimal script number. */
  lemma PushedNumberReads(n: nat, rest: seq<byte>)
    requires |ScriptNumber(n)| < 0x1_0000_0000
    ensures ReadPush(PushRaw(ScriptNumber(n)) + rest) == Some((Pushed(ScriptNumber(n)), rest))
    ensures NumberOf(Pushed(ScriptNumber(n))) == n && IsMinimalNumber(Pushed(ScriptNumber(n)))
  {
    PushReadsBack(ScriptNumber(n), rest);
    ScriptNumberReads(n);
    assert FromLE([0x00]) == 0;
  }

  lemma {:induction false} ScriptNumberIsShort(n: nat, k: nat)
    requires n < Pow256(k)
    ensures |ScriptNumber(n)| <= k + 1
    decreases k
  {
    if n < 0x80 {
    } else {
      ScriptNumberIsShort(n / 256, k - 1);
    }
  }

  lemma UInt32NumberIsShort(n: uint32)
    ensures |ScriptNumber(n)| <= 5
  {
    Pow256Values();
    ScriptNumberIsShort(n, 4);
  }

  // ---------- CompactSize ----------

  function VarInt(n: uint64): (s: seq<byte>)
    ensures 1 <= |s| <= 9
  {
    if n < 0xfd then [n]
    else if n < 0x1_0000 then [0xfd] + LE(n, 2)
    else if n < 0x1_0000_0000 then [0xfe] + LE(n, 4)
    else [0xff] + LE(n, 8)
  }

  /** `VarInt::encode`: the low bytes of the host integer are copied. */
  method EncodeVarInt(raw: uint64) returns (encoded: seq<byte>)
    ensures encoded == VarInt(raw)
  {
    encoded := [];
    hide LE;
    var host := LE(raw, 8);
    LEPrefix(raw, 1, 8);
    LEPrefix(raw, 2, 8);
    LEPrefix(raw, 4, 8);
    if raw < 0xfd {
      LEOne(raw);
      return host[..1];
    }
    if raw < 0x1_0000 {
      encoded := encoded + [0xfd];
      encoded := encoded + host[..2];
    } else if raw < 0x1_0000_0000 {
      encoded := encoded + [0xfe];
      encoded := encoded + host[..4];
    } else {
      encoded := encoded + [0xff];
      encoded := encoded + host[..8];
    }
  }

  lemma {:induction false} LEPrefix(n: nat, short: nat, width: nat)
    requires short <= width
    ensures LE(n, width)[..short] == LE(n, short)
  {
    if short == 0 {
    } else {
      LEPrefix(n / 256, short - 1, width - 1);
    }
  }

  /** CompactSize reader; an encoding that is longer than needed is refused. */
  function ReadVarInt(s: seq<byte>): Option<(nat, seq<byte>)> {
    if s == [] then None
    else if s[0] < 0xfd then Some((s[0], s[1..]))
    else
      var width, least := if s[0] == 0xfd then 2 else if s[0] == 0xfe then 4 else 8,
                          if s[0] == 0xfd then 0xfd else if s[0] == 0xfe then 0x1_0000 else 0x1_0000_0000;
      if |s| < 1 + width || FromLE(s[1..1 + width]) < least then None
      else Some((FromLE(s[1..1 + width]), s[1 + width..]))
  }

  lemma VarIntReadsBack(n: uint64, rest: seq<byte>)
    ensures ReadVarInt(VarInt(n) + rest) == Some((n, rest))
  {
    var s := VarInt(n) + rest;
    Pow256Values();
    if n < 0xfd {
      assert s[1..] == rest;
    } else {
      var width := if n < 0x1_0000 then 2 else if n < 0x1_0000_0000 then 4 else 8;
      assert s[1..1 + width] == LE(n, width) && s[1 + width..] == rest;
      FromLEOfLE(n, width);
    }
  }

  /** The reader accepts nothing but what `encode` writes. */
  lemma VarIntIsCanonical(s: seq<byte>, n: nat, rest: seq<byte>)
    requires ReadVarInt(s) == Some((n, rest))
    ensures n < 0x1_0000_0000_0000_0000 && s == VarInt(n) + rest
  {
    Pow256Values();
    if s[0] < 0xfd {
      assert s == [s[0]] + s[1..];
    } else {
      var width := if s[0] == 0xfd then 2 else if s[0] == 0xfe then 4 else 8;
      var digits := s[1..1 + width];
      FromLEBound(digits);
      LEOfFromLE(digits);
      assert s == [s[0]] + digits + s[1 + width..];
    }
  }

  /** `VarData::encode`: length, then content. */
  function VarData(data: seq<byte>): seq<byte>
    requires |data| < 0x1_0000_0000_0000_0000
  {
    VarInt(|data|) + data
  }

  function ReadVarData(s: seq<byte>): Option<(seq<byte>, seq<byte>)> {
    match ReadVarInt(s)
    case None => None
    case Some((n, rest)) => Take(rest, n)
  }

  lemma VarDataReadsBack(data: seq<byte>, rest: seq<byte>)
    requires |data| < 0x1_0000_0000_0000_0000
    ensures ReadVarData(VarData(data) + rest) == Some((data, rest))
  {
    assert VarData(data) + rest == VarInt(|data|) + (data + rest);
    VarIntReadsBack(|data|, data + rest);
    TakeOfConcat(data, rest);
  }
}
