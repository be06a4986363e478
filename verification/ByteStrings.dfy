/** Byte strings, fixed-width integers and their text form
    (lib/util/ByteString.h, lib/util/ByteString.cpp, lib/util/ConstByteStringRef.cpp,
    lib/mining/swap32.h). */
module ByteStrings {

  type byte = b: int | 0 <= b < 256

  type uint32 = n: int | 0 <= n < 0x1_0000_0000

  type uint64 = n: int | 0 <= n < 0x1_0000_0000_0000_0000

  datatype Option<+T> = None | Some(value: T) {
    predicate IsFailure() {
      None?
    }

    function PropagateFailure<U>(): Option<U>
      requires None?
    {
      None
    }

    function Extract(): T
      requires Some?
    {
      value
    }
  }

  lemma Associate<T>(a: seq<T>, b: seq<T>, c: seq<T>)
    ensures (a + b) + c == a + (b + c)
  {
  }

  // ---------- Powers of 256 ----------

  function Pow256(n: nat): (p: nat)
    ensures p >= 1
  {
    if n == 0 then 1 else 256 * Pow256(n - 1)
  }

  /** `m` moved up by `k` bytes. */
  function Shifted(m: nat, k: nat): nat {
    if k == 0 then m else 256 * Shifted(m, k - 1)
  }

  lemma {:induction false} ShiftedNext(m: nat, k: nat)
    ensures Shifted(m + 1, k) == Shifted(m, k) + Pow256(k)
  {
    if k == 0 {
    } else {
      ShiftedNext(m, k - 1);
    }
  }

  lemma {:induction false} ShiftedMonotone(m: nat, n: nat, k: nat)
    requires m <= n
    ensures Shifted(m, k) <= Shifted(n, k)
  {
    if k == 0 {
    } else {
      ShiftedMonotone(m, n, k - 1);
    }
  }

  lemma {:induction false} ShiftedTwice(m: nat, j: nat, k: nat)
    ensures Shifted(Shifted(m, j), k) == Shifted(m, j + k)
  {
    if k == 0 {
    } else {
      ShiftedTwice(m, j, k - 1);
    }
  }

  lemma {:induction false} ShiftedOne(k: nat)
    ensures Shifted(1, k) == Pow256(k) && Shifted(0, k) == 0
  {
    if k == 0 {
    } else {
      ShiftedOne(k - 1);
    }
  }

  lemma {:induction false} Pow256Monotone(m: nat, n: nat)
    requires m <= n
    ensures Pow256(m) <= Pow256(n)
  {
    if m == n {
    } else {
      Pow256Monotone(m, n - 1);
    }
  }

  lemma Pow256Values()
    ensures Pow256(1) == 0x100 && Pow256(2) == 0x1_0000 && Pow256(3) == 0x100_0000
    ensures Pow256(4) == 0x1_0000_0000 && Pow256(8) == 0x1_0000_0000_0000_0000
  {
  }

  // ---------- Little-endian and big-endian integers ----------

  /** The bytes that `appendLE` adds for a `width`-byte integer on a little-endian host. */
  function LE(n: nat, width: nat): (s: seq<byte>)
    ensures |s| == width
  {
    if width == 0 then [] else [n % 256] + LE(n / 256, width - 1)
  }

  function FromLE(s: seq<byte>): nat {
    if s == [] then 0 else s[0] + 256 * FromLE(s[1..])
  }

  function FromBE(s: seq<byte>): nat {
    if s == [] then 0 else 256 * FromBE(s[..|s| - 1]) + s[|s| - 1]
  }

  function Reversed<T>(s: seq<T>): (r: seq<T>)
    ensures |r| == |s|
    ensures forall k :: 0 <= k < |s| ==> r[k] == s[|s| - 1 - k]
  {
    if s == [] then [] else [s[|s| - 1]] + Reversed(s[..|s| - 1])
  }

  lemma ReversedTwice<T>(s: seq<T>)
    ensures Reversed(Reversed(s)) == s
  {
  }

  /** A `width`-byte read gives back the value written. */
  lemma {:induction false} FromLEOfLE(n: nat, width: nat)
    requires n < Pow256(width)
    ensures FromLE(LE(n, width)) == n
  {
    if width == 0 {
    } else {
      FromLEOfLE(n / 256, width - 1);
      assert LE(n, width)[1..] == LE(n / 256, width - 1);
    }
  }

  lemma {:induction false} FromLEBound(s: seq<byte>)
    ensures FromLE(s) < Pow256(|s|)
  {
    if s == [] {
    } else {
      FromLEBound(s[1..]);
    }
  }

  lemma {:induction false} LEOfFromLE(s: seq<byte>)
    ensures LE(FromLE(s), |s|) == s
  {
    if s == [] {
    } else {
      LEOfFromLE(s[1..]);
      DigitAndRest(s[0], FromLE(s[1..]));
      assert s == [s[0]] + s[1..];
    }
  }

  lemma DigitAndRest(b: byte, n: nat)
    ensures (b + 256 * n) % 256 == b && (b + 256 * n) / 256 == n
  {
  }

  lemma {:induction false} FromBEIsReversedLE(s: seq<byte>)
    ensures FromBE(s) == FromLE(Reversed(s))
  {
    if s == [] {
    } else {
      FromBEIsReversedLE(s[..|s| - 1]);
      assert Reversed(s)[1..] == Reversed(s[..|s| - 1]);
    }
  }

  lemma FromBEBound(s: seq<byte>)
    ensures FromBE(s) < Pow256(|s|)
  {
    FromBEIsReversedLE(s);
    FromLEBound(Reversed(s));
  }

  lemma {:induction false} FromBEConcat(a: seq<byte>, b: seq<byte>)
    ensures FromBE(a + b) == Shifted(FromBE(a), |b|) + FromBE(b)
  {
    if b == [] {
      assert a + b == a;
    } else {
      var b' := b[..|b| - 1];
      FromBEConcat(a, b');
      assert (a + b)[..|a + b| - 1] == a + b';
    }
  }

  /** Reading back the four bytes of a uint32. */
  lemma UInt32RoundTrip(n: uint32)
    ensures FromLE(LE(n, 4)) == n && FromBE(Reversed(LE(n, 4))) == n
  {
    Pow256Values();
    FromLEOfLE(n, 4);
    FromBEIsReversedLE(Reversed(LE(n, 4)));
    ReversedTwice(LE(n, 4));
  }

  lemma UInt64RoundTrip(n: uint64)
    ensures FromLE(LE(n, 8)) == n
  {
    Pow256Values();
    FromLEOfLE(n, 8);
  }

  lemma FromLE32IsUInt32(s: seq<byte>)
    requires |s| <= 4
    ensures FromLE(s) < 0x1_0000_0000 && FromBE(s) < 0x1_0000_0000
  {
    FromLEBound(s);
    FromBEBound(s);
    Pow256Monotone(|s|, 4);
    Pow256Values();
  }

  /** `reverse` fills a second vector from the back of the first. */
  method Reverse(s: seq<byte>) returns (r: seq<byte>)
    ensures r == Reversed(s)
  {
    var reversed := new byte[|s|];
    var i := 0;
    while i < |s|
      invariant 0 <= i <= |s|
      invariant forall k :: 0 <= k < i ==> reversed[k] == s[|s| - 1 - k]
    {
      reversed[i] := s[|s| - 1 - i];
      i := i + 1;
    }
    r := reversed[..];
  }

  /** `parseUIntLE<uint32_t>`: None stands for the exception on an oversized value. */
  function ParseUInt32LE(s: seq<byte>): (r: Option<uint32>)
  {
    if |s| > 4 then None else FromLE32IsUInt32(s); Some(FromLE(s))
  }

  function ParseUInt32BE(s: seq<byte>): (r: Option<uint32>) {
    ParseUInt32LE(Reversed(s))
  }

  // ---------- Word swapping ----------

  /** Every aligned 4-byte word of `s` back to front. */
  function Swapped32(s: seq<byte>): (r: seq<byte>)
    requires |s| % 4 == 0
    ensures |r| == |s|
  {
    if s == [] then [] else Reversed(s[..4]) + Swapped32(s[4..])
  }

  lemma {:induction false} Swapped32Twice(s: seq<byte>)
    requires |s| % 4 == 0
    ensures Swapped32(Swapped32(s)) == s
  {
    if s == [] {
    } else {
      var r := Swapped32(s);
      assert r[..4] == Reversed(s[..4]) && r[4..] == Swapped32(s[4..]);
      ReversedTwice(s[..4]);
      Swapped32Twice(s[4..]);
    }
  }

  lemma {:induction false} Swapped32Concat(a: seq<byte>, b: seq<byte>)
    requires |a| % 4 == 0 && |b| % 4 == 0
    ensures Swapped32(a + b) == Swapped32(a) + Swapped32(b)
  {
    if a == [] {
      assert a + b == b;
    } else {
      var word, rest := a[..4], a[4..];
      Swapped32Concat(rest, b);
      assert (a + b)[..4] == word && (a + b)[4..] == rest + b;
      assert Reversed(word) + (Swapped32(rest) + Swapped32(b)) == Reversed(word) + Swapped32(rest) + Swapped32(b);
    }
  }

  lemma Swapped32Word(s: seq<byte>)
    requires |s| == 4
    ensures Swapped32(s) == Reversed(s)
  {
    assert s[..4] == s && s[4..] == [];
  }

  lemma {:induction false} Swapped32Prefix(s: seq<byte>, i: nat)
    requires |s| % 4 == 0 && i % 4 == 0 && i + 4 <= |s|
    ensures Swapped32(s[..i + 4]) == Swapped32(s[..i]) + Reversed(s[i..i + 4])
  {
    assert s[..i + 4] == s[..i] + s[i..i + 4];
    Swapped32Concat(s[..i], s[i..i + 4]);
    Swapped32Word(s[i..i + 4]);
  }

  /** `s` with the word at `i` back to front. */
  function WordSwapped(s: seq<byte>, i: nat): seq<byte>
    requires i + 4 <= |s|
  {
    s[..i] + Reversed(s[i..i + 4]) + s[i + 4..]
  }

  /** `swap32(uint8_t[4])`: one word is turned round where it stands. */
  method SwapWord(bytes: array<byte>, i: nat)
    requires i + 4 <= bytes.Length
    modifies bytes
    ensures bytes[..] == WordSwapped(old(bytes[..]), i)
  {
    bytes[i], bytes[i + 1], bytes[i + 2], bytes[i + 3] :=
      bytes[i + 3], bytes[i + 2], bytes[i + 1], bytes[i];
  }

  lemma SwapMiddle(front: seq<byte>, word: seq<byte>, rest: seq<byte>)
    requires |word| == 4
    ensures WordSwapped(front + (word + rest), |front|) == front + Reversed(word) + rest
  {
    var s := front + (word + rest);
    assert s[..|front|] == front && s[|front|..|front| + 4] == word && s[|front| + 4..] == rest;
  }

  lemma SwapStep(s: seq<byte>, i: nat)
    requires |s| % 4 == 0 && i % 4 == 0 && i + 4 <= |s|
    ensures WordSwapped(Swapped32(s[..i]) + s[i..], i) == Swapped32(s[..i + 4]) + s[i + 4..]
  {
    hide Swapped32, WordSwapped;
    Swapped32Prefix(s, i);
    assert s[i..] == s[i..i + 4] + s[i + 4..];
    SwapMiddle(Swapped32(s[..i]), s[i..i + 4], s[i + 4..]);
  }

  lemma SwapEnds(s: seq<byte>)
    requires |s| % 4 == 0
    ensures Swapped32(s[..0]) + s[0..] == s && Swapped32(s[..|s|]) + s[|s|..] == Swapped32(s)
  {
    assert s[..0] == [] && s[0..] == s && s[..|s|] == s && s[|s|..] == [];
  }

  /** `swap32_256`: the hash is swapped in place, word by word. */
  method Swap32In256(int256: array<byte>)
    requires int256.Length == 32
    modifies int256
    ensures int256[..] == Swapped32(old(int256[..]))
  {
    hide Swapped32, WordSwapped;
    ghost var was := int256[..];
    SwapEnds(was);
    var i := 0;
    while i < 32
      invariant 0 <= i <= 32 && i % 4 == 0
      invariant int256[..] == Swapped32(was[..i]) + was[i..]
    {
      SwapStep(was, i);
      SwapWord(int256, i);
      i := i + 4;
    }
  }

  // ---------- Hexadecimal text ----------

  function HexDigit(n: int): (c: char)
    requires 0 <= n < 16
  {
    if n < 10 then ('0' as int + n) as char else ('a' as int + n - 10) as char
  }

  /** `_toRaw`: any character that is no hexadecimal digit counts as zero. */
  function HexValue(c: char): (n: int)
    ensures 0 <= n < 16
  {
    if '0' <= c <= '9' then c as int - '0' as int
    else if 'a' <= c <= 'f' then c as int - 'a' as int + 10
    else if 'A' <= c <= 'F' then c as int - 'A' as int + 10
    else 0
  }

  function HexByte(b: byte): (t: string)
    ensures |t| == 2 && 16 * HexValue(t[0]) + HexValue(t[1]) == b
  {
    [HexDigit(b / 16), HexDigit(b % 16)]
  }

  function ByteOfHex(high: char, low: char): byte {
    16 * HexValue(high) + HexValue(low)
  }

  /** Two lower-case digits a byte, as `%02x` prints them. */
  function Hex(s: seq<byte>): (t: string)
    ensures |t| == 2 * |s|
  {
    if s == [] then "" else HexByte(s[0]) + Hex(s[1..])
  }

  function UnHexPairs(t: string): (s: seq<byte>)
    requires |t| % 2 == 0
    ensures |s| == |t| / 2
  {
    if t == "" then [] else [ByteOfHex(t[0], t[1])] + UnHexPairs(t[2..])
  }

  /** The bytes of a text read two characters at a time; an odd first character stands alone. */
  function UnHex(t: string): (s: seq<byte>) {
    if |t| % 2 == 1 then [HexValue(t[0])] + UnHexPairs(t[1..]) else UnHexPairs(t)
  }

  lemma FirstPair(pair: string, rest: string)
    requires |pair| == 2 && |rest| % 2 == 0
    ensures UnHexPairs(pair + rest) == [ByteOfHex(pair[0], pair[1])] + UnHexPairs(rest)
  {
    assert (pair + rest)[2..] == rest;
  }

  lemma {:induction false} PairsOfHex(s: seq<byte>)
    ensures |Hex(s)| % 2 == 0 && UnHexPairs(Hex(s)) == s
  {
    hide HexByte, UnHexPairs;
    if s == [] {
      NoPairs();
    } else {
      PairsOfHex(s[1..]);
      FirstPair(HexByte(s[0]), Hex(s[1..]));
      assert s == [s[0]] + s[1..];
    }
  }

  lemma NoPairs()
    ensures UnHexPairs("") == []
  {
  }

  lemma UnHexOfHex(s: seq<byte>)
    ensures UnHex(Hex(s)) == s
  {
    PairsOfHex(s);
  }

  lemma {:induction false} HexConcat(a: seq<byte>, b: seq<byte>)
    ensures Hex(a + b) == Hex(a) + Hex(b)
  {
    hide HexByte;
    if a == [] {
      assert a + b == b;
    } else {
      HexConcat(a[1..], b);
      assert (a + b)[1..] == a[1..] + b;
      Associate(HexByte(a[0]), Hex(a[1..]), Hex(b));
    }
  }

  lemma {:induction false} UnHexPairsAt(t: string, k: nat)
    requires |t| % 2 == 0 && 2 * k < |t|
    ensures UnHexPairs(t)[k] == ByteOfHex(t[2 * k], t[2 * k + 1])
  {
    if k == 0 {
    } else {
      UnHexPairsAt(t[2..], k - 1);
    }
  }

  /** `asHex`: `asHexPretty` with no prefix, postfix or grouping. */
  method AsHex(data: seq<byte>) returns (hex: string)
    ensures hex == Hex(data)
    ensures UnHex(hex) == data
    ensures forall i :: 0 <= i < |hex| ==> '0' <= hex[i] <= '9' || 'a' <= hex[i] <= 'f'
  {
    hex := "";
    var pos := 0;
    while pos < |data|
      invariant 0 <= pos <= |data|
      invariant hex == Hex(data[..pos])
    {
      hex := hex + HexByte(data[pos]);
      assert data[..pos + 1] == data[..pos] + [data[pos]];
      HexConcat(data[..pos], [data[pos]]);
      pos := pos + 1;
    }
    assert data[..pos] == data;
    UnHexOfHex(data);
    HexIsLowerCase(data);
  }

  lemma UnHexLength(hex: string)
    ensures |UnHex(hex)| == (|hex| + 1) / 2
  {
  }

  lemma UnHexAt(hex: string, k: nat)
    requires k < (|hex| + 1) / 2
    ensures |UnHex(hex)| == (|hex| + 1) / 2
    ensures UnHex(hex)[k] == if |hex| % 2 == 0 then ByteOfHex(hex[2 * k], hex[2 * k + 1])
                             else if k == 0 then HexValue(hex[0]) else ByteOfHex(hex[2 * k - 1], hex[2 * k])
  {
    hide HexValue, UnHexPairs;
    if |hex| % 2 == 0 {
      UnHexPairsAt(hex, k);
    } else if k > 0 {
      UnHexPairsAt(hex[1..], k - 1);
    }
  }

  /** `fromHex`: fills a buffer of half the text's length. */
  method ParseHex(hex: string) returns (s: seq<byte>)
    ensures s == UnHex(hex)
  {
    hide HexValue, UnHex, ByteOfHex;
    UnHexLength(hex);
    var buffer := new byte[(|hex| + 1) / 2];
    var ptr, pos := 0, 0;
    if |hex| % 2 == 1 {
      buffer[0] := HexValue(hex[0]);
      ptr, pos := 1, 1;
      UnHexAt(hex, 0);
    }
    ghost var start := pos;
    while pos < |hex|
      invariant start <= pos <= |hex| && pos == 2 * ptr - start && start == |hex| % 2
      invariant forall k :: 0 <= k < ptr ==> buffer[k] == UnHex(hex)[k]
    {
      buffer[ptr] := ByteOfHex(hex[pos], hex[pos + 1]);
      UnHexAt(hex, ptr);
      ptr, pos := ptr + 1, pos + 2;
    }
    s := buffer[..];
  }

  /** The lower-case digit a character stands for: upper case is folded, anything that is no digit becomes zero. */
  function Folded(c: char): char {
    if '0' <= c <= '9' || 'a' <= c <= 'f' then c
    else if 'A' <= c <= 'F' then (c as int - 'A' as int + 'a' as int) as char
    else '0'
  }

  lemma FoldedValue(c: char)
    ensures HexValue(Folded(c)) == HexValue(c)
  {
  }

  /** Upper case reads like lower case, what is no digit like zero, and an odd text as if a zero stood before it. */
  lemma FoldedReadsAlike(hex: string, folded: string)
    requires |folded| == |hex| && forall i :: 0 <= i < |hex| ==> folded[i] == Folded(hex[i])
    ensures UnHex(folded) == UnHex(hex)
    ensures |hex| % 2 == 1 ==> UnHex("0" + hex) == UnHex(hex)
  {
    hide UnHex, HexValue, Folded;
    UnHexLength(hex);
    UnHexLength(folded);
    UnHexLength("0" + hex);
    forall k | 0 <= k < |UnHex(hex)| ensures UnHex(folded)[k] == UnHex(hex)[k] {
      UnHexAt(hex, k);
      UnHexAt(folded, k);
      forall i | 0 <= i < |hex| ensures HexValue(folded[i]) == HexValue(hex[i]) {
        FoldedValue(hex[i]);
      }
    }
    if |hex| % 2 == 1 {
      forall k | 0 <= k < |UnHex(hex)| ensures UnHex("0" + hex)[k] == UnHex(hex)[k] {
        UnHexAt(hex, k);
        UnHexAt("0" + hex, k);
        ZeroDigit();
      }
    }
  }

  lemma ZeroDigit()
    ensures HexValue('0') == 0
  {
  }

  /** Only lower-case digits are printed. */
  lemma {:induction false} HexIsLowerCase(s: seq<byte>)
    ensures forall i :: 0 <= i < |Hex(s)| ==> '0' <= Hex(s)[i] <= '9' || 'a' <= Hex(s)[i] <= 'f'
  {
    if s == [] {
    } else {
      HexIsLowerCase(s[1..]);
      assert Hex(s) == HexByte(s[0]) + Hex(s[1..]);
    }
  }
}
