/** Message bus framing and message encoding (lib/socket/Socket.cpp, lib/messagebus/MessageStreamParser.cpp,
    lib/messagebus/AbstractMessage.cpp, lib/util/ByteString.h, lib/util/ByteStringReader.cpp). */
module MessageBus {
  import opened ByteStrings
  import opened Framing

  const MAX_MESSAGE_SIZE: nat := 32768

  // ---------- Framing ----------

  /** `getReceivedMessageSize`: 0 means that more bytes are needed, the exception means Fail. */
  function BusCut(buffer: seq<byte>): Cut {
    if |buffer| < 4 then NeedMore
    else
      var packetSize := FromLE(buffer[..4]);
      if packetSize > MAX_MESSAGE_SIZE then Fail
      else if |buffer| - 4 < packetSize then NeedMore
      else Frame(4 + packetSize)
  }

  lemma BusCutIsStable()
    ensures Stable(BusCut)
  {
    forall b | BusCut(b).Frame? ensures BusCut(b[..BusCut(b).size]) == BusCut(b) {
      assert b[..BusCut(b).size][..4] == b[..4];
    }
    forall b, more | BusCut(b).Frame? ensures BusCut(b + more) == BusCut(b) {
      assert (b + more)[..4] == b[..4];
    }
    forall b, more | BusCut(b).Fail? ensures BusCut(b + more) == Fail {
      assert (b + more)[..4] == b[..4];
    }
  }

  /** `Socket::StreamParser` with the bus rule. An exception ends the receiving thread. */
  class StreamParser {
    var buffer: seq<byte>
    var delivered: seq<seq<byte>>
    var failed: bool

    constructor ()
      ensures View() == EMPTY
    {
      buffer, delivered, failed := [], [], false;
    }

    function View(): Parser
      reads this
    {
      Parser(buffer, delivered, failed)
    }

    /** `processPacket`. */
    method ProcessPacket(packet: seq<byte>)
      requires !failed
      modifies this
      ensures View() == Feed(BusCut, old(View()), packet)
    {
      BusCutIsStable();
      buffer := buffer + packet;
      var cut := BusCut(buffer);
      while cut.Frame?
        invariant !failed && cut == BusCut(buffer)
        invariant Drained(BusCut, View()) == Feed(BusCut, old(View()), packet)
        decreases |buffer|
      {
        var oldBuffer := buffer;
        buffer := oldBuffer[cut.size..];
        delivered := delivered + [oldBuffer[..cut.size]];
        cut := BusCut(buffer);
      }
      if cut.Fail? {
        failed := true;
      }
    }
  }

  // ---------- Encoding ----------

  /** A message as the relay handles it; its content is JSON text. */
  datatype Message = Message(cls: seq<byte>, typ: seq<byte>, content: seq<byte>)

  /** `operator<<` for strings: a 32-bit length, truncated like the cast in the source, then the bytes. */
  function Counted(s: seq<byte>): seq<byte> {
    LE(|s| % 0x1_0000_0000, 4) + s
  }

  function Payload(m: Message): seq<byte> {
    Counted(m.cls) + Counted(m.typ) + Counted(m.content)
  }

  function Encode(m: Message): seq<byte> {
    Counted(Payload(m))
  }

  method EncodeMessage(m: Message) returns (encoded: seq<byte>)
    ensures encoded == Encode(m)
  {
    var payload := AppendCounted([], m.cls);
    assert payload == Counted(m.cls);
    payload := AppendCounted(payload, m.typ);
    payload := AppendCounted(payload, m.content);
    encoded := AppendCounted([], payload);
    assert encoded == Counted(payload);
  }

  method AppendCounted(buffer: seq<byte>, toAppend: seq<byte>) returns (r: seq<byte>)
    ensures r == buffer + Counted(toAppend)
  {
    r := buffer + LE(|toAppend| % 0x1_0000_0000, 4);
    r := r + toAppend;
    assert r == buffer + (LE(|toAppend| % 0x1_0000_0000, 4) + toAppend);
  }

  // ---------- Decoding ----------

  function ReadCount(s: seq<byte>): Option<(nat, seq<byte>)> {
    if |s| < 4 then None else Some((FromLE(s[..4]), s[4..]))
  }

  function ReadString(s: seq<byte>): Option<(seq<byte>, seq<byte>)> {
    var (size, rest) :- ReadCount(s);
    if |rest| < size then None else Some((rest[..size], rest[size..]))
  }

  /** The three strings of a payload, which they must fill. */
  function ReadFields(payload: seq<byte>): Option<Message> {
    var (cls, r1) :- ReadString(payload);
    var (typ, r2) :- ReadString(r1);
    var (content, r3) :- ReadString(r2);
    if r3 != [] then None else Some(Message(cls, typ, content))
  }

  /** `doDecode`; None stands for any of its exceptions. */
  function Decode(message: seq<byte>): Option<Message> {
    if |message| > MAX_MESSAGE_SIZE then None
    else
      var (messageSize, rest) :- ReadCount(message);
      if messageSize != |rest| then None else ReadFields(rest)
  }

  /** `ByteStringReader`; a false or None result stands for the exception of `advance`. */
  class ByteStringReader {
    var buffer: seq<byte>

    constructor (buffer: seq<byte>)
      ensures this.buffer == buffer
    {
      this.buffer := buffer;
    }

    method Advance(amount: nat) returns (ok: bool)
      modifies this
      ensures ok == (amount <= |old(buffer)|)
      ensures buffer == if ok then old(buffer)[amount..] else old(buffer)
    {
      if |buffer| < amount {
        return false;
      }
      buffer := buffer[amount..];
      ok := true;
    }

    method ReadUInt32() returns (n: Option<nat>)
      modifies this
      ensures match ReadCount(old(buffer))
              case Some((count, rest)) => n == Some(count) && buffer == rest
              case None => n == None && buffer == old(buffer)
    {
      var ptr := buffer;
      var ok := Advance(4);
      n := if ok then Some(FromLE(ptr[..4])) else None;
    }

    method ReadText() returns (s: Option<seq<byte>>)
      modifies this
      ensures match ReadString(old(buffer))
              case Some((text, rest)) => s == Some(text) && buffer == rest
              case None => s == None
    {
      var size := ReadUInt32();
      if size.None? {
        return None;
      }
      var ptr := buffer;
      var ok := Advance(size.value);
      s := if ok then Some(ptr[..size.value]) else None;
    }
  }

  method DecodeMessage(message: seq<byte>) returns (m: Option<Message>)
    ensures m == Decode(message)
  {
    if |message| > MAX_MESSAGE_SIZE {
      return None;
    }
    var reader := new ByteStringReader(message);
    var messageSize := reader.ReadUInt32();
    if messageSize.None? || messageSize.value != |reader.buffer| {
      return None;
    }
    var messageClass := reader.ReadText();
    if messageClass.None? {
      return None;
    }
    var messageType := reader.ReadText();
    if messageType.None? {
      return None;
    }
    var content := reader.ReadText();
    if content.None? || |reader.buffer| != 0 {
      return None;
    }
    m := Some(Message(messageClass.value, messageType.value, content.value));
  }

  // ---------- Decoding inverts encoding ----------

  lemma CountReadsBack(n: nat, rest: seq<byte>)
    requires n < 0x1_0000_0000
    ensures ReadCount(LE(n, 4) + rest) == Some((n, rest))
  {
    var s := LE(n, 4) + rest;
    assert s[..4] == LE(n, 4) && s[4..] == rest;
    UInt32RoundTrip(n);
  }

  lemma CountedReadsBack(s: seq<byte>, rest: seq<byte>)
    requires |s| < 0x1_0000_0000
    ensures ReadString(Counted(s) + rest) == Some((s, rest))
  {
    hide LE, FromLE, ReadCount;
    assert Counted(s) + rest == LE(|s|, 4) + (s + rest);
    CountReadsBack(|s|, s + rest);
    assert (s + rest)[..|s|] == s && (s + rest)[|s|..] == rest;
  }

  lemma CountIsExact(s: seq<byte>, n: nat, rest: seq<byte>)
    requires ReadCount(s) == Some((n, rest))
    ensures n < 0x1_0000_0000 && s == LE(n, 4) + rest
  {
    FromLE32IsUInt32(s[..4]);
    LEOfFromLE(s[..4]);
    assert s == s[..4] + s[4..];
  }

  lemma CutBack(count: seq<byte>, tail: seq<byte>, size: nat)
    requires size <= |tail|
    ensures count + tail == count + tail[..size] + tail[size..]
  {
  }

  lemma ReadStringIsExact(s: seq<byte>, text: seq<byte>, rest: seq<byte>)
    requires ReadString(s) == Some((text, rest))
    ensures s == Counted(text) + rest
  {
    hide ReadCount, LE, FromLE;
    var size, tail := ReadCount(s).value.0, ReadCount(s).value.1;
    CountIsExact(s, size, tail);
    assert text == tail[..size] && rest == tail[size..];
    CutBack(LE(size, 4), tail, size);
  }

  lemma PayloadReadsBack(m: Message)
    requires |Payload(m)| < 0x1_0000_0000
    ensures ReadFields(Payload(m)) == Some(m)
  {
    hide Counted, ReadString;
    var tail := Counted(m.typ) + Counted(m.content);
    CountedLength(m);
    assert Payload(m) == Counted(m.cls) + tail;
    CountedReadsBack(m.cls, tail);
    CountedReadsBack(m.typ, Counted(m.content));
    CountedReadsBack(m.content, []);
    assert Counted(m.content) + [] == Counted(m.content);
  }

  lemma CountedLength(m: Message)
    ensures |m.cls| <= |Payload(m)| && |m.typ| <= |Payload(m)| && |m.content| <= |Payload(m)|
  {
  }

  lemma FieldsAreExact(payload: seq<byte>, m: Message)
    requires ReadFields(payload) == Some(m)
    ensures payload == Payload(m)
  {
    hide Counted, ReadString;
    var r1 := ReadString(payload).value.1;
    var r2 := ReadString(r1).value.1;
    ReadStringIsExact(payload, m.cls, r1);
    ReadStringIsExact(r1, m.typ, r2);
    assert ReadString(r2).value.1 == [];
    ReadStringIsExact(r2, m.content, []);
    assert payload == Counted(m.cls) + Counted(m.typ) + Counted(m.content);
  }

  /** `doDecode` succeeds on exactly the encodings of at most 32768 bytes, and with the message encoded. */
  lemma DecodeExactly(b: seq<byte>, m: Message)
    ensures Decode(b) == Some(m) <==> b == Encode(m) && |b| <= MAX_MESSAGE_SIZE
  {
    hide Payload, ReadFields, FromLE, LE;
    if b == Encode(m) && |b| <= MAX_MESSAGE_SIZE {
      CountReadsBack(|Payload(m)|, Payload(m));
      PayloadReadsBack(m);
    }
    if Decode(b) == Some(m) {
      FieldsAreExact(b[4..], m);
      LEOfFromLE(b[..4]);
      assert b == b[..4] + b[4..];
    }
  }

  // ---------- Streams of messages ----------

  function Frames(ms: seq<Message>): (f: seq<seq<byte>>)
    ensures |f| == |ms| && forall i :: 0 <= i < |f| ==> f[i] == Encode(ms[i])
  {
    if ms == [] then [] else [Encode(ms[0])] + Frames(ms[1..])
  }

  lemma EncodingIsFrame(m: Message)
    requires |Payload(m)| < 0x1_0000_0000
    ensures |Payload(m)| <= MAX_MESSAGE_SIZE ==> BusCut(Encode(m)) == Frame(|Encode(m)|)
    ensures |Payload(m)| > MAX_MESSAGE_SIZE ==> BusCut(Encode(m)) == Fail
  {
    hide Payload, LE, FromLE;
    CountReadsBack(|Payload(m)|, Payload(m));
  }

  /** Each frame decodes to its message. */
  ghost predicate AllDecode(frames: seq<seq<byte>>, ms: seq<Message>) {
    |frames| == |ms| && forall i :: 0 <= i < |ms| ==> Decode(frames[i]) == Some(ms[i])
  }

  ghost predicate Small(ms: seq<Message>) {
    forall i :: 0 <= i < |ms| ==> |Payload(ms[i])| <= MAX_MESSAGE_SIZE - 4
  }

  lemma SmallDecode(ms: seq<Message>)
    ensures Small(ms) <==> AllDecode(Frames(ms), ms)
    ensures Small(ms) ==> Whole(BusCut, Frames(ms))
  {
    hide Decode, Payload, BusCut;
    forall i | 0 <= i < |ms|
      ensures |Payload(ms[i])| <= MAX_MESSAGE_SIZE - 4 <==> Decode(Frames(ms)[i]) == Some(ms[i])
      ensures |Payload(ms[i])| <= MAX_MESSAGE_SIZE - 4 ==> BusCut(Frames(ms)[i]) == Frame(|Frames(ms)[i]|)
    {
      DecodeExactly(Encode(ms[i]), ms[i]);
      if |Payload(ms[i])| <= MAX_MESSAGE_SIZE - 4 {
        EncodingIsFrame(ms[i]);
      }
    }
  }

  lemma DecodedFrames(frames: seq<seq<byte>>, ms: seq<Message>)
    requires AllDecode(frames, ms)
    ensures frames == Frames(ms)
  {
    hide Decode, Encode;
    forall i | 0 <= i < |ms| ensures frames[i] == Frames(ms)[i] {
      DecodeExactly(frames[i], ms[i]);
    }
  }

  /** However a stream is chunked, a receiver has decoded exactly `ms` and waits with `rest` in its buffer if and
      only if the stream is the encodings of `ms`, in order, then `rest`, and no payload is above 32764 bytes. */
  lemma MessagesArrive(ms: seq<Message>, rest: seq<byte>, packets: seq<seq<byte>>)
    ensures var p := FeedAll(BusCut, EMPTY, packets);
            !p.failed && p.buffer == rest && AllDecode(p.delivered, ms)
            <==> Flatten(packets) == Flatten(Frames(ms)) + rest && Small(ms) && BusCut(rest).NeedMore?
  {
    hide Stable, Whole, Small, AllDecode, Flatten, FeedAll, BusCut;
    BusCutIsStable();
    SmallDecode(ms);
    var p := FeedAll(BusCut, EMPTY, packets);
    if AllDecode(p.delivered, ms) {
      DecodedFrames(p.delivered, ms);
    }
    OnlyParse(BusCut, packets, Frames(ms), rest);
  }

  lemma LongIsNotDecoded(m: Message)
    requires |Payload(m)| > MAX_MESSAGE_SIZE - 4
    ensures Decode(Encode(m)) == None
  {
  }

  /** The bound is exact: one payload above 32764 bytes and the stream either fails or hands on a frame that
      does not decode. */
  lemma OversizedIsLost(ms: seq<Message>, big: Message, packets: seq<seq<byte>>)
    requires Flatten(packets) == Flatten(Frames(ms)) + Encode(big)
    requires Small(ms)
    requires MAX_MESSAGE_SIZE - 4 < |Payload(big)| < 0x1_0000_0000
    ensures var p := FeedAll(BusCut, EMPTY, packets);
            if |Payload(big)| > MAX_MESSAGE_SIZE then p.failed && p.delivered == Frames(ms)
            else p == Parser([], Frames(ms) + [Encode(big)], false) && Decode(Encode(big)) == None
  {
    hide BusCut, Encode, Decode, Payload, FeedAll, Flatten, Stable;
    BusCutIsStable();
    LongIsNotDecoded(big);
    SmallDecode(ms);
    EncodingIsFrame(big);
    if |Payload(big)| > MAX_MESSAGE_SIZE {
      OnlyFailure(BusCut, packets, Frames(ms));
    } else {
      FlattenAppend(Frames(ms), Encode(big));
      assert Flatten(Frames(ms) + [Encode(big)]) + [] == Flatten(packets);
      OnlyParse(BusCut, packets, Frames(ms) + [Encode(big)], []);
    }
  }
}
