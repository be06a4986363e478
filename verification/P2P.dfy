/** The Bitcoin peer-to-peer socket (lib/bitcoinp2p/P2PSocket.cpp). */
module P2P {
  import opened ByteStrings
  import opened Framing
  import opened Hash256

  const HEADER_SIZE: nat := 24
  const CMD_SIZE: nat := 12
  const MAX_PAYLOAD: nat := 0x200_0000

  /** What both ends of a connection share: the network magic, and SHA-256d for the checksum. */
  datatype Network = Network(magic: uint32, sha256d: seq<byte> -> Hash)

  datatype P2PMessage = P2PMessage(cmd: seq<byte>, payload: seq<byte>)

  // ---------- Framing ----------

  /** The header field is an `int32_t`. */
  function PayloadSize(b: seq<byte>): int
    requires |b| >= HEADER_SIZE
  {
    var n := FromLE(b[16..20]);
    if n < 0x8000_0000 then n else n - 0x1_0000_0000
  }

  /** What the loop of `onReceive` does with a buffer. */
  function CutOf(net: Network, b: seq<byte>): Cut {
    if |b| < HEADER_SIZE then NeedMore
    else if FromLE(b[..4]) != net.magic then Fail
    else
      var size := PayloadSize(b);
      if size < 0 || size >= MAX_PAYLOAD then Fail
      else if |b| < HEADER_SIZE + size then NeedMore
      else if net.sha256d(b[HEADER_SIZE..HEADER_SIZE + size])[..4] != b[20..24] then Fail
      else Frame(HEADER_SIZE + size)
  }

  function P2PCut(net: Network): Cutter {
    b => CutOf(net, b)
  }

  lemma SameFront(a: seq<byte>, b: seq<byte>, from: nat, to: nat)
    requires a <= b && from <= to <= |a|
    ensures a[from..to] == b[from..to]
  {
  }

  lemma CutLooksAtTheFront(net: Network, a: seq<byte>, b: seq<byte>)
    requires a <= b && |a| >= HEADER_SIZE
    requires CutOf(net, a) != NeedMore || (CutOf(net, b).Frame? && CutOf(net, b).size <= |a|)
    ensures CutOf(net, a) == CutOf(net, b)
  {
    hide FromLE;
    SameFront(a, b, 0, 4);
    SameFront(a, b, 16, 20);
    SameFront(a, b, 20, 24);
    var size := PayloadSize(a);
    if 0 <= size && HEADER_SIZE + size <= |a| {
      SameFront(a, b, HEADER_SIZE, HEADER_SIZE + size);
    }
  }

  lemma P2PCutIsStable(net: Network)
    ensures Stable(P2PCut(net))
  {
    var cut := P2PCut(net);
    hide FromLE;
    forall b | cut(b).Frame? ensures cut(b[..cut(b).size]) == cut(b) {
      CutLooksAtTheFront(net, b[..cut(b).size], b);
    }
    forall b, more | cut(b).Frame? ensures cut(b + more) == cut(b) {
      CutLooksAtTheFront(net, b, b + more);
    }
    forall b, more | cut(b).Fail? ensures cut(b + more) == Fail {
      CutLooksAtTheFront(net, b, b + more);
    }
  }

  // ---------- Messages in frames ----------

  /** The text of a NUL-terminated field. */
  function CString(s: seq<byte>): (t: seq<byte>)
    ensures t <= s && 0 !in t
    ensures |t| < |s| ==> s[|t|] == 0
  {
    if s == [] || s[0] == 0 then [] else [s[0]] + CString(s[1..])
  }

  /** The message that `onReceive` parses out of a frame. */
  function Parsed(frame: seq<byte>): P2PMessage
    requires |frame| >= HEADER_SIZE
  {
    P2PMessage(CString(frame[4..16]), frame[HEADER_SIZE..])
  }

  function Zeros(n: nat): (z: seq<byte>)
    ensures |z| == n && forall i :: 0 <= i < n ==> z[i] == 0
  {
    if n == 0 then [] else [0] + Zeros(n - 1)
  }

  /** The command as `strcpy` puts it into a zeroed field. */
  function CommandField(cmd: seq<byte>): (f: seq<byte>)
    requires |CString(cmd)| < CMD_SIZE
    ensures |f| == CMD_SIZE
  {
    CString(cmd) + Zeros(CMD_SIZE - |CString(cmd)|)
  }

  /** The header fields in order, then the payload. */
  function Packet(net: Network, m: P2PMessage): seq<byte>
    requires |CString(m.cmd)| < CMD_SIZE
  {
    LE(net.magic, 4) + CommandField(m.cmd) + LE(|m.payload| % 0x1_0000_0000, 4) + net.sha256d(m.payload)[..4] + m.payload
  }

  /** The socket; an exception from `onReceive` ends its receiving thread. */
  class P2PSocket {
    const net: Network
    var buffer: seq<byte>
    var processed: seq<P2PMessage>
    var failed: bool
    ghost var frames: seq<seq<byte>>

    constructor (net: Network)
      ensures this.net == net && View() == EMPTY && processed == []
    {
      this.net := net;
      buffer, processed, failed, frames := [], [], false, [];
    }

    ghost function View(): Parser
      reads this
    {
      Parser(buffer, frames, failed)
    }

    /** The messages handed on are those of the frames cut off so far. */
    ghost predicate Valid()
      reads this
    {
      |processed| == |frames| && forall i :: 0 <= i < |frames| ==> |frames[i]| >= HEADER_SIZE && processed[i] == Parsed(frames[i])
    }

    method OnReceive(packet: seq<byte>)
      requires Valid() && !failed
      modifies this
      ensures Valid()
      ensures View() == Feed(P2PCut(net), old(View()), packet)
    {
      hide FromLE, CString, Drained;
      buffer := buffer + packet;
      ghost var goal := Drained(P2PCut(net), View());
      while |buffer| >= HEADER_SIZE
        invariant Valid() && !failed
        invariant Drained(P2PCut(net), View()) == goal
        decreases |buffer|
      {
        DrainOnce(P2PCut(net), View());
        if FromLE(buffer[..4]) != net.magic {
          failed := true;
          return;
        }
        var payloadSize := PayloadSize(buffer);
        if payloadSize < 0 || payloadSize >= MAX_PAYLOAD {
          failed := true;
          return;
        }
        var packetSize := HEADER_SIZE + payloadSize;
        if |buffer| < packetSize {
          return;
        }
        var payload := buffer[HEADER_SIZE..packetSize];
        if net.sha256d(payload)[..4] != buffer[20..24] {
          failed := true;
          return;
        }
        ghost var frame := buffer[..packetSize];
        assert P2PCut(net)(buffer) == Frame(packetSize);
        hide CutOf, PayloadSize;
        SameFront(frame, buffer, 4, 16);
        assert Parsed(frame) == P2PMessage(CString(buffer[4..16]), payload);
        processed := processed + [P2PMessage(CString(buffer[4..16]), payload)];
        frames := frames + [frame];
        if |buffer| == packetSize {
          assert buffer[packetSize..] == [];
          buffer := [];
          DrainOnce(P2PCut(net), View());
          return;
        }
        buffer := buffer[packetSize..];
      }
      DrainOnce(P2PCut(net), View());
    }

    /** `send`: the header is zeroed and filled field by field. A command of 12 or more bytes would overrun its
        field. */
    method Send(m: P2PMessage) returns (bytes: seq<byte>)
      requires |CString(m.cmd)| < CMD_SIZE
      ensures bytes == Packet(net, m)
    {
      hide CString, LE, Zeros, Replaced;
      var magic, cmd := LE(net.magic, 4), CString(m.cmd);
      var size, checksum := LE(|m.payload| % 0x1_0000_0000, 4), net.sha256d(m.payload)[..4];
      var header := new byte[HEADER_SIZE](_ => 0);
      assert header[..] == [] + Zeros(HEADER_SIZE);
      PutOnZeros([], HEADER_SIZE, magic);
      assert [] + magic == magic;
      Put(header, 0, magic);
      PutOnZeros(magic, 20, cmd);
      Put(header, 4, cmd);
      ZerosSplit(magic + cmd, CMD_SIZE - |cmd|, 8);
      PutOnZeros(magic + cmd + Zeros(CMD_SIZE - |cmd|), 8, size);
      Put(header, 16, size);
      PutOnZeros(magic + cmd + Zeros(CMD_SIZE - |cmd|) + size, 4, checksum);
      Put(header, 20, checksum);
      HeaderLayout(magic, cmd, size, checksum);
      bytes := header[..] + m.payload;
    }
  }

  function Replaced(s: seq<byte>, at: nat, t: seq<byte>): (r: seq<byte>)
    requires at + |t| <= |s|
  {
    s[..at] + t + s[at + |t|..]
  }

  lemma PutOnZeros(front: seq<byte>, n: nat, s: seq<byte>)
    requires |s| <= n
    ensures Replaced(front + Zeros(n), |front|, s) == front + s + Zeros(n - |s|)
  {
  }

  lemma ZerosSplit(front: seq<byte>, m: nat, n: nat)
    ensures front + Zeros(m + n) == front + Zeros(m) + Zeros(n)
  {
  }

  lemma HeaderLayout(magic: seq<byte>, cmd: seq<byte>, size: seq<byte>, checksum: seq<byte>)
    requires |cmd| < CMD_SIZE
    ensures magic + cmd + Zeros(CMD_SIZE - |cmd|) + size + checksum + Zeros(0)
            == magic + (cmd + Zeros(CMD_SIZE - |cmd|)) + size + checksum
  {
    assert magic + cmd + Zeros(CMD_SIZE - |cmd|) == magic + (cmd + Zeros(CMD_SIZE - |cmd|));
  }

  /** Copies bytes into an array in place. */
  method Put(a: array<byte>, at: nat, s: seq<byte>)
    requires at + |s| <= a.Length
    modifies a
    ensures a[..] == Replaced(old(a[..]), at, s)
  {
    var i := 0;
    while i < |s|
      invariant i <= |s|
      invariant forall k :: 0 <= k < a.Length ==> a[k] == if at <= k < at + i then s[k - at] else old(a[k])
    {
      a[at + i] := s[i];
      i := i + 1;
    }
  }

  // ---------- Receiving inverts sending ----------

  lemma {:induction false} CStringStops(s: seq<byte>, n: nat)
    requires 0 !in s && n > 0
    ensures CString(s + Zeros(n)) == s
  {
    if s == [] {
      assert s + Zeros(n) == Zeros(n);
    } else {
      CStringStops(s[1..], n);
      assert (s + Zeros(n))[1..] == s[1..] + Zeros(n);
    }
  }

  lemma PacketFields(magic: seq<byte>, cmd: seq<byte>, size: seq<byte>, checksum: seq<byte>, payload: seq<byte>)
    requires |magic| == 4 && |cmd| == 12 && |size| == 4 && |checksum| == 4
    ensures var p := magic + cmd + size + checksum + payload;
            && |p| == 24 + |payload| && p[..4] == magic && p[4..16] == cmd && p[16..20] == size && p[20..24] == checksum
            && p[24..] == payload
  {
  }

  /** What a peer makes of a packet: below 32 MiB it is one frame, above it is refused, and the command arrives up
      to its first NUL. */
  lemma PacketIsFrame(net: Network, m: P2PMessage)
    requires |CString(m.cmd)| < CMD_SIZE && |m.payload| < 0x1_0000_0000
    ensures var p := Packet(net, m);
            if |m.payload| < MAX_PAYLOAD
            then CutOf(net, p) == Frame(|p|) && |p| >= HEADER_SIZE && Parsed(p) == P2PMessage(CString(m.cmd), m.payload)
            else CutOf(net, p).Fail?
  {
    hide LE, FromLE, CString, Zeros;
    PacketFields(LE(net.magic, 4), CommandField(m.cmd), LE(|m.payload|, 4), net.sha256d(m.payload)[..4], m.payload);
    UInt32RoundTrip(net.magic);
    UInt32RoundTrip(|m.payload|);
    CStringStops(CString(m.cmd), CMD_SIZE - |CString(m.cmd)|);
    var p := Packet(net, m);
    assert |m.payload| < MAX_PAYLOAD ==> p[HEADER_SIZE..HEADER_SIZE + |m.payload|] == m.payload;
  }

  /** A message arrives as it was sent exactly if its command holds no NUL and its payload is below 32 MiB. */
  lemma ArrivesExactly(net: Network, m: P2PMessage)
    requires |CString(m.cmd)| < CMD_SIZE && |m.payload| < 0x1_0000_0000
    ensures var p := Packet(net, m);
            CutOf(net, p) == Frame(|p|) && |p| >= HEADER_SIZE && Parsed(p) == m
            <==> 0 !in m.cmd && |m.payload| < MAX_PAYLOAD
  {
    PacketIsFrame(net, m);
    hide CutOf, Packet, Parsed;
    assert CString(m.cmd) == m.cmd <==> 0 !in m.cmd;
  }

  lemma FrameFields(f: seq<byte>)
    requires |f| >= HEADER_SIZE
    ensures f == f[..4] + f[4..16] + f[16..20] + f[20..24] + f[24..]
  {
  }

  /** Sending on what was parsed out of an accepted frame gives the same bytes, exactly if the command was padded
      with zeros only. */
  lemma ResentFrame(net: Network, f: seq<byte>)
    requires CutOf(net, f) == Frame(|f|) && |CString(f[4..16])| < CMD_SIZE
    ensures Packet(net, Parsed(f)) == f <==> f[4..16] == CommandField(f[4..16])
  {
    hide LE, FromLE, CString, CommandField;
    var m, field := Parsed(f), CommandField(f[4..16]);
    LEOfFromLE(f[..4]);
    LEOfFromLE(f[16..20]);
    CStringTwice(f[4..16]);
    SameField(f[4..16]);
    assert f[HEADER_SIZE..HEADER_SIZE + PayloadSize(f)] == m.payload;
    FromLE32IsUInt32(f[16..20]);
    assert |m.payload| % 0x1_0000_0000 == FromLE(f[16..20]);
    assert m.cmd == CString(f[4..16]);
    assert Packet(net, m) == f[..4] + field + f[16..20] + f[20..24] + m.payload;
    PacketFields(f[..4], field, f[16..20], f[20..24], m.payload);
    FrameFields(f);
  }

  lemma SameField(s: seq<byte>)
    requires |CString(s)| < CMD_SIZE
    ensures |CString(CString(s))| < CMD_SIZE && CommandField(CString(s)) == CommandField(s)
  {
    CStringTwice(s);
  }

  lemma CStringTwice(s: seq<byte>)
    ensures CString(CString(s)) == CString(s)
  {
  }

  ghost predicate Sendable(ms: seq<P2PMessage>) {
    forall i :: 0 <= i < |ms| ==> |CString(ms[i].cmd)| < CMD_SIZE && |ms[i].payload| < MAX_PAYLOAD
  }

  function Packets(net: Network, ms: seq<P2PMessage>): (f: seq<seq<byte>>)
    requires Sendable(ms)
    ensures |f| == |ms| && forall i :: 0 <= i < |f| ==> f[i] == Packet(net, ms[i])
  {
    seq(|ms|, i requires 0 <= i < |ms| => Packet(net, ms[i]))
  }

  /** `ms`, parsed frame by frame. */
  ghost predicate AreParsed(frames: seq<seq<byte>>, ms: seq<P2PMessage>) {
    |frames| == |ms| && forall i :: 0 <= i < |ms| ==> |frames[i]| >= HEADER_SIZE && Parsed(frames[i]) == ms[i]
  }

  lemma PacketsAreFrames(net: Network, ms: seq<P2PMessage>)
    requires Sendable(ms)
    ensures Whole(P2PCut(net), Packets(net, ms))
    ensures AreParsed(Packets(net, ms), ms) <==> forall i :: 0 <= i < |ms| ==> 0 !in ms[i].cmd
  {
    hide Parsed, CutOf, Packet;
    var frames := Packets(net, ms);
    forall i | 0 <= i < |ms|
      ensures CutOf(net, frames[i]) == Frame(|frames[i]|) && |frames[i]| >= HEADER_SIZE
      ensures Parsed(frames[i]) == ms[i] <==> 0 !in ms[i].cmd
    {
      PacketIsFrame(net, ms[i]);
      ArrivesExactly(net, ms[i]);
    }
  }

  /** However a stream is chunked, exactly the packets of `ms` are received, in order, with `rest` kept in the buffer, if
      and only if the stream is these packets and then `rest`, an unfinished one; and what is then processed is exactly
      `ms` if and only if no command holds a NUL. */
  lemma MessagesArrive(net: Network, ms: seq<P2PMessage>, rest: seq<byte>, chunks: seq<seq<byte>>)
    requires Sendable(ms)
    ensures FeedAll(P2PCut(net), EMPTY, chunks) == Parser(rest, Packets(net, ms), false)
            <==> Flatten(chunks) == Flatten(Packets(net, ms)) + rest && CutOf(net, rest).NeedMore?
    ensures AreParsed(Packets(net, ms), ms) <==> forall i :: 0 <= i < |ms| ==> 0 !in ms[i].cmd
  {
    hide Stable, Whole, Flatten, FeedAll, CutOf, AreParsed;
    P2PCutIsStable(net);
    PacketsAreFrames(net, ms);
    OnlyParse(P2PCut(net), chunks, Packets(net, ms), rest);
  }

  /** A payload of 32 MiB or more, like any packet the header check refuses, ends the connection after the packets
      before it and none after it. */
  lemma RefusedPacketEnds(net: Network, ms: seq<P2PMessage>, bad: seq<byte>, chunks: seq<seq<byte>>)
    requires Sendable(ms) && Flatten(chunks) == Flatten(Packets(net, ms)) + bad && CutOf(net, bad).Fail?
    ensures FeedAll(P2PCut(net), EMPTY, chunks).failed
    ensures FeedAll(P2PCut(net), EMPTY, chunks).delivered == Packets(net, ms)
  {
    hide Stable, Whole, Flatten, FeedAll, CutOf, AreParsed;
    P2PCutIsStable(net);
    PacketsAreFrames(net, ms);
    OnlyFailure(P2PCut(net), chunks, Packets(net, ms));
  }
}
