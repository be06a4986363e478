/** Cutting a byte stream into frames, for any rule that looks at the front of the buffer
    (the loops of lib/socket/Socket.cpp and lib/bitcoinp2p/P2PSocket.cpp). */
module Framing {
  import opened ByteStrings

  /** What a framing rule says of a buffer. Fail stands for an exception. */
  datatype Cut = NeedMore | Frame(size: nat) | Fail

  type Cutter = seq<byte> -> Cut

  /** The rule waits on an empty buffer, takes whole frames, looks at nothing beyond a frame, and never changes
      its mind when more bytes arrive. */
  ghost predicate Stable(cut: Cutter) {
    && cut([]).NeedMore?
    && (forall b :: cut(b).Frame? ==> 0 < cut(b).size <= |b| && cut(b[..cut(b).size]) == cut(b))
    && (forall b, more :: cut(b).Frame? ==> cut(b + more) == cut(b))
    && (forall b, more :: cut(b).Fail? ==> cut(b + more) == Fail)
  }

  /** The receiving side: bytes not consumed yet, frames handed on, and whether an exception ended it. */
  datatype Parser = Parser(buffer: seq<byte>, delivered: seq<seq<byte>>, failed: bool)

  const EMPTY: Parser := Parser([], [], false)

  /** Hands on every frame at the front of the buffer. */
  function Drained(cut: Cutter, p: Parser): Parser
    decreases |p.buffer|
  {
    if p.failed then p
    else match cut(p.buffer)
         case NeedMore => p
         case Fail => p.(failed := true)
         case Frame(n) =>
           if 0 < n <= |p.buffer| then Drained(cut, Parser(p.buffer[n..], p.delivered + [p.buffer[..n]], false))
           else p
  }

  lemma DrainOnce(cut: Cutter, p: Parser)
    requires !p.failed && (cut(p.buffer).Frame? ==> 0 < cut(p.buffer).size <= |p.buffer|)
    ensures match cut(p.buffer)
            case NeedMore => Drained(cut, p) == p
            case Fail => Drained(cut, p) == p.(failed := true)
            case Frame(n) =>
              Drained(cut, p) == Drained(cut, Parser(p.buffer[n..], p.delivered + [p.buffer[..n]], false))
  {
  }

  function Feed(cut: Cutter, p: Parser, packet: seq<byte>): Parser {
    if p.failed then p else Drained(cut, p.(buffer := p.buffer + packet))
  }

  function FeedAll(cut: Cutter, p: Parser, packets: seq<seq<byte>>): Parser
    decreases |packets|
  {
    if packets == [] then p else FeedAll(cut, Feed(cut, p, packets[0]), packets[1..])
  }

  function Flatten(packets: seq<seq<byte>>): seq<byte> {
    if packets == [] then [] else packets[0] + Flatten(packets[1..])
  }

  /** Draining and then receiving more is draining everything; after a failure the new bytes stay behind. */
  lemma {:induction false} DrainThenMore(cut: Cutter, p: Parser, more: seq<byte>)
    requires Stable(cut) && !p.failed
    ensures var d := Drained(cut, p);
            Drained(cut, p.(buffer := p.buffer + more))
            == if d.failed then d.(buffer := d.buffer + more) else Drained(cut, d.(buffer := d.buffer + more))
    decreases |p.buffer|
  {
    match cut(p.buffer)
    case NeedMore =>
    case Fail =>
      assert cut(p.buffer + more) == Fail;
    case Frame(n) =>
      assert cut(p.buffer + more) == Frame(n);
      assert (p.buffer + more)[n..] == p.buffer[n..] + more && (p.buffer + more)[..n] == p.buffer[..n];
      DrainThenMore(cut, Parser(p.buffer[n..], p.delivered + [p.buffer[..n]], false), more);
  }

  ghost predicate Waiting(cut: Cutter, p: Parser) {
    !p.failed ==> cut(p.buffer).NeedMore?
  }

  lemma {:induction false} DrainedWaits(cut: Cutter, p: Parser)
    requires Stable(cut) && !p.failed
    ensures Waiting(cut, Drained(cut, p))
    decreases |p.buffer|
  {
    match cut(p.buffer)
    case NeedMore =>
    case Fail =>
    case Frame(n) =>
      DrainedWaits(cut, Parser(p.buffer[n..], p.delivered + [p.buffer[..n]], false));
  }

  /** Receiving two packets is receiving both at once; after a failure the second one only stays behind. */
  lemma FeedThenMore(cut: Cutter, p: Parser, packet: seq<byte>, rest: seq<byte>)
    requires Stable(cut) && !p.failed
    ensures Waiting(cut, Feed(cut, p, packet))
    ensures var d := Feed(cut, p, packet);
            Feed(cut, p, packet + rest) == if d.failed then d.(buffer := d.buffer + rest) else Feed(cut, d, rest)
  {
    var q := p.(buffer := p.buffer + packet);
    DrainThenMore(cut, q, rest);
    DrainedWaits(cut, q);
    assert p.buffer + (packet + rest) == q.buffer + rest;
    hide Drained, Stable;
  }

  lemma {:induction false} FailedStays(cut: Cutter, p: Parser, packets: seq<seq<byte>>)
    requires p.failed
    ensures FeedAll(cut, p, packets) == p
    decreases |packets|
  {
    if packets == [] {
    } else {
      FailedStays(cut, p, packets[1..]);
    }
  }

  /** However a stream is cut into packets, the same frames are delivered and it fails or not alike. Without
      failure the same bytes are left over; with it, the packets not looked at any more are all that differs. */
  lemma {:induction false} ChunkingDoesNotMatter(cut: Cutter, p: Parser, packets: seq<seq<byte>>)
    requires Stable(cut) && Waiting(cut, p)
    ensures var many, once := FeedAll(cut, p, packets), Feed(cut, p, Flatten(packets));
            && many.delivered == once.delivered && many.failed == once.failed
            && (if once.failed then many.buffer <= once.buffer else many == once)
    decreases |packets|
  {
    hide Drained, Stable;
    if p.failed {
      FailedStays(cut, p, packets);
    } else if packets == [] {
      assert p.buffer + [] == p.buffer;
      WaitingStays(cut, p);
    } else {
      FeedThenMore(cut, p, packets[0], Flatten(packets[1..]));
      ChunkingDoesNotMatter(cut, Feed(cut, p, packets[0]), packets[1..]);
      if Feed(cut, p, packets[0]).failed {
        FailedStays(cut, Feed(cut, p, packets[0]), packets[1..]);
      }
    }
  }

  lemma WaitingStays(cut: Cutter, p: Parser)
    requires Waiting(cut, p)
    ensures Drained(cut, p) == p
  {
  }

  lemma TakeFrame(cut: Cutter, first: seq<byte>, rest: seq<byte>, delivered: seq<seq<byte>>)
    requires Stable(cut) && cut(first) == Frame(|first|)
    ensures Drained(cut, Parser(first + rest, delivered, false)) == Drained(cut, Parser(rest, delivered + [first], false))
  {
    assert cut(first + rest) == cut(first);
    assert (first + rest)[|first|..] == rest && (first + rest)[..|first|] == first;
  }

  /** Each element is one complete frame. */
  ghost predicate Whole(cut: Cutter, frames: seq<seq<byte>>) {
    forall i :: 0 <= i < |frames| ==> cut(frames[i]) == Frame(|frames[i]|)
  }

  /** A stream of complete frames followed by `tail` is cut into exactly these frames. */
  lemma {:induction false} WholeFrames(cut: Cutter, frames: seq<seq<byte>>, delivered: seq<seq<byte>>, tail: seq<byte>)
    requires Stable(cut)
    requires Whole(cut, frames)
    ensures Drained(cut, Parser(Flatten(frames) + tail, delivered, false))
            == Drained(cut, Parser(tail, delivered + frames, false))
    decreases |frames|
  {
    hide Stable, Drained;
    if frames == [] {
      assert Flatten(frames) + tail == tail && delivered + frames == delivered;
    } else {
      assert Flatten(frames) + tail == frames[0] + (Flatten(frames[1..]) + tail);
      TakeFrame(cut, frames[0], Flatten(frames[1..]) + tail, delivered);
      WholeFrames(cut, frames[1..], delivered + [frames[0]], tail);
      assert delivered + [frames[0]] + frames[1..] == delivered + frames;
    }
  }

  lemma {:induction false} FlattenAppend(frames: seq<seq<byte>>, f: seq<byte>)
    ensures Flatten(frames + [f]) == Flatten(frames) + f
  {
    if frames == [] {
      assert frames + [f] == [f] && [f][1..] == [];
      assert Flatten([f]) == f + Flatten([f][1..]);
    } else {
      FlattenAppend(frames[1..], f);
      assert (frames + [f])[1..] == frames[1..] + [f];
    }
  }

  lemma MoveCut(a: seq<byte>, b: seq<byte>, n: nat)
    requires n <= |b|
    ensures a + b[..n] + b[n..] == a + b
  {
  }

  /** No byte is lost, invented or moved: the frames handed on and the bytes left over are the bytes received. */
  lemma {:induction false} DrainKeepsBytes(cut: Cutter, p: Parser)
    requires Stable(cut) && Whole(cut, p.delivered)
    ensures var d := Drained(cut, p);
            && Flatten(d.delivered) + d.buffer == Flatten(p.delivered) + p.buffer && Whole(cut, d.delivered)
            && (d.failed && !p.failed ==> cut(d.buffer).Fail?)
    decreases |p.buffer|
  {
    hide Flatten;
    if p.failed || !cut(p.buffer).Frame? {
    } else {
      var n := cut(p.buffer).size;
      var next := Parser(p.buffer[n..], p.delivered + [p.buffer[..n]], false);
      FlattenAppend(p.delivered, p.buffer[..n]);
      MoveCut(Flatten(p.delivered), p.buffer, n);
      DrainKeepsBytes(cut, next);
    }
  }

  /** The frames and the residue that a receiver ends with are the only way to read the stream as whole frames
      followed by bytes the rule still waits on. */
  lemma OnlyParse(cut: Cutter, packets: seq<seq<byte>>, frames: seq<seq<byte>>, rest: seq<byte>)
    requires Stable(cut)
    ensures FeedAll(cut, EMPTY, packets) == Parser(rest, frames, false)
            <==> Flatten(packets) == Flatten(frames) + rest && Whole(cut, frames) && cut(rest).NeedMore?
  {
    OneShot(cut, packets);
    var p := Parser(Flatten(packets), [], false);
    DrainKeepsBytes(cut, p);
    DrainedWaits(cut, p);
    assert Flatten([]) + p.buffer == p.buffer;
    if Flatten(packets) == Flatten(frames) + rest && Whole(cut, frames) && cut(rest).NeedMore? {
      WholeFrames(cut, frames, [], rest);
      assert [] + frames == frames;
    }
  }

  /** It fails after handing on `frames` exactly if these are whole frames and the rule refuses what follows them. */
  lemma OnlyFailure(cut: Cutter, packets: seq<seq<byte>>, frames: seq<seq<byte>>)
    requires Stable(cut)
    ensures FeedAll(cut, EMPTY, packets).failed && FeedAll(cut, EMPTY, packets).delivered == frames
            <==> Whole(cut, frames) && exists bad :: Flatten(packets) == Flatten(frames) + bad && cut(bad).Fail?
  {
    OneShot(cut, packets);
    var p := Parser(Flatten(packets), [], false);
    DrainKeepsBytes(cut, p);
    assert Flatten([]) + p.buffer == p.buffer;
    if bad :| Whole(cut, frames) && Flatten(packets) == Flatten(frames) + bad && cut(bad).Fail? {
      WholeFrames(cut, frames, [], bad);
      assert [] + frames == frames;
    }
  }

  lemma OneShot(cut: Cutter, packets: seq<seq<byte>>)
    requires Stable(cut)
    ensures var many, once := FeedAll(cut, EMPTY, packets), Drained(cut, Parser(Flatten(packets), [], false));
            && many.delivered == once.delivered && many.failed == once.failed
            && (if once.failed then many.buffer <= once.buffer else many == once)
  {
    ChunkingDoesNotMatter(cut, EMPTY, packets);
    assert [] + Flatten(packets) == Flatten(packets);
  }
}
