/** What happens when the UART hands a request over in pieces. */
module UrpcSplits {
  import opened Octets
  import opened UrpcFrames
  import opened UrpcAgent
  import opened SerialPort
  import opened UrpcBridge
  import opened UrpcLink

  // ---- two pieces -----------------------------------------------------------------------------

  lemma {:induction false} FramePrefixRejected(r: Request, cut: nat)
    requires |r.payload| < 256 && cut < |RequestFrame(r)|
    ensures !Parse(RequestFrame(r)[..cut]).Valid?
  {
    hide Parse, RequestFrame;
    var head := RequestFrame(r)[..cut];
    if Parse(head).Valid? {
      var q := Parse(head).req;
      ParseIff(head, q);
      FramesPrefixFree(q, r);
      assert false;
    }
  }

  /** Two chunks, two replies; if the first chunk is rejected, the second alone decides what is dispatched. */
  lemma {:induction false} HandleTwo(d: Device, c: Arrival, e: Arrival)
    ensures var x := React(d, c.chunk, c.queueDepth);
      var y := React(x.dev, e.chunk, e.queueDepth);
      && Handle(d, [c, e]).replies == x.reply + y.reply
      && (!Parse(c.chunk).Valid? ==>
            && x.dev == d
            && Handle(d, [c, e]).dispatched == if y.dispatched.Some? then [y.dispatched.value] else [])
  {
    hide React, Parse;
    assert [c, e][1..] == [e];
    HandleOne(React(d, c.chunk, c.queueDepth).dev, e);
    Rejected(d, c);
  }

  lemma {:induction false} Rejected(d: Device, c: Arrival)
    ensures var x := React(d, c.chunk, c.queueDepth);
      !Parse(c.chunk).Valid? ==> x.dispatched.None? && x.dev == d
  {
    hide Parse, AckFrame;
  }

  /** The command in a chunk, if the firmware accepts it and does not take it for a repetition. */
  function CommandIn(d: Device, chunk: Bytes): seq<Request> {
    if Parse(chunk).Valid? && !Clashes(d, Parse(chunk).req) then [Parse(chunk).req] else []
  }

  lemma {:induction false} ReactCommand(d: Device, c: Arrival)
    ensures var x := React(d, c.chunk, c.queueDepth).dispatched;
      (if x.Some? then [x.value] else []) == CommandIn(d, c.chunk)
  {
    hide Parse, AckFrame, DispatchStatus, DispatchPins;
  }

  /**
    A prompt line is not enough: when the UART hands one intact frame over in two chunks, cut anywhere, the firmware
    answers twice. The call takes the first answer, an error, and the second is left over, as if a reply had been late.
    What is executed is whatever intact frame the second chunk begins with, never the request itself.
   */
  lemma {:induction false} SplitRequest(
      d: Device, r: Request, cut: nat, c: Arrival, e: Arrival, later: seq<Fate>) returns (a: Ack, b: Ack)
    requires DeviceOk(d) && |r.payload| < 256 && 0 < cut < |RequestFrame(r)|
    requires c.chunk == RequestFrame(r)[..cut] && e.chunk == RequestFrame(r)[cut..]
    ensures a.status == STATUS_ERROR && !Harmless(AckFrame(b))
    ensures var s := Session(d, [], [Made([c, e], Whole)] + later);
      && s.result == Acked(a) && s.tried == 1 && s.rx == AckFrame(b)
      && (b.status == STATUS_ERROR <==> !Parse(e.chunk).Valid?)
      && s.dispatched == CommandIn(d, e.chunk)
      && r !in s.dispatched
    ensures r.payload == [] ==> b.status == STATUS_ERROR
  {
    hide *;
    FramePrefixRejected(r, cut);
    a, b := TwoReplies(d, c, e);
    SessionOnTwo(d, [c, e], later, a, b);
    LeftOverHarms(b);
    TailIsAnother(r, cut);
    CommandInTail(d, e.chunk);
    TailTooShort(r, cut);
  }

  lemma {:induction false} LeftOverHarms(b: Ack)
    ensures !Harmless(AckFrame(b))
  {
    hide AckFrame;
    AckShape(b);
  }

  /** A rejected chunk and another one: what the firmware replies and dispatches. */
  lemma {:induction false} TwoReplies(d: Device, c: Arrival, e: Arrival) returns (a: Ack, b: Ack)
    requires DeviceOk(d) && !Parse(c.chunk).Valid?
    ensures Handle(d, [c, e]).replies == AckFrame(a) + AckFrame(b)
    ensures Handle(d, [c, e]).dispatched == CommandIn(d, e.chunk)
    ensures a.status == STATUS_ERROR && (b.status == STATUS_ERROR <==> !Parse(e.chunk).Valid?)
  {
    hide React, Parse, AckFrame, DecodeAck, DeviceOk, Handle, CommandIn;
    var x := React(d, c.chunk, c.queueDepth);
    var y := React(x.dev, e.chunk, e.queueDepth);
    ReplyTruthful(d, c.chunk, c.queueDepth);
    ReplyTruthful(x.dev, e.chunk, e.queueDepth);
    a, b := DecodeAck(x.reply).value, DecodeAck(y.reply).value;
    DecodeAckIff(x.reply, a);
    DecodeAckIff(y.reply, b);
    HandleTwo(d, c, e);
    ReactCommand(d, e);
  }

  /** An attempt that is answered twice: the call takes the first answer. */
  lemma {:induction false} SessionOnTwo(d: Device, chunks: seq<Arrival>, later: seq<Fate>, a: Ack, b: Ack)
    requires Handle(d, chunks).replies == AckFrame(a) + AckFrame(b)
    ensures var s := Session(d, [], [Made(chunks, Whole)] + later);
      && s.result == Acked(a) && s.tried == 1 && s.rx == AckFrame(b)
      && s.dispatched == Handle(d, chunks).dispatched
  {
    hide AckFrame, Handle, ReadAck, Session;
    AckShape(a);
    AckShape(b);
    var stream := AckFrame(a) + AckFrame(b);
    assert [] + AckFrame(a) + AckFrame(b) == stream && [] + stream == stream;
    ReadAckAfterJunk([], a, AckFrame(b));
    assert stream[5..] == AckFrame(b);
    SessionStep(d, [], [Made(chunks, Whole)] + later);
  }

  lemma {:induction false} CommandInTail(d: Device, chunk: Bytes)
    ensures forall q :: q in CommandIn(d, chunk) ==> Parse(chunk) == Valid(q)
  {
    hide Parse;
  }

  /** A proper suffix of a frame may begin with a frame, but not with the same one. */
  lemma {:induction false} TailIsAnother(r: Request, cut: nat)
    requires |r.payload| < 256 && 0 < cut < |RequestFrame(r)|
    ensures Parse(RequestFrame(r)[cut..]) != Valid(r)
  {
    hide Parse, RequestFrame;
    ParseIff(RequestFrame(r)[cut..], r);
  }

  lemma {:induction false} TailTooShort(r: Request, cut: nat)
    requires |r.payload| < 256 && 0 < cut < |RequestFrame(r)|
    ensures r.payload == [] ==> !Parse(RequestFrame(r)[cut..]).Valid?
  {
    hide NatOf;
    RequestProtected(r);
  }

  // ---- any number of pieces ---------------------------------------------------------------------

  ghost predicate StartsWithFrame(s: Bytes) {
    exists q: Request :: |q.payload| < 256 && RequestFrame(q) <= s
  }

  /** Some proper suffix of the request's frame begins with an intact frame. */
  ghost predicate FrameInside(r: Request)
    requires |r.payload| < 256
  {
    exists cut :: 0 < cut < |RequestFrame(r)| && StartsWithFrame(RequestFrame(r)[cut..])
  }

  function Joined(chunks: seq<Arrival>): Bytes {
    if chunks == [] then [] else chunks[0].chunk + Joined(chunks[1..])
  }

  /** However the frame is cut up, and whatever the firmware's state, it executes nothing but the request itself. */
  ghost predicate SplitsSafe(r: Request)
    requires |r.payload| < 256
  {
    forall d: Device, chunks: seq<Arrival> ::
      Joined(chunks) == RequestFrame(r) ==> OnlyThis(r, Handle(d, chunks).dispatched)
  }

  predicate OnlyThis(r: Request, commands: seq<Request>) {
    forall i :: 0 <= i < |commands| ==> commands[i] == r
  }

  /** A piece lies somewhere in the whole. */
  lemma {:induction false} PieceAt(chunks: seq<Arrival>, i: nat) returns (before: Bytes, after: Bytes)
    requires i < |chunks|
    ensures Joined(chunks) == before + chunks[i].chunk + after
  {
    if i == 0 {
      before, after := [], Joined(chunks[1..]);
    } else {
      before, after := PieceAt(chunks[1..], i - 1);
      Regroup(chunks[0].chunk, before, chunks[i].chunk, after);
      before := chunks[0].chunk + before;
    }
  }

  lemma {:induction false} Regroup(a: Bytes, b: Bytes, c: Bytes, e: Bytes)
    ensures a + (b + c + e) == (a + b) + c + e
  {
  }

  lemma {:induction false} InsideAt(r: Request, q: Request, cut: nat)
    requires |r.payload| < 256 && |q.payload| < 256
    requires 0 < cut < |RequestFrame(r)| && RequestFrame(q) <= RequestFrame(r)[cut..]
    ensures FrameInside(r)
  {
    hide RequestFrame;
    assert StartsWithFrame(RequestFrame(r)[cut..]);
  }

  /** A piece that is accepted is the request itself, unless a frame lies inside. */
  lemma {:induction false} PieceIsRequest(r: Request, before: Bytes, piece: Bytes, after: Bytes)
    requires |r.payload| < 256 && !FrameInside(r) && RequestFrame(r) == before + piece + after
    ensures Parse(piece).Valid? ==> Parse(piece).req == r
  {
    hide Parse, RequestFrame, FrameInside;
    if Parse(piece).Valid? {
      var q, f := Parse(piece).req, RequestFrame(r);
      ParseIff(piece, q);
      FrameLength(q);
      assert f[|before|..] == piece + after;
      if before == [] {
        FramesPrefixFree(q, r);
      } else {
        InsideAt(r, q, |before|);
      }
    }
  }

  lemma {:induction false} FrameLength(q: Request)
    requires |q.payload| < 256
    ensures |RequestFrame(q)| == 5 + |q.payload| && RequestFrame(q)[0] == HEADER_REQUEST
  {
    RequestProtected(q);
  }

  lemma {:induction false} NothingInside(d: Device, r: Request, chunks: seq<Arrival>)
    requires |r.payload| < 256 && !FrameInside(r) && Joined(chunks) == RequestFrame(r)
    ensures Carries(r, Made(chunks, Whole))
    ensures OnlyThis(r, Handle(d, chunks).dispatched)
  {
    hide Parse, RequestFrame, Handle, FrameInside, Joined;
    forall i | 0 <= i < |chunks|
      ensures Parse(chunks[i].chunk).Valid? ==> Parse(chunks[i].chunk).req == r
    {
      var before, after := PieceAt(chunks, i);
      PieceIsRequest(r, before, chunks[i].chunk, after);
    }
    HandleEffect(d, r, chunks);
  }

  /**
    Exactly which requests can be cut up safely: those whose frame has no intact frame at the beginning of one of its
    proper suffixes. Of any other one a cut there makes the firmware execute that other command.
   */
  lemma {:induction false} SplitsSafeIff(r: Request)
    requires |r.payload| < 256
    ensures SplitsSafe(r) <==> !FrameInside(r)
  {
    hide RequestFrame, Handle, Parse, OnlyThis;
    if FrameInside(r) {
      var cut :| 0 < cut < |RequestFrame(r)| && StartsWithFrame(RequestFrame(r)[cut..]);
      var d := Device(false, 0, []);
      var chunks := InsideExecuted(d, r, cut);
      assert !OnlyThis(r, Handle(d, chunks).dispatched);
    } else {
      forall d: Device, chunks: seq<Arrival> | Joined(chunks) == RequestFrame(r)
        ensures OnlyThis(r, Handle(d, chunks).dispatched)
      {
        NothingInside(d, r, chunks);
      }
    }
  }

  lemma {:induction false} JoinedTwo(c: Arrival, e: Arrival)
    ensures Joined([c, e]) == c.chunk + e.chunk
  {
    assert [c, e][1..] == [e] && [e][1..] == [];
    assert Joined([e]) == e.chunk + Joined([]);
    assert e.chunk + [] == e.chunk;
  }

  lemma {:induction false} InsideExecuted(d: Device, r: Request, cut: nat) returns (chunks: seq<Arrival>)
    requires !d.hasLastAck && |r.payload| < 256
    requires 0 < cut < |RequestFrame(r)| && StartsWithFrame(RequestFrame(r)[cut..])
    ensures Joined(chunks) == RequestFrame(r) && !OnlyThis(r, Handle(d, chunks).dispatched)
  {
    hide RequestFrame, Handle, Parse, React, Joined;
    var f := RequestFrame(r);
    var q: Request :| |q.payload| < 256 && RequestFrame(q) <= f[cut..];
    var c, e := Arrival(0, f[..cut], 0), Arrival(0, f[cut..], 0);
    chunks := [c, e];
    JoinedTwo(c, e);
    assert f[..cut] + f[cut..] == f;
    ParseIff(f[cut..], q);
    FramePrefixRejected(r, cut);
    HandleTwo(d, c, e);
    ReactCommand(d, e);
    TailIsAnother(r, cut);
    assert Handle(d, chunks).dispatched[0] == q;
  }

  /** A frame with no header byte in it that has room for a frame behind it can be cut up safely. */
  lemma {:induction false} NoHeaderNoFrame(r: Request)
    requires |r.payload| < 256
    requires forall i :: 0 < i && i + 5 <= |RequestFrame(r)| ==> RequestFrame(r)[i] != HEADER_REQUEST
    ensures !FrameInside(r)
  {
    hide RequestFrame, StartsWithFrame;
    if FrameInside(r) {
      var cut :| 0 < cut < |RequestFrame(r)| && StartsWithFrame(RequestFrame(r)[cut..]);
      HeaderInside(RequestFrame(r), cut);
    }
  }

  lemma {:induction false} HeaderInside(s: Bytes, cut: nat)
    requires cut < |s| && StartsWithFrame(s[cut..])
    ensures cut + 5 <= |s| && s[cut] == HEADER_REQUEST
  {
    hide RequestFrame;
    var q: Request :| |q.payload| < 256 && RequestFrame(q) <= s[cut..];
    FrameLength(q);
    assert s[cut..][0] == s[cut];
  }

  /** A request that carries the frame of another command as its payload has that one executed, cut after four bytes. */
  lemma {:induction false} EmbeddedFrameExecuted(
      d: Device, r: Request, q: Request, c: Arrival, e: Arrival, later: seq<Fate>)
    requires DeviceOk(d) && !Clashes(d, q)
    requires |q.payload| + 5 <= MAX_PAYLOAD && r.payload == RequestFrame(q)
    requires c.chunk == RequestFrame(r)[..4] && e.chunk == RequestFrame(r)[4..]
    ensures FrameInside(r) && q != r
    ensures var s := Session(d, [], [Made([c, e], Whole)] + later);
      s.dispatched == [q] && s.result.Acked? && s.result.ack.status == STATUS_ERROR
  {
    FrameLength(q);
    FrameLength(r);
    PayloadInFrame(r);
    hide RequestFrame, Session, Parse, DeviceOk, React;
    ParseIff(e.chunk, q);
    var a, b := SplitRequest(d, r, 4, c, e, later);
    assert StartsWithFrame(RequestFrame(r)[4..]);
  }

  lemma {:induction false} PayloadInFrame(r: Request)
    requires |r.payload| < 256
    ensures |RequestFrame(r)| >= 4 && r.payload <= RequestFrame(r)[4..]
  {
  }

  // ---- how many replies -----------------------------------------------------------------------

  lemma {:induction false} RepliesOf(d: Device, chunks: seq<Arrival>)
    requires DeviceOk(d)
    ensures |Handle(d, chunks).replies| == 5 * |chunks|
    decreases |chunks|
  {
    hide DeviceOk, React;
    if chunks != [] {
      ReplyTruthful(d, chunks[0].chunk, chunks[0].queueDepth);
      RepliesOf(React(d, chunks[0].chunk, chunks[0].queueDepth).dev, chunks[1..]);
    }
  }

  lemma {:induction false} FirstReply(d: Device, chunks: seq<Arrival>) returns (a: Ack, more: Bytes)
    requires DeviceOk(d) && chunks != []
    ensures Handle(d, chunks).replies == AckFrame(a) + more && |more| == 5 * (|chunks| - 1)
  {
    hide DeviceOk, React, AckFrame, DecodeAck;
    var x := React(d, chunks[0].chunk, chunks[0].queueDepth);
    ReplyTruthful(d, chunks[0].chunk, chunks[0].queueDepth);
    a, more := DecodeAck(x.reply).value, Handle(x.dev, chunks[1..]).replies;
    DecodeAckIff(x.reply, a);
    RepliesOf(x.dev, chunks[1..]);
  }

  /** An undamaged exchange on an empty line leaves it empty if and only if the firmware got at most one chunk. */
  lemma {:induction false} EmptiedIffOneChunk(d: Device, chunks: seq<Arrival>)
    requires DeviceOk(d)
    ensures Session(d, [], [Made(chunks, Whole)]).rx == [] <==> |chunks| <= 1
  {
    hide DeviceOk, Handle, ReadAck, Session, AckFrame;
    var fates := [Made(chunks, Whole)];
    var x, line := Handle(d, chunks), TurnOf(d, fates[0]).bytes;
    SessionStep(d, [], fates);
    assert [] + line == line == x.replies;
    SessionStops(x.dev, line[ReadAck(line).1..], fates[1..]);
    if chunks == [] {
      RepliesOf(d, chunks);
      ReadTooFew(line);
    } else {
      var a, more := FirstReply(d, chunks);
      AckShape(a);
      assert [] + AckFrame(a) + more == line;
      ReadAckAfterJunk([], a, more);
      assert line[5..] == more;
    }
  }
}
