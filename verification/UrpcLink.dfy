/**
  Daemon, serial line and firmware together: what a retried command does, over every way
  the line can lose, damage, split or delay frames, and over whole runs of commands.
 */
module UrpcLink {
  import opened Octets
  import opened Crc8
  import opened UrpcFrames
  import opened UrpcAgent
  import opened SerialPort
  import opened UrpcBridge

  /**
    What the daemon receives in answer to an attempt: all the replies, none, with flipped bits, or other bytes, such
    as late replies.
   */
  datatype ReplyFate = Whole | Dropped | Flipped(e: Bytes) | Other(line: Bytes)

  /**
    An attempt finds the context over, or its write fails, perhaps halfway, or it is made. The chunks are what the
    firmware's UART hands over meanwhile; each names the call in which it was written.
   */
  datatype Fate = Over | Failed(chunks: seq<Arrival>) | Made(chunks: seq<Arrival>, reply: ReplyFate)

  /** What the firmware makes of some chunks: its state, the bytes it sends, the commands it dispatches. */
  datatype FarSide = FarSide(dev: Device, replies: Bytes, dispatched: seq<Request>)

  /** A call: the device afterwards, the answer, what was dispatched, what is left in the line, attempts made. */
  datatype SessionRun = SessionRun(dev: Device, result: SendResult, dispatched: seq<Request>, rx: Bytes, tried: nat)

  function Handed(f: Fate): seq<Arrival> {
    if f.Over? then [] else f.chunks
  }

  function Handle(d: Device, chunks: seq<Arrival>): FarSide
    decreases |chunks|
  {
    if chunks == [] then FarSide(d, [], [])
    else
      var x := React(d, chunks[0].chunk, chunks[0].queueDepth);
      var y := Handle(x.dev, chunks[1..]);
      var now := if x.dispatched.Some? then [x.dispatched.value] else [];
      FarSide(y.dev, x.reply + y.replies, now + y.dispatched)
  }

  function OnLine(replies: Bytes, fate: ReplyFate): Bytes {
    match fate
    case Whole => replies
    case Dropped => []
    case Flipped(e) => if |e| == |replies| then Xor(replies, e) else replies
    case Other(line) => line
  }

  /** The attempt as the daemon's port goes through it. */
  function TurnOf(d: Device, f: Fate): Turn {
    match f
    case Over => Cancelled
    case Failed(_) => WriteFails
    case Made(chunks, reply) => Reply(OnLine(Handle(d, chunks).replies, reply))
  }

  /** A whole call: one fate per attempt, and `rx` what the line still holds from before. */
  function Session(d: Device, rx: Bytes, fates: seq<Fate>): SessionRun
    decreases |fates|
  {
    if fates == [] then SessionRun(d, DeviceTimeout, [], rx, 0)
    else
      var x := Handle(d, Handed(fates[0]));
      match TurnOf(d, fates[0])
      case Cancelled => SessionRun(d, ContextError, [], rx, 0)
      case WriteFails => SessionRun(x.dev, WriteError, x.dispatched, rx, 1)
      case Reply(line) =>
        var (outcome, n) := ReadAck(rx + line);
        var rest := (rx + line)[n..];
        match outcome
        case GotAck(a) => SessionRun(x.dev, Acked(a), x.dispatched, rest, 1)
        case ShortTail => SessionRun(x.dev, Unspecified, x.dispatched, rest, 1)
        case _ =>
          var s := Session(x.dev, rest, fates[1..]);
          s.(dispatched := x.dispatched + s.dispatched, tried := s.tried + 1)
  }

  function LineTurns(d: Device, fates: seq<Fate>): seq<Turn>
    decreases |fates|
  {
    if fates == [] then []
    else [TurnOf(d, fates[0])] + LineTurns(Handle(d, Handed(fates[0])).dev, fates[1..])
  }

  lemma {:induction false} FirstTurn(d: Device, fates: seq<Fate>)
    requires fates != []
    ensures NextTurn(LineTurns(d, fates)) == TurnOf(d, fates[0])
    ensures LaterTurns(LineTurns(d, fates)) == LineTurns(Handle(d, Handed(fates[0])).dev, fates[1..])
  {
    hide TurnOf, Handle, Handed;
  }

  /** The session is the bridge's own retry loop, run against this far side. */
  lemma {:induction false} SessionIsSend(d: Device, rx: Bytes, fates: seq<Fate>)
    ensures var s, t := Session(d, rx, fates), Send(rx, LineTurns(d, fates), |fates|);
      && t.result == s.result
      && t.rx == s.rx
      && t.writes == if s.result.WriteError? then s.tried - 1 else s.tried
    decreases |fates|
  {
    hide ReadAck, Handle, Handed, TurnOf, LineTurns;
    if fates != [] {
      FirstTurn(d, fates);
      if TurnOf(d, fates[0]).Reply? {
        var stream := rx + TurnOf(d, fates[0]).bytes;
        SessionIsSend(Handle(d, Handed(fates[0])).dev, stream[ReadAck(stream).1..], fates[1..]);
      }
    }
  }

  lemma {:induction false} RunOne(d: Device, a: Arrival)
    ensures var x := React(d, a.chunk, a.queueDepth);
      Run(d, [a]) == x.dev && Commands(d, [a]) == if x.dispatched.Some? then [x.dispatched.value] else []
  {
    hide React;
    assert [a][..0] == [];
    assert Run(d, []) == d && Commands(d, []) == [];
  }

  /** What the firmware makes of an attempt's chunks is what it makes of them as part of a trace. */
  lemma {:induction false} HandleIsRun(d: Device, chunks: seq<Arrival>)
    ensures Handle(d, chunks).dev == Run(d, chunks)
    ensures Handle(d, chunks).dispatched == Commands(d, chunks)
    decreases |chunks|
  {
    hide React, Run, Commands;
    if chunks == [] {
      RunNone(d);
    } else {
      assert [chunks[0]] + chunks[1..] == chunks;
      RunOne(d, chunks[0]);
      RunConcat(d, [chunks[0]], chunks[1..]);
      HandleIsRun(React(d, chunks[0].chunk, chunks[0].queueDepth).dev, chunks[1..]);
    }
  }

  lemma {:induction false} RunNone(d: Device)
    ensures Run(d, []) == d && Commands(d, []) == []
  {
  }

  // ---- what gets dispatched ---------------------------------------------------------------------

  /** The line carries nothing but r in this attempt: each chunk is its frame (then anything), or is rejected. */
  ghost predicate Carries(r: Request, f: Fate) {
    forall i :: 0 <= i < |Handed(f)| ==> Parse(Handed(f)[i].chunk).Valid? ==> Parse(Handed(f)[i].chunk).req == r
  }

  ghost predicate CarriesAll(r: Request, fates: seq<Fate>) {
    forall i :: 0 <= i < |fates| ==> Carries(r, fates[i])
  }

  ghost predicate AnyValid(chunks: seq<Arrival>) {
    exists i :: 0 <= i < |chunks| && Parse(chunks[i].chunk).Valid?
  }

  /** A whole request reaches the firmware in this attempt. */
  ghost predicate Delivers(f: Fate) {
    AnyValid(Handed(f))
  }

  ghost predicate AnyDelivers(fates: seq<Fate>) {
    fates != [] && (Delivers(fates[0]) || AnyDelivers(fates[1..]))
  }

  /** The firmware would take r for a repetition of the command it dispatched last. */
  predicate Clashes(d: Device, r: Request) {
    d.hasLastAck && d.lastSeq == r.seqNo
  }

  lemma {:induction false} ReactEffect(d: Device, r: Request, chunk: Bytes, queueDepth: bv8)
    requires Parse(chunk).Valid? ==> Parse(chunk).req == r
    ensures var x, valid := React(d, chunk, queueDepth), Parse(chunk).Valid?;
      && (valid ==> Clashes(x.dev, r))
      && (!valid || Clashes(d, r) ==> x.dev == d)
      && x.dispatched == if valid && !Clashes(d, r) then Some(r) else None
  {
    hide Parse, AckFrame, DispatchStatus, DispatchPins;
  }

  lemma {:induction false} HandleEffect(d: Device, r: Request, chunks: seq<Arrival>)
    requires forall i :: 0 <= i < |chunks| ==> Parse(chunks[i].chunk).Valid? ==> Parse(chunks[i].chunk).req == r
    ensures var x := Handle(d, chunks);
      && (AnyValid(chunks) ==> Clashes(x.dev, r))
      && (!AnyValid(chunks) || Clashes(d, r) ==> x.dev == d)
      && x.dispatched == if AnyValid(chunks) && !Clashes(d, r) then [r] else []
    decreases |chunks|
  {
    hide Parse, React, Clashes, AnyValid;
    if chunks == [] {
      NoneValid();
    } else {
      ReactEffect(d, r, chunks[0].chunk, chunks[0].queueDepth);
      HandleEffect(React(d, chunks[0].chunk, chunks[0].queueDepth).dev, r, chunks[1..]);
      AnyValidFirst(chunks);
    }
  }

  lemma {:induction false} NoneValid()
    ensures !AnyValid([])
  {
  }

  lemma {:induction false} AnyValidFirst(chunks: seq<Arrival>)
    requires chunks != []
    ensures AnyValid(chunks) <==> Parse(chunks[0].chunk).Valid? || AnyValid(chunks[1..])
  {
    hide Parse;
    if i :| 0 <= i < |chunks| && Parse(chunks[i].chunk).Valid? {
      if i > 0 {
        assert chunks[1..][i - 1] == chunks[i];
      }
    }
    if i :| 0 <= i < |chunks[1..]| && Parse(chunks[1..][i].chunk).Valid? {
      assert chunks[1..][i] == chunks[i + 1];
    }
  }

  lemma {:induction false} AnyDeliversFirst(fates: seq<Fate>, k: nat)
    requires k < |fates|
    ensures AnyDelivers(fates[..k + 1]) <==> Delivers(fates[0]) || AnyDelivers(fates[1..][..k])
  {
    hide Delivers;
    assert fates[..k + 1][1..] == fates[1..][..k];
  }

  /** One attempt that is made, as the session goes through it. */
  lemma {:induction false} SessionStep(d: Device, rx: Bytes, fates: seq<Fate>)
    requires fates != [] && fates[0].Made?
    ensures TurnOf(d, fates[0]).Reply?
    ensures var x, stream := Handle(d, Handed(fates[0])), rx + TurnOf(d, fates[0]).bytes;
      var (outcome, n) := ReadAck(stream);
      var s, later := Session(d, rx, fates), Session(x.dev, stream[n..], fates[1..]);
      && (outcome.GotAck? ==> s == SessionRun(x.dev, Acked(outcome.ack), x.dispatched, stream[n..], 1))
      && (outcome.ShortTail? ==> s == SessionRun(x.dev, Unspecified, x.dispatched, stream[n..], 1))
      && (!outcome.GotAck? && !outcome.ShortTail? ==>
            s == later.(dispatched := x.dispatched + later.dispatched, tried := later.tried + 1))
  {
    hide ReadAck, Handle;
  }

  /** The session when its first attempt is not made. */
  lemma {:induction false} SessionStops(d: Device, rx: Bytes, fates: seq<Fate>)
    ensures fates == [] ==> Session(d, rx, fates) == SessionRun(d, DeviceTimeout, [], rx, 0)
    ensures fates != [] && fates[0].Over? ==> Session(d, rx, fates) == SessionRun(d, ContextError, [], rx, 0)
    ensures fates != [] && fates[0].Failed? ==> var x := Handle(d, fates[0].chunks);
      Session(d, rx, fates) == SessionRun(x.dev, WriteError, x.dispatched, rx, 1)
  {
    hide ReadAck, Handle;
  }

  /**
    One call over a line that carries nothing else, whatever is left in the receive line and whatever the daemon reads:
    the command is dispatched once if a request gets through in an attempt that is made and is no repetition, and else
    not at all.
   */
  lemma {:induction false} SessionDispatch(d: Device, rx: Bytes, r: Request, fates: seq<Fate>)
    requires CarriesAll(r, fates)
    ensures var s := Session(d, rx, fates);
      && s.tried <= |fates|
      && var reached := AnyDelivers(fates[..s.tried]);
      && s.dispatched == (if reached && !Clashes(d, r) then [r] else [])
      && (if reached then Clashes(s.dev, r) else s.dev == d)
    decreases |fates|
  {
    hide Session, ReadAck, Handle, Handed, TurnOf, Delivers, Clashes, Carries;
    SessionStops(d, rx, fates);
    if fates != [] && !fates[0].Over? {
      FateEffect(d, r, fates[0]);
      AnyDeliversFirst(fates, 0);
      assert !AnyDelivers([]);
      if fates[0].Made? {
        SessionStep(d, rx, fates);
        var x, stream := Handle(d, Handed(fates[0])), rx + TurnOf(d, fates[0]).bytes;
        var rest := stream[ReadAck(stream).1..];
        SessionDispatch(x.dev, rest, r, fates[1..]);
        AnyDeliversFirst(fates, Session(x.dev, rest, fates[1..]).tried);
      }
    }
  }

  lemma {:induction false} FateEffect(d: Device, r: Request, f: Fate)
    requires Carries(r, f)
    ensures var x := Handle(d, Handed(f));
      && (Delivers(f) ==> Clashes(x.dev, r))
      && (!Delivers(f) || Clashes(d, r) ==> x.dev == d)
      && x.dispatched == (if Delivers(f) && !Clashes(d, r) then [r] else [])
      && (f.Failed? ==> Handed(f) == f.chunks)
  {
    hide Parse, Handle, AnyValid, Clashes;
    HandleEffect(d, r, Handed(f));
  }

  // ---- the receive line: when answers are truthful ----------------------------------------------

  /** A prompt line: at most one chunk per attempt, its reply whole, lost, or with up to three bits flipped. */
  ghost predicate Lockstep(f: Fate) {
    f.Made? ==>
      && |f.chunks| <= 1
      && !f.reply.Other?
      && (f.reply.Flipped? ==> |f.reply.e| == 5 && f.reply.e[0] == 0 && 1 <= Weight(f.reply.e) <= 3)
  }

  ghost predicate LockstepAll(fates: seq<Fate>) {
    forall i :: 0 <= i < |fates| ==> Lockstep(fates[i])
  }

  /** What may be left in the receive line without any harm. */
  predicate Harmless(rx: Bytes) {
    |rx| < 5 && NoHeader(rx)
  }

  /** On a prompt line: the daemon can read this attempt's acknowledgement. */
  predicate Answered(f: Fate) {
    f.Made? && |f.chunks| == 1 && f.reply.Whole?
  }

  /** The session's last word is an acknowledgement other than ERROR. */
  predicate Confirmed(result: SendResult) {
    result.Acked? && result.ack.status != STATUS_ERROR
  }

  lemma {:induction false} NoCacheOk(d: Device)
    requires !d.hasLastAck
    ensures DeviceOk(d)
  {
  }

  lemma {:induction false} HandleDeviceOk(d: Device, chunks: seq<Arrival>)
    requires DeviceOk(d)
    ensures DeviceOk(Handle(d, chunks).dev)
    decreases |chunks|
  {
    hide DeviceOk, React;
    if chunks != [] {
      ReplyTruthful(d, chunks[0].chunk, chunks[0].queueDepth);
      HandleDeviceOk(React(d, chunks[0].chunk, chunks[0].queueDepth).dev, chunks[1..]);
    }
  }

  lemma {:induction false} SessionDeviceOk(d: Device, rx: Bytes, fates: seq<Fate>)
    requires DeviceOk(d)
    ensures DeviceOk(Session(d, rx, fates).dev)
    decreases |fates|
  {
    hide DeviceOk, Session, Handle, ReadAck, TurnOf;
    SessionStops(d, rx, fates);
    if fates != [] {
      HandleDeviceOk(d, Handed(fates[0]));
      if fates[0].Made? {
        SessionStep(d, rx, fates);
        var x, stream := Handle(d, Handed(fates[0])), rx + TurnOf(d, fates[0]).bytes;
        SessionDeviceOk(x.dev, stream[ReadAck(stream).1..], fates[1..]);
      }
    }
  }

  /** One chunk, one reply. */
  lemma {:induction false} HandleOne(d: Device, c: Arrival)
    ensures var x := React(d, c.chunk, c.queueDepth);
      && Handle(d, [c]).dev == x.dev
      && Handle(d, [c]).replies == x.reply
      && Handle(d, [c]).dispatched == if x.dispatched.Some? then [x.dispatched.value] else []
    ensures AnyValid([c]) <==> Parse(c.chunk).Valid?
  {
    hide React, Parse;
    assert [c][1..] == [];
    AnyValidFirst([c]);
    assert Handle(React(d, c.chunk, c.queueDepth).dev, []).replies == [];
  }

  /** The acknowledgement that an attempt with one chunk is answered with. */
  lemma {:induction false} OneReply(d: Device, f: Fate) returns (a: Ack)
    requires DeviceOk(d) && f.Made? && |f.chunks| == 1
    ensures Handle(d, f.chunks).replies == AckFrame(a)
    ensures a.status != STATUS_ERROR <==> Delivers(f)
    ensures forall r :: Delivers(f) && Carries(r, f) ==> a.seqNo == r.seqNo
  {
    hide React, Parse, AckFrame, DecodeAck, DeviceOk, AnyValid;
    var c := f.chunks[0];
    assert f.chunks == [c];
    HandleOne(d, c);
    ReplyTruthful(d, c.chunk, c.queueDepth);
    a := DecodeAck(React(d, c.chunk, c.queueDepth).reply).value;
    DecodeAckIff(React(d, c.chunk, c.queueDepth).reply, a);
  }

  /** What the line makes of one acknowledgement. */
  lemma {:induction false} LineOfAck(a: Ack, fate: ReplyFate)
    requires fate.Flipped? ==> |fate.e| == 5 && fate.e[0] == 0 && 1 <= Weight(fate.e) <= 3
    requires fate.Whole? || fate.Flipped?
    ensures var line := OnLine(AckFrame(a), fate);
      && |line| == 5 && line[0] == HEADER_ACK
      && Decoded(line) == if fate.Whole? then GotAck(a) else AckInvalid
  {
    hide AckFrame, DecodeAck, Weight;
    AckShape(a);
    if fate.Flipped? {
      DamagedAckRejected(a, fate.e);
      HeaderXor(AckFrame(a)[0], fate.e[0]);
    }
  }

  /** On a prompt line a harmless rest is gone after one attempt, and the attempt leaves nothing of its own. */
  lemma {:induction false} ReadEffect(d: Device, rx: Bytes, f: Fate)
    requires DeviceOk(d) && f.Made? && Lockstep(f) && Harmless(rx)
    ensures var stream := rx + TurnOf(d, f).bytes;
      var (outcome, n) := ReadAck(stream);
      && stream[n..] == []
      && (HeaderBehind(stream) <==> rx != [] && TurnOf(d, f).bytes != [])
      && (if Answered(f) then
            && outcome.GotAck?
            && (outcome.ack.status != STATUS_ERROR <==> Delivers(f))
            && (forall r :: Delivers(f) && Carries(r, f) ==> outcome.ack.seqNo == r.seqNo)
          else
            outcome == ReadFailed || outcome == AckInvalid)
  {
    hide Handle, AckFrame, ReadAck, DecodeAck, Weight, DeviceOk, HeaderBehind, Delivers, Carries;
    if |f.chunks| == 0 || f.reply.Dropped? {
      assert Handle(d, []).replies == [] by { NoReply(d); }
      assert rx + [] == rx;
      ReadTooFew(rx);
    } else {
      var a := OneReply(d, f);
      LineOfAck(a, f.reply);
      var line := TurnOf(d, f).bytes;
      assert rx + line + [] == rx + line;
      ReadBehindJunk(rx, line, []);
    }
  }

  lemma {:induction false} NoReply(d: Device)
    ensures Handle(d, []).replies == []
  {
  }

  lemma {:induction false} ReadTooFew(rx: Bytes)
    requires |rx| < 5
    ensures ReadAck(rx) == (ReadFailed, |rx|) && !HeaderBehind(rx)
  {
  }

  /** The first attempt that ends the call, or the number of attempts. */
  function FirstEnding(fates: seq<Fate>): (k: nat)
    ensures k <= |fates|
  {
    if fates == [] || !fates[0].Made? || Answered(fates[0]) then 0 else 1 + FirstEnding(fates[1..])
  }

  /**
    What the daemon is told on a prompt line, exactly: the answer of the first answered attempt, which is a
    confirmation naming this very command if and only if that attempt delivered it; what ended the call before;
    or a timeout. After an attempt that was made the line is empty.
   */
  lemma {:induction false} SessionResult(d: Device, rx: Bytes, r: Request, fates: seq<Fate>)
    requires DeviceOk(d) && CarriesAll(r, fates) && LockstepAll(fates) && Harmless(rx)
    ensures var s, k := Session(d, rx, fates), FirstEnding(fates);
      && s.tried == (if k == |fates| || fates[k].Over? then k else k + 1)
      && s.rx == (if fates != [] && fates[0].Made? then [] else rx)
      && (s.result == DeviceTimeout <==> k == |fates|)
      && (s.result == ContextError <==> k < |fates| && fates[k].Over?)
      && (s.result == WriteError <==> k < |fates| && fates[k].Failed?)
      && (s.result.Acked? <==> k < |fates| && Answered(fates[k]))
      && (Confirmed(s.result) <==> k < |fates| && Answered(fates[k]) && Delivers(fates[k]))
      && (Confirmed(s.result) ==> s.result.ack.seqNo == r.seqNo)
    decreases |fates|
  {
    hide Session, Handle, Handed, TurnOf, ReadAck, DeviceOk, Lockstep, Carries, Delivers, HeaderBehind, NoHeader;
    SessionStops(d, rx, fates);
    if fates != [] && fates[0].Made? {
      SessionStep(d, rx, fates);
      ReadEffect(d, rx, fates[0]);
      if !Answered(fates[0]) {
        HandleDeviceOk(d, Handed(fates[0]));
        NoHeaderEmpty();
        SessionResult(Handle(d, Handed(fates[0])).dev, [], r, fates[1..]);
      }
    }
  }

  lemma {:induction false} NoHeaderEmpty()
    ensures NoHeader([])
  {
  }

  /** A confirming attempt is one of those made. */
  lemma {:induction false} EndingReached(fates: seq<Fate>, k: nat)
    requires k < |fates| && Delivers(fates[k])
    ensures AnyDelivers(fates[..k + 1])
    decreases |fates|
  {
    hide Delivers;
    AnyDeliversFirst(fates, k);
    if k > 0 {
      EndingReached(fates[1..], k - 1);
    }
  }

  /** The second, single read is needed exactly when the first attempt has to skip a rest before a reply. */
  lemma {:induction false} NeedsTailIff(d: Device, rx: Bytes, fates: seq<Fate>)
    requires DeviceOk(d) && LockstepAll(fates) && Harmless(rx)
    ensures NeedsTail(rx, LineTurns(d, fates), |fates|) <==>
      rx != [] && fates != [] && fates[0].Made? && TurnOf(d, fates[0]).bytes != []
    decreases |fates|
  {
    hide Handle, Handed, TurnOf, LineTurns, ReadAck, DeviceOk, Lockstep, HeaderBehind, NoHeader;
    if fates != [] {
      FirstTurn(d, fates);
      TurnKind(d, fates[0]);
      if fates[0].Made? {
        ReadEffect(d, rx, fates[0]);
        HandleDeviceOk(d, Handed(fates[0]));
        NoHeaderEmpty();
        NeedsTailIff(Handle(d, Handed(fates[0])).dev, [], fates[1..]);
      }
    }
  }

  lemma {:induction false} TurnKind(d: Device, f: Fate)
    ensures TurnOf(d, f).Reply? <==> f.Made?
  {
  }

  // ---- the exact condition ---------------------------------------------------------------------

  /** The call leaves an empty line behind, and a confirmation names its own command, which did get through. */
  ghost predicate Truthful(s: SessionRun, r: Request, fates: seq<Fate>) {
    && s.rx == []
    && s.tried <= |fates|
    && (Confirmed(s.result) ==> s.result.ack.seqNo == r.seqNo && AnyDelivers(fates[..s.tried]))
  }

  /** Every call on a prompt line that starts out with rx in it and makes an attempt is truthful. */
  ghost predicate TruthfulLine(rx: Bytes) {
    forall d: Device, r: Request, fates: seq<Fate> |
      DeviceOk(d) && CarriesAll(r, fates) && LockstepAll(fates) && fates != [] && fates[0].Made? ::
      Truthful(Session(d, rx, fates), r, fates)
  }

  /** Any longer rest, or one with a header byte in it, leaves something in the line when a reply comes behind it. */
  lemma {:induction false} ReadLeavesSome(rx: Bytes, line: Bytes)
    requires |line| == 5 && !Harmless(rx)
    ensures ReadAck(rx + line).1 < |rx + line|
  {
    hide DecodeAck;
    var stream := rx + line;
    if |rx| < 5 {
      var j :| 0 <= j < |rx| && rx[j] == HEADER_ACK;
      assert stream[..5][j] == rx[j];
    }
  }

  /** An undisturbed attempt: the whole frame in one chunk, its reply whole. */
  function Undamaged(r: Request): Fate
    requires |r.payload| < 256
  {
    Made([Arrival(0, RequestFrame(r), 0)], Whole)
  }

  lemma {:induction false} FrameDelivers(r: Request, a: Arrival, reply: ReplyFate)
    requires |r.payload| < 256 && RequestFrame(r) <= a.chunk
    ensures Carries(r, Made([a], reply)) && Delivers(Made([a], reply))
  {
    hide Parse, RequestFrame;
    ParseIff(a.chunk, r);
    var f := Made([a], reply);
    assert Parse(Handed(f)[0].chunk) == Valid(r);
  }

  /** A line is truthful if and only if it holds fewer than five bytes, none of them a header byte. */
  lemma {:induction false} TruthfulLineIff(rx: Bytes)
    ensures TruthfulLine(rx) <==> Harmless(rx)
  {
    hide Session, Harmless, Truthful, DeviceOk, LockstepAll, CarriesAll;
    if Harmless(rx) {
      forall d: Device, r: Request, fates: seq<Fate> |
        DeviceOk(d) && CarriesAll(r, fates) && LockstepAll(fates) && fates != [] && fates[0].Made?
        ensures Truthful(Session(d, rx, fates), r, fates)
      {
        HarmlessIsTruthful(d, rx, r, fates);
      }
    } else {
      var d, r := Device(false, 0, []), Request(0, CMD_READ_TEMP, []);
      var fates := [Undamaged(r)];
      NoCacheOk(d);
      HarmfulIsNot(d, rx, r);
      assert fates[0].Made?;
    }
  }

  lemma {:induction false} HarmlessIsTruthful(d: Device, rx: Bytes, r: Request, fates: seq<Fate>)
    requires DeviceOk(d) && CarriesAll(r, fates) && LockstepAll(fates) && fates != [] && fates[0].Made?
    requires Harmless(rx)
    ensures Truthful(Session(d, rx, fates), r, fates)
  {
    hide Session, Harmless, DeviceOk, LockstepAll, CarriesAll, Delivers, AnyDelivers;
    SessionResult(d, rx, r, fates);
    var k := FirstEnding(fates);
    if Confirmed(Session(d, rx, fates).result) {
      EndingReached(fates, k);
    }
  }

  /** One undisturbed exchange is enough to show what a harmful rest does. */
  lemma {:induction false} HarmfulIsNot(d: Device, rx: Bytes, r: Request)
    requires DeviceOk(d) && |r.payload| < 256 && !Harmless(rx)
    ensures CarriesAll(r, [Undamaged(r)]) && LockstepAll([Undamaged(r)])
    ensures !Truthful(Session(d, rx, [Undamaged(r)]), r, [Undamaged(r)])
  {
    hide Parse, RequestFrame, Harmless, ReadAck, Handle, AckFrame, Carries;
    var f := Undamaged(r);
    FrameDelivers(r, f.chunks[0], Whole);
    var a := OneReply(d, f);
    AckShape(a);
    var line := TurnOf(d, f).bytes;
    assert line == AckFrame(a);
    ReadLeavesSome(rx, line);
    SessionStep(d, rx, [f]);
    var rest := (rx + line)[ReadAck(rx + line).1..];
    SessionStops(Handle(d, Handed(f)).dev, rest, [f][1..]);
  }

  // ---- late and doubled replies ------------------------------------------------------------------

  /**
    A whole acknowledgement left over in the line answers the call at its first attempt, whatever becomes of the
    request, and what the firmware replies to that attempt is left over in turn.
   */
  lemma {:induction false} LateReplyWins(d: Device, stale: Ack, fates: seq<Fate>)
    requires fates != [] && fates[0].Made?
    ensures var x := Handle(d, fates[0].chunks);
      Session(d, AckFrame(stale), fates)
        == SessionRun(x.dev, Acked(stale), x.dispatched, TurnOf(d, fates[0]).bytes, 1)
  {
    hide AckFrame, Handle, ReadAck;
    var line := TurnOf(d, fates[0]).bytes;
    assert [] + AckFrame(stale) + line == AckFrame(stale) + line;
    ReadAckAfterJunk([], stale, line);
    AckShape(stale);
    assert (AckFrame(stale) + line)[5..] == line;
    SessionStep(d, AckFrame(stale), fates);
  }
}
