/** What the firmware answers, byte by byte, and what its relays are set to, over every trace. */
module UrpcAnswers {
  import opened Octets
  import opened Crc8
  import opened UrpcFrames
  import opened UrpcAgent

  // ---- one chunk, in raw bytes -----------------------------------------------------------------

  /** The device takes a chunk's sequence byte for that of the command it executed last. */
  predicate Repeats(d: Device, chunk: Bytes)
    requires |chunk| >= 2
  {
    d.hasLastAck && d.lastSeq == chunk[1]
  }

  /** The byte sequence is an acknowledgement frame with these contents. */
  predicate IsAck(frame: Bytes, seqNo: bv8, status: bv8, queueDepth: bv8) {
    |frame| == 5 && frame[..4] == [0xBB, seqNo, status, queueDepth] && frame[4] == Crc([seqNo, status, queueDepth])
  }

  lemma {:induction false} AckFrameBytes(a: Ack)
    ensures IsAck(AckFrame(a), a.seqNo, a.status, a.queueDepth)
  {
    hide Crc;
  }

  /** A chunk the firmware rejects is answered with ERROR and the byte in the sequence position, if it has a header. */
  lemma {:induction false} RejectedAnswer(d: Device, chunk: Bytes, queueDepth: bv8)
    requires !Parse(chunk).Valid?
    ensures var r := React(d, chunk, queueDepth);
      && IsAck(r.reply, if |chunk| < 4 || chunk[0] != 0xAA then 0 else chunk[1], 0xFF, 0)
      && r.dev == d && r.gpio == []
  {
    hide Crc, NatOf, AckFrame, IsAck;
    match Parse(chunk)
    case BadHeader => AckFrameBytes(Ack(0, STATUS_ERROR, 0));
    case TooShort(s) => AckFrameBytes(Ack(s, STATUS_ERROR, 0));
    case BadCrc(s) => AckFrameBytes(Ack(s, STATUS_ERROR, 0));
  }

  /** An accepted chunk whose third byte is a relay command with a pin out of range or a level other than 0 and 1. */
  predicate RefusedBytes(chunk: Bytes)
    requires |chunk| >= 5 && |chunk| >= 5 + NatOf(chunk[3])
  {
    NatOf(chunk[3]) >= 2 && (chunk[4] < 1 || chunk[4] > 3 || chunk[5] > 1)
  }

  /**
    A command that is executed is answered 0x00 if it is a temperature reading or a relay command that is not refused,
    and 0x02 otherwise; a relay command with two payload bytes that is not refused sets that pin to that level.
   */
  lemma {:induction false} ExecutedAnswer(d: Device, chunk: Bytes, queueDepth: bv8)
    requires Parse(chunk).Valid? && |chunk| >= 5 && !Repeats(d, chunk)
    ensures |chunk| >= 5 + NatOf(chunk[3])
    ensures var r, ok := React(d, chunk, queueDepth), chunk[2] == 0xB1 || (chunk[2] == 0xA1 && !RefusedBytes(chunk));
      && IsAck(r.reply, chunk[1], if ok then 0x00 else 0x02, queueDepth)
      && r.dev == Device(true, chunk[1], r.reply)
      && r.gpio == if chunk[2] == 0xA1 && NatOf(chunk[3]) >= 2 && ok then [(chunk[4], chunk[5])] else []
  {
    hide Crc, NatOf, AckFrame, IsAck;
    var r := Parse(chunk).req;
    AckFrameBytes(Ack(r.seqNo, DispatchStatus(r), queueDepth));
  }

  lemma {:induction false} RepeatedAnswer(d: Device, chunk: Bytes, queueDepth: bv8)
    requires Parse(chunk).Valid? && |chunk| >= 5 && Repeats(d, chunk)
    ensures React(d, chunk, queueDepth) == Reaction(d, d.lastAck, None, [])
  {
    hide Crc, NatOf;
  }

  lemma {:induction false} ValidLength(chunk: Bytes)
    requires Parse(chunk).Valid?
    ensures |chunk| >= 5 && Parse(chunk).req.seqNo == chunk[1]
  {
    hide Crc;
  }

  // ---- the cached answer, over every trace -------------------------------------------------------

  /** What arrival i is answered with. */
  function ReplyAt(d: Device, trace: seq<Arrival>, i: nat): Bytes
    requires i < |trace|
  {
    React(Run(d, trace[..i]), trace[i].chunk, trace[i].queueDepth).reply
  }

  /** The command that arrival i gets executed, if any. */
  function ExecutedAt(d: Device, trace: seq<Arrival>, i: nat): Option<Request>
    requires i < |trace|
  {
    React(Run(d, trace[..i]), trace[i].chunk, trace[i].queueDepth).dispatched
  }

  /** The position of the last intact arrival. */
  function LastIntactAt(trace: seq<Arrival>): (r: Option<nat>)
    ensures r.Some? ==> r.value < |trace| && Intact(trace[r.value])
    ensures forall j :: (if r.Some? then r.value + 1 else 0) <= j < |trace| ==> !Intact(trace[j])
  {
    if trace == [] then None
    else if Intact(trace[|trace| - 1]) then Some(|trace| - 1)
    else LastIntactAt(trace[..|trace| - 1])
  }

  function SeqByte(a: Arrival): Option<bv8> {
    if Intact(a) then Some(Parse(a.chunk).req.seqNo) else None
  }

  /** The intact arrival of which arrival i is a repetition, perhaps several times over, or i itself. */
  function Origin(d: Device, trace: seq<Arrival>, i: nat): (o: nat)
    requires i < |trace| && Intact(trace[i])
    ensures o <= i && Intact(trace[o])
  {
    var last := LastIntactAt(trace[..i]);
    if LastSeen(d, trace[..i]) == SeqByte(trace[i]) && last.Some? then Origin(d, trace, last.value) else i
  }

  /** Arrivals that are not intact change nothing. */
  lemma {:induction false} RunQuiet(d: Device, trace: seq<Arrival>, j: nat, i: nat)
    requires j <= i <= |trace| && forall k :: j <= k < i ==> !Intact(trace[k])
    ensures Run(d, trace[..i]) == Run(d, trace[..j])
    ensures forall k :: j <= k < i ==> ExecutedAt(d, trace, k) == None
    decreases i
  {
    hide React, Parse;
    if j < i {
      RunQuiet(d, trace, j, i - 1);
      assert trace[..i][..i - 1] == trace[..i - 1];
      QuietStep(Run(d, trace[..i - 1]), trace[i - 1]);
    }
  }

  lemma {:induction false} QuietStep(d: Device, a: Arrival)
    requires !Intact(a)
    ensures var x := React(d, a.chunk, a.queueDepth); x.dev == d && x.dispatched == None
  {
    hide Crc, NatOf, AckFrame;
  }

  /** The seen byte is that of the last intact arrival. */
  lemma {:induction false} LastSeenIs(d: Device, trace: seq<Arrival>)
    requires !d.hasLastAck
    ensures var last := LastIntactAt(trace);
      LastSeen(d, trace) == if last.Some? then SeqByte(trace[last.value]) else None
  {
    hide Parse;
    if trace != [] && !Intact(trace[|trace| - 1]) {
      LastSeenIs(d, trace[..|trace| - 1]);
    }
  }

  /** What the agent does with an intact arrival, from the byte seen last. */
  lemma {:induction false} IntactStep(d: Device, trace: seq<Arrival>, i: nat)
    requires i < |trace| && Intact(trace[i])
    ensures var before := Run(d, trace[..i]);
      if LastSeen(d, trace[..i]) == SeqByte(trace[i]) then
        && ReplyAt(d, trace, i) == before.lastAck
        && ExecutedAt(d, trace, i) == None
        && Run(d, trace[..i + 1]) == before
      else
        && ExecutedAt(d, trace, i) == Some(Parse(trace[i].chunk).req)
        && Run(d, trace[..i + 1]).lastAck == ReplyAt(d, trace, i)
  {
    hide Parse, AckFrame, DispatchStatus, DispatchPins;
    CacheTracksLastSeen(d, trace[..i]);
    assert trace[..i + 1][..i] == trace[..i];
  }

  /**
    Over every trace from power-up: an intact arrival is answered, byte for byte, like the arrival at which its command
    was executed, and that is the last execution there was. A retry is told what came of the command, status and queue
    depth, however often it repeats.
   */
  lemma {:induction false} AnsweredAsExecuted(d: Device, trace: seq<Arrival>, i: nat)
    requires !d.hasLastAck && i < |trace| && Intact(trace[i])
    ensures var o := Origin(d, trace, i);
      && SeqByte(trace[o]) == SeqByte(trace[i])
      && ExecutedAt(d, trace, o) == Some(Parse(trace[o].chunk).req)
      && (forall k :: o < k <= i ==> ExecutedAt(d, trace, k) == None)
      && ReplyAt(d, trace, i) == ReplyAt(d, trace, o)
      && Run(d, trace[..i + 1]).lastAck == ReplyAt(d, trace, o)
    decreases i
  {
    hide Parse, React, Run, Intact, ReplyAt, ExecutedAt, SeqByte, LastSeen;
    LastSeenIs(d, trace[..i]);
    IntactStep(d, trace, i);
    SeqByteSome(trace[i]);
    var last := LastIntactAt(trace[..i]);
    if LastSeen(d, trace[..i]) == SeqByte(trace[i]) {
      var j := last.value;
      AnsweredAsExecuted(d, trace, j);
      assert forall k :: j + 1 <= k < i ==> trace[k] == trace[..i][k];
      RunQuiet(d, trace, j + 1, i);
    }
  }

  lemma {:induction false} SeqByteSome(a: Arrival)
    requires Intact(a)
    ensures SeqByte(a).Some?
  {
  }

  /** In raw bytes: every intact arrival is answered with the status and the queue depth of the execution. */
  lemma {:induction false} AnswerBytes(d: Device, trace: seq<Arrival>, i: nat)
    requires !d.hasLastAck && i < |trace| && Intact(trace[i])
    ensures var o := Origin(d, trace, i);
      var chunk := trace[o].chunk;
      && |chunk| >= 5 && |chunk| >= 5 + NatOf(chunk[3])
      && var ok := chunk[2] == 0xB1 || (chunk[2] == 0xA1 && !RefusedBytes(chunk));
      IsAck(ReplyAt(d, trace, i), chunk[1], if ok then 0x00 else 0x02, trace[o].queueDepth)
  {
    hide React, Run, IsAck, NatOf, RefusedBytes, LastSeen, Origin;
    AnsweredAsExecuted(d, trace, i);
    var o := Origin(d, trace, i);
    var before, chunk := Run(d, trace[..o]), trace[o].chunk;
    ValidLength(chunk);
    if Repeats(before, chunk) {
      RepeatedAnswer(before, chunk, trace[o].queueDepth);
      assert false;
    }
    ExecutedAnswer(before, chunk, trace[o].queueDepth);
  }

  // ---- the relays ----------------------------------------------------------------------------

  /** All pin levels set over the trace, oldest first. */
  function Pins(d: Device, trace: seq<Arrival>): seq<(bv8, bv8)> {
    if trace == [] then []
    else
      var before, a := trace[..|trace| - 1], trace[|trace| - 1];
      Pins(d, before) + React(Run(d, before), a.chunk, a.queueDepth).gpio
  }

  /** The level a pin was last set to. */
  function Level(pins: seq<(bv8, bv8)>, p: bv8): Option<bv8> {
    if pins == [] then None
    else if pins[|pins| - 1].0 == p then Some(pins[|pins| - 1].1)
    else Level(pins[..|pins| - 1], p)
  }

  /** The level that the last valid order for relay p among these commands asks for. */
  function LastOrder(commands: seq<Request>, p: bv8): Option<bv8> {
    if commands == [] then None
    else
      var c := commands[|commands| - 1];
      if c.cmd == 0xA1 && |c.payload| >= 2 && c.payload[0] == p && 1 <= p <= 3 && c.payload[1] <= 1
      then Some(c.payload[1])
      else LastOrder(commands[..|commands| - 1], p)
  }

  lemma {:induction false} PinsOfCommands(d: Device, trace: seq<Arrival>)
    ensures Pins(d, trace) == PinsOf(Commands(d, trace))
  {
    hide Parse, React, DispatchPins;
    if trace != [] {
      var before, a := trace[..|trace| - 1], trace[|trace| - 1];
      PinsOfCommands(d, before);
      PinsWithCommand(Run(d, before), a.chunk, a.queueDepth);
      var x, commands := React(Run(d, before), a.chunk, a.queueDepth), Commands(d, before);
      if x.dispatched.Some? {
        assert (commands + [x.dispatched.value])[..|commands|] == commands;
      } else {
        assert commands + [] == commands && Pins(d, before) + [] == Pins(d, before);
      }
    }
  }

  lemma {:induction false} LevelOfPins(commands: seq<Request>, p: bv8)
    ensures Level(PinsOf(commands), p) == LastOrder(commands, p)
  {
    if commands != [] {
      var init, c := commands[..|commands| - 1], commands[|commands| - 1];
      LevelOfPins(init, p);
      var pins := PinsOf(init);
      if DispatchPins(c) == [] {
        assert pins + [] == pins;
      } else {
        assert (pins + DispatchPins(c))[..|pins|] == pins;
      }
    }
  }

  /**
    Over every trace: the level of relay p is the one that the last executed valid order for it asks for, a command 0xA1
    with that pin in its first payload byte and the level in the second; without one it has not been touched.
   */
  lemma {:induction false} RelayFollowsOrders(d: Device, trace: seq<Arrival>, p: bv8)
    ensures Level(Pins(d, trace), p) == LastOrder(Commands(d, trace), p)
  {
    PinsOfCommands(d, trace);
    LevelOfPins(Commands(d, trace), p);
  }
}
