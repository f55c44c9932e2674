/** The firmware's uRPC agent: frame handling with a one-entry acknowledgement cache. */
module UrpcAgent {
  import opened Octets
  import opened Crc8
  import opened UrpcFrames

  const CMD_SET_RELAY: bv8 := 0xA1
  const CMD_READ_TEMP: bv8 := 0xB1

  /** The agent's static variables. */
  datatype Device = Device(hasLastAck: bool, lastSeq: bv8, lastAck: Bytes)

  /** What one chunk makes the agent do. */
  datatype Reaction = Reaction(dev: Device, reply: Bytes, dispatched: Option<Request>, gpio: seq<(bv8, bv8)>)

  predicate RelayRefused(payload: Bytes) {
    |payload| >= 2 && (payload[0] < 1 || payload[0] > 3 || payload[1] > 1)
  }

  function DispatchStatus(r: Request): bv8 {
    if r.cmd == CMD_SET_RELAY then
      if RelayRefused(r.payload) then STATUS_INVALID_CMD else STATUS_OK
    else if r.cmd == CMD_READ_TEMP then STATUS_OK
    else STATUS_INVALID_CMD
  }

  /** The pin levels a command sets. */
  function DispatchPins(r: Request): seq<(bv8, bv8)> {
    if r.cmd == CMD_SET_RELAY && |r.payload| >= 2 && !RelayRefused(r.payload)
    then [(r.payload[0], r.payload[1])]
    else []
  }

  function React(d: Device, chunk: Bytes, queueDepth: bv8): Reaction {
    match Parse(chunk)
    case BadHeader => Reaction(d, AckFrame(Ack(0, STATUS_ERROR, 0)), None, [])
    case TooShort(s) => Reaction(d, AckFrame(Ack(s, STATUS_ERROR, 0)), None, [])
    case BadCrc(s) => Reaction(d, AckFrame(Ack(s, STATUS_ERROR, 0)), None, [])
    case Valid(r) =>
      if d.hasLastAck && r.seqNo == d.lastSeq then
        Reaction(d, d.lastAck, None, [])
      else
        var ack := AckFrame(Ack(r.seqNo, DispatchStatus(r), queueDepth));
        Reaction(Device(true, r.seqNo, ack), ack, Some(r), DispatchPins(r))
  }

  class Agent {
    var lastSeq: bv8
    const lastAck: array<bv8>
    var hasLastAck: bool
    var uart: Bytes                 // everything written to the UART
    var gpio: seq<(bv8, bv8)>       // pin levels set, oldest first
    ghost var handled: seq<Request> // commands that reached the command switch

    ghost predicate Valid()
      reads this
    {
      lastAck.Length == 5
    }

    ghost function View(): Device
      reads this, lastAck
    {
      Device(hasLastAck, lastSeq, lastAck[..])
    }

    constructor ()
      ensures Valid() && fresh(lastAck)
      ensures !View().hasLastAck && uart == [] && gpio == [] && handled == []
    {
      lastSeq, hasLastAck := 0, false;
      lastAck := new bv8[5](_ => 0);
      uart, gpio, handled := [], [], [];
    }

    method SendAck(seqNo: bv8, status: bv8, queueDepth: bv8, cache: bool)
      requires Valid()
      modifies this`lastSeq, this`hasLastAck, this`uart, lastAck
      ensures Valid()
      ensures var ack := AckFrame(Ack(seqNo, status, queueDepth));
        && uart == old(uart) + ack
        && View() == if cache then Device(true, seqNo, ack) else old(View())
    {
      var ack: Bytes := [HEADER_ACK, seqNo, status, queueDepth];
      assert ack[1..] == AckBody(Ack(seqNo, status, queueDepth));
      var crc := ComputeCrc(ack[1..]);
      ack := ack + [crc];
      assert ack == AckFrame(Ack(seqNo, status, queueDepth));
      assert |ack| == 5;
      if cache {
        forall i | 0 <= i < 5 {
          lastAck[i] := ack[i];
        }
        assert lastAck[..] == ack;
        lastSeq := seqNo;
        hasLastAck := true;
      }
      uart := uart + ack;
    }

    method ProcessFrame(frame: Bytes, queueDepth: bv8)
      requires Valid()
      modifies this, lastAck
      ensures Valid()
      ensures var r := React(old(View()), frame, queueDepth);
        && View() == r.dev
        && uart == old(uart) + r.reply
        && gpio == old(gpio) + r.gpio
        && handled == old(handled) + (if r.dispatched.Some? then [r.dispatched.value] else [])
    {
      hide NatOf, Crc, AckFrame, DispatchStatus, DispatchPins;
      if |frame| < 4 || frame[0] != HEADER_REQUEST {
        SendAck(0, STATUS_ERROR, 0, false);
        return;
      }
      var seqNo, cmd, payloadLen := frame[1], frame[2], NatOf(frame[3]);
      if |frame| < 4 + payloadLen + 1 {
        SendAck(seqNo, STATUS_ERROR, 0, false);
        return;
      }
      var expectedCrc := ComputeCrc(frame[1..4 + payloadLen]);
      if frame[4 + payloadLen] != expectedCrc {
        SendAck(seqNo, STATUS_ERROR, 0, false);
        return;
      }
      if hasLastAck && seqNo == lastSeq {
        uart := uart + lastAck[..];
        return;
      }
      Dispatch(Request(seqNo, cmd, frame[4..4 + payloadLen]), queueDepth);
    }

    /** The command switch at the end of process_frame. */
    method Dispatch(r: Request, queueDepth: bv8)
      requires Valid()
      modifies this, lastAck
      ensures Valid()
      ensures var ack := AckFrame(Ack(r.seqNo, DispatchStatus(r), queueDepth));
        && View() == Device(true, r.seqNo, ack)
        && uart == old(uart) + ack
        && gpio == old(gpio) + DispatchPins(r)
        && handled == old(handled) + [r]
    {
      hide Crc, AckFrame;
      handled := handled + [r];
      if r.cmd == CMD_SET_RELAY {
        if |r.payload| >= 2 {
          var pin, state := r.payload[0], r.payload[1];
          if pin < 1 || pin > 3 {
            SendAck(r.seqNo, STATUS_INVALID_CMD, queueDepth, true);
            return;
          }
          if state > 1 {
            SendAck(r.seqNo, STATUS_INVALID_CMD, queueDepth, true);
            return;
          }
          gpio := gpio + [(pin, state)];
        }
        SendAck(r.seqNo, STATUS_OK, queueDepth, true);
      } else if r.cmd == CMD_READ_TEMP {
        SendAck(r.seqNo, STATUS_OK, queueDepth, true);
      } else {
        SendAck(r.seqNo, STATUS_INVALID_CMD, queueDepth, true);
      }
    }

    /** One turn of the receive loop: at most 127 bytes of its 128-byte buffer are a frame. */
    method ReceiveOnce(rxBuffer: array<bv8>, len: int, queueDepth: bv8)
      requires Valid() && rxBuffer != lastAck && rxBuffer.Length == 128 && len <= 127
      modifies this, lastAck
      ensures Valid()
      ensures len <= 0 ==>
        View() == old(View()) && uart == old(uart) && gpio == old(gpio) && handled == old(handled)
      ensures len > 0 ==> var r := React(old(View()), rxBuffer[..len], queueDepth);
        && View() == r.dev
        && uart == old(uart) + r.reply
        && gpio == old(gpio) + r.gpio
        && handled == old(handled) + (if r.dispatched.Some? then [r.dispatched.value] else [])
    {
      if len > 0 {
        ProcessFrame(rxBuffer[..len], queueDepth);
      }
    }
  }

  // ---- one chunk ----------------------------------------------------------------------

  /** The cache holds the acknowledgement of the last dispatched command, never an error. */
  predicate DeviceOk(d: Device) {
    d.hasLastAck ==>
      && |d.lastAck| == 5
      && DecodeAck(d.lastAck).Some?
      && DecodeAck(d.lastAck).value.seqNo == d.lastSeq
      && DecodeAck(d.lastAck).value.status != STATUS_ERROR
  }

  /**
    Every chunk is answered by one five-byte acknowledgement. It reports something other
    than an error exactly for an intact request, and then it names that request.
   */
  lemma {:induction false} ReplyTruthful(d: Device, chunk: Bytes, queueDepth: bv8)
    requires DeviceOk(d)
    ensures var r := React(d, chunk, queueDepth);
      && DeviceOk(r.dev)
      && |r.reply| == 5 && DecodeAck(r.reply).Some?
      && (DecodeAck(r.reply).value.status != STATUS_ERROR <==> Parse(chunk).Valid?)
      && (Parse(chunk).Valid? ==> DecodeAck(r.reply).value.seqNo == Parse(chunk).req.seqNo)
  {
    hide Crc, Parse;
    var r := React(d, chunk, queueDepth);
    match Parse(chunk)
    case BadHeader => DecodeAckIff(r.reply, Ack(0, STATUS_ERROR, 0));
    case TooShort(s) => DecodeAckIff(r.reply, Ack(s, STATUS_ERROR, 0));
    case BadCrc(s) => DecodeAckIff(r.reply, Ack(s, STATUS_ERROR, 0));
    case Valid(req) =>
      if r.dispatched.Some? {
        DecodeAckIff(r.reply, Ack(req.seqNo, DispatchStatus(req), queueDepth));
      }
  }

  // ---- whole traces of a FIFO line -------------------------------------------------------

  /** A chunk the UART hands to the agent, and the host session it was sent in. */
  datatype Arrival = Arrival(session: nat, chunk: Bytes, queueDepth: bv8)

  function Run(d: Device, trace: seq<Arrival>): Device {
    if trace == [] then d
    else React(Run(d, trace[..|trace| - 1]), trace[|trace| - 1].chunk, trace[|trace| - 1].queueDepth).dev
  }

  /** The commands dispatched while chunks of session s arrive. */
  function Dispatches(d: Device, trace: seq<Arrival>, s: nat): seq<Request> {
    if trace == [] then []
    else
      var before, a := trace[..|trace| - 1], trace[|trace| - 1];
      var r := React(Run(d, before), a.chunk, a.queueDepth);
      Dispatches(d, before, s) + (if a.session == s && r.dispatched.Some? then [r.dispatched.value] else [])
  }

  predicate Intact(a: Arrival) {
    Parse(a.chunk).Valid?
  }

  /**
    What a FIFO line may deliver: sessions in order, each chunk either the session's own frame (then anything) or one
    that the firmware rejects, such as a damaged frame or a piece of one. Frames may be missing.
   */
  ghost predicate FifoTrace(trace: seq<Arrival>, reqs: seq<Request>) {
    && (forall i, j :: 0 <= i < j < |trace| ==> trace[i].session <= trace[j].session)
    && forall i :: 0 <= i < |trace| ==>
         && trace[i].session < |reqs|
         && (Intact(trace[i]) ==> Parse(trace[i].chunk).req == reqs[trace[i].session])
  }

  /** The sequence byte of the last intact frame seen, or what the cache held before. */
  function LastSeen(d: Device, trace: seq<Arrival>): Option<bv8> {
    if trace == [] then (if d.hasLastAck then Some(d.lastSeq) else None)
    else if Intact(trace[|trace| - 1]) then Some(Parse(trace[|trace| - 1].chunk).req.seqNo)
    else LastSeen(d, trace[..|trace| - 1])
  }

  /** The cache always names the last intact frame, duplicates included. */
  lemma {:induction false} CacheTracksLastSeen(d: Device, trace: seq<Arrival>)
    ensures LastSeen(d, trace) == LastSeen(Run(d, trace), [])
  {
    hide Parse, AckFrame, DispatchStatus, DispatchPins;
    if trace != [] {
      CacheTracksLastSeen(d, trace[..|trace| - 1]);
    }
  }

  /** The sessions of a FIFO trace arrive in three blocks around session s. */
  ghost predicate Blocks(trace: seq<Arrival>, s: nat, lo: nat, hi: nat) {
    && lo <= hi <= |trace|
    && (forall i :: 0 <= i < lo ==> trace[i].session < s)
    && (forall i :: lo <= i < hi ==> trace[i].session == s)
    && forall i :: hi <= i < |trace| ==> trace[i].session > s
  }

  lemma {:induction false} FifoBlocks(trace: seq<Arrival>, reqs: seq<Request>, s: nat) returns (lo: nat, hi: nat)
    requires FifoTrace(trace, reqs)
    ensures Blocks(trace, s, lo, hi)
  {
    lo := 0;
    while lo < |trace| && trace[lo].session < s
      invariant lo <= |trace|
      invariant forall i :: 0 <= i < lo ==> trace[i].session < s
    {
      lo := lo + 1;
    }
    hi := lo;
    while hi < |trace| && trace[hi].session == s
      invariant lo <= hi <= |trace|
      invariant forall i :: lo <= i < hi ==> trace[i].session == s
    {
      hi := hi + 1;
    }
  }

  ghost predicate AnyIntact(trace: seq<Arrival>, lo: nat, hi: nat)
    requires lo <= hi <= |trace|
  {
    exists i :: lo <= i < hi && Intact(trace[i])
  }

  /** What session s gets dispatched, from what arrived in its block and the cache before it. */
  ghost function ExpectedDispatch(d: Device, trace: seq<Arrival>, r: Request, lo: nat, hi: nat): seq<Request>
    requires lo <= hi <= |trace|
  {
    if AnyIntact(trace, lo, hi) && LastSeen(d, trace[..lo]) != Some(r.seqNo) then [r] else []
  }

  lemma {:induction false} LastSeenInBlock(d: Device, trace: seq<Arrival>, reqs: seq<Request>, s: nat, lo: nat, hi: nat)
    requires FifoTrace(trace, reqs) && s < |reqs| && Blocks(trace, s, lo, hi) && hi == |trace|
    ensures LastSeen(d, trace) == if AnyIntact(trace, lo, hi) then Some(reqs[s].seqNo) else LastSeen(d, trace[..lo])
  {
    hide Parse;
    if lo == |trace| {
      assert trace[..lo] == trace;
    } else {
      var t := trace[..|trace| - 1];
      if !Intact(trace[|trace| - 1]) {
        LastSeenInBlock(d, t, reqs, s, lo, hi - 1);
        assert t[..lo] == trace[..lo];
        assert AnyIntact(t, lo, hi - 1) <==> AnyIntact(trace, lo, hi) by {
          if i :| lo <= i < hi - 1 && Intact(t[i]) { assert Intact(trace[i]); }
          if i :| lo <= i < hi && Intact(trace[i]) { assert Intact(t[i]); }
        }
      }
    }
  }

  /** A chunk adds a dispatch exactly when it is an intact frame not seen last. */
  lemma {:induction false} DispatchStep(d: Device, trace: seq<Arrival>, s: nat)
    requires trace != []
    ensures var t, a := trace[..|trace| - 1], trace[|trace| - 1];
      Dispatches(d, trace, s) == Dispatches(d, t, s) +
        if a.session == s && Intact(a) && LastSeen(d, t) != Some(Parse(a.chunk).req.seqNo)
        then [Parse(a.chunk).req] else []
  {
    hide Parse, AckFrame, DispatchStatus, DispatchPins;
    CacheTracksLastSeen(d, trace[..|trace| - 1]);
  }

  lemma {:induction false} ExpectedInBlock(d: Device, trace: seq<Arrival>, reqs: seq<Request>, s: nat, lo: nat, hi: nat)
    requires FifoTrace(trace, reqs) && s < |reqs| && Blocks(trace, s, lo, hi) && lo < hi == |trace|
    ensures var t, a := trace[..hi - 1], trace[hi - 1];
      ExpectedDispatch(d, trace, reqs[s], lo, hi) == ExpectedDispatch(d, t, reqs[s], lo, hi - 1) +
        if Intact(a) && LastSeen(d, t) != Some(reqs[s].seqNo) then [reqs[s]] else []
  {
    var t := trace[..hi - 1];
    assert t[..lo] == trace[..lo];
    assert FifoTrace(t, reqs) && Blocks(t, s, lo, hi - 1);
    LastSeenInBlock(d, t, reqs, s, lo, hi - 1);
    hide *;
    SplitIntact(trace, lo, hi);
    ExpectedCases(d, trace, reqs[s], lo, hi);
    ExpectedCases(d, t, reqs[s], lo, hi - 1);
  }

  lemma {:induction false} ExpectedCases(d: Device, trace: seq<Arrival>, r: Request, lo: nat, hi: nat)
    requires lo <= hi <= |trace|
    ensures ExpectedDispatch(d, trace, r, lo, hi) ==
      if AnyIntact(trace, lo, hi) && LastSeen(d, trace[..lo]) != Some(r.seqNo) then [r] else []
  {
  }

  lemma {:induction false} ExpectedOutside(d: Device, trace: seq<Arrival>, r: Request, lo: nat, hi: nat)
    requires lo <= hi < |trace|
    ensures ExpectedDispatch(d, trace, r, lo, hi) == ExpectedDispatch(d, trace[..|trace| - 1], r, lo, hi)
  {
    hide LastSeen, Intact;
    var t := trace[..|trace| - 1];
    assert t[..lo] == trace[..lo];
    SameIntact(trace, t, lo, hi);
  }

  /**
    Over every trace a FIFO line can deliver, with any losses, detected damage, repetitions and delays: session s has
    its command dispatched exactly once if one of its frames arrives intact and its sequence byte is not the one seen
    last before, and otherwise never.
   */
  lemma {:induction false} DispatchExactly(d: Device, trace: seq<Arrival>, reqs: seq<Request>, s: nat, lo: nat, hi: nat)
    requires FifoTrace(trace, reqs) && s < |reqs| && Blocks(trace, s, lo, hi)
    ensures Dispatches(d, trace, s) == ExpectedDispatch(d, trace, reqs[s], lo, hi)
  {
    if trace == [] {
      NothingDispatched(d, reqs[s], s);
    } else {
      var t := trace[..|trace| - 1];
      ShorterTrace(trace, reqs, s, lo, hi);
      hide *;
      DispatchStep(d, trace, s);
      if hi < |trace| {
        DispatchExactly(d, t, reqs, s, lo, hi);
        ExpectedOutside(d, trace, reqs[s], lo, hi);
      } else if lo < hi {
        DispatchExactly(d, t, reqs, s, lo, hi - 1);
        ExpectedInBlock(d, trace, reqs, s, lo, hi);
      } else {
        DispatchExactly(d, t, reqs, s, lo - 1, hi - 1);
        ExpectedEmpty(d, t, reqs[s], lo - 1);
        ExpectedEmpty(d, trace, reqs[s], lo);
      }
    }
  }

  lemma {:induction false} NothingDispatched(d: Device, r: Request, s: nat)
    ensures Dispatches(d, [], s) == [] == ExpectedDispatch(d, [], r, 0, 0)
  {
    ExpectedEmpty(d, [], r, 0);
  }

  /** Without its last arrival a FIFO trace still is one, and the blocks are the same up to that arrival. */
  lemma {:induction false} ShorterTrace(trace: seq<Arrival>, reqs: seq<Request>, s: nat, lo: nat, hi: nat)
    requires trace != [] && FifoTrace(trace, reqs) && s < |reqs| && Blocks(trace, s, lo, hi)
    ensures var n := |trace| - 1; var t, a := trace[..n], trace[n];
      && FifoTrace(t, reqs)
      && Blocks(t, s, if lo <= n then lo else n, if hi <= n then hi else n)
      && (a.session == s <==> lo < hi == |trace|)
      && (a.session == s && Intact(a) ==> Parse(a.chunk).req == reqs[s])
  {
    hide Parse;
  }

  lemma {:induction false} ExpectedEmpty(d: Device, trace: seq<Arrival>, r: Request, lo: nat)
    requires lo <= |trace|
    ensures ExpectedDispatch(d, trace, r, lo, lo) == []
  {
    hide LastSeen;
    NoneIntact(trace, lo, lo);
  }

  lemma {:induction false} NoneIntact(trace: seq<Arrival>, lo: nat, hi: nat)
    requires lo == hi <= |trace|
    ensures !AnyIntact(trace, lo, hi)
  {
  }

  lemma {:induction false} SplitIntact(trace: seq<Arrival>, lo: nat, hi: nat)
    requires lo < hi == |trace|
    ensures AnyIntact(trace, lo, hi) <==> AnyIntact(trace[..hi - 1], lo, hi - 1) || Intact(trace[hi - 1])
  {
    hide Parse;
    var t := trace[..hi - 1];
    if i :| lo <= i < hi - 1 && Intact(t[i]) { assert Intact(trace[i]); }
    if i :| lo <= i < hi && Intact(trace[i]) { assert i == hi - 1 || Intact(t[i]); }
  }

  lemma {:induction false} SameIntact(trace: seq<Arrival>, t: seq<Arrival>, lo: nat, hi: nat)
    requires lo <= hi <= |t| && t <= trace
    ensures AnyIntact(trace, lo, hi) <==> AnyIntact(t, lo, hi)
  {
    hide Parse;
    if i :| lo <= i < hi && Intact(t[i]) { assert Intact(trace[i]); }
    if i :| lo <= i < hi && Intact(trace[i]) { assert Intact(t[i]); }
  }

  /** No session's command is ever dispatched twice, and nothing else is dispatched for it. */
  lemma {:induction false} AtMostOnce(d: Device, trace: seq<Arrival>, reqs: seq<Request>, s: nat)
    requires FifoTrace(trace, reqs) && s < |reqs|
    ensures Dispatches(d, trace, s) in {[], [reqs[s]]}
  {
    var lo, hi := FifoBlocks(trace, reqs, s);
    DispatchExactly(d, trace, reqs, s, lo, hi);
  }

  // ---- all commands of a trace ---------------------------------------------------------------

  /** Every command dispatched over the trace, in order. */
  function Commands(d: Device, trace: seq<Arrival>): seq<Request> {
    if trace == [] then []
    else
      var before, a := trace[..|trace| - 1], trace[|trace| - 1];
      var r := React(Run(d, before), a.chunk, a.queueDepth);
      Commands(d, before) + (if r.dispatched.Some? then [r.dispatched.value] else [])
  }

  lemma {:induction false} RunConcat(d: Device, a: seq<Arrival>, b: seq<Arrival>)
    ensures Run(d, a + b) == Run(Run(d, a), b)
    ensures Commands(d, a + b) == Commands(d, a) + Commands(Run(d, a), b)
  {
    hide React;
    if b == [] {
      assert a + b == a;
      assert Commands(d, a) + [] == Commands(d, a);
    } else {
      var n := |b| - 1;
      assert (a + b)[..|a + b| - 1] == a + b[..n];
      RunConcat(d, a, b[..n]);
    }
  }

  /** What the first n sessions get dispatched, session after session. */
  function BySession(d: Device, trace: seq<Arrival>, n: nat): seq<Request> {
    if n == 0 then [] else BySession(d, trace, n - 1) + Dispatches(d, trace, n - 1)
  }

  lemma {:induction false} NoArrivals(d: Device, trace: seq<Arrival>, s: nat)
    requires forall i :: 0 <= i < |trace| ==> trace[i].session < s
    ensures Dispatches(d, trace, s) == []
  {
    hide React;
    if trace != [] {
      NoArrivals(d, trace[..|trace| - 1], s);
    }
  }

  /** An arrival of session s leaves the shares of the sessions before it alone, and there are none after it yet. */
  lemma {:induction false} BySessionStep(d: Device, trace: seq<Arrival>, n: nat)
    requires trace != [] && forall i :: 0 <= i < |trace| ==> trace[i].session <= trace[|trace| - 1].session
    ensures var t, a := trace[..|trace| - 1], trace[|trace| - 1];
      var r := React(Run(d, t), a.chunk, a.queueDepth).dispatched;
      BySession(d, trace, n) ==
        BySession(d, t, n) + if a.session < n && r.Some? then [r.value] else []
    decreases n
  {
    hide React, Run, Dispatches;
    if n > 0 {
      var t, a := trace[..|trace| - 1], trace[|trace| - 1];
      BySessionStep(d, trace, n - 1);
      ShareStep(d, trace, n - 1);
      var x := React(Run(d, t), a.chunk, a.queueDepth).dispatched;
      var more := if x.Some? then [x.value] else [];
      if a.session < n - 1 {
        NoArrivals(d, t, n - 1);
        NoArrivals(d, trace, n - 1);
      } else if a.session == n - 1 {
        AppendShare(BySession(d, t, n - 1), Dispatches(d, t, n - 1), more);
      } else {
        AppendShare(BySession(d, t, n - 1), Dispatches(d, t, n - 1), []);
      }
    }
  }

  lemma {:induction false} ShareStep(d: Device, trace: seq<Arrival>, s: nat)
    requires trace != []
    ensures var t, a := trace[..|trace| - 1], trace[|trace| - 1];
      var x := React(Run(d, t), a.chunk, a.queueDepth).dispatched;
      Dispatches(d, trace, s) == Dispatches(d, t, s) + if a.session == s && x.Some? then [x.value] else []
  {
    hide React, Run;
  }

  lemma {:induction false} AppendShare(before: seq<Request>, share: seq<Request>, more: seq<Request>)
    ensures (before + []) + (share + more) == (before + share) + more
  {
  }

  /**
    Over every FIFO trace the firmware executes the sessions' commands in the order in which they were issued, each
    session's at most once, and nothing else.
   */
  lemma {:induction false} ExecutedInOrder(d: Device, trace: seq<Arrival>, reqs: seq<Request>)
    requires FifoTrace(trace, reqs)
    ensures Commands(d, trace) == BySession(d, trace, |reqs|)
    ensures forall s :: 0 <= s < |reqs| ==> Dispatches(d, trace, s) in {[], [reqs[s]]}
  {
    hide Parse, React, Dispatches;
    forall s | 0 <= s < |reqs|
      ensures Dispatches(d, trace, s) in {[], [reqs[s]]}
    {
      AtMostOnce(d, trace, reqs, s);
    }
    if trace == [] {
      NothingBySession(d, |reqs|);
    } else {
      ExecutedInOrder(d, trace[..|trace| - 1], reqs);
      BySessionStep(d, trace, |reqs|);
    }
  }

  lemma {:induction false} NothingBySession(d: Device, n: nat)
    ensures BySession(d, [], n) == []
  {
    if n > 0 {
      NothingBySession(d, n - 1);
    }
  }

  // ---- consecutive sequence bytes ----------------------------------------------------------

  /** The session of the last intact arrival. */
  function LastIntact(trace: seq<Arrival>): Option<nat> {
    if trace == [] then None
    else if Intact(trace[|trace| - 1]) then Some(trace[|trace| - 1].session)
    else LastIntact(trace[..|trace| - 1])
  }

  /** The sequence bytes count up with the sessions, from base, and wrap around. */
  ghost predicate Numbered(reqs: seq<Request>, base: nat) {
    forall i :: 0 <= i < |reqs| ==> reqs[i].seqNo == ByteOf(base + i)
  }

  predicate SameByte(i: nat, j: nat) {
    (j - i) % 256 == 0
  }

  lemma {:induction false} LastSeenNames(d: Device, trace: seq<Arrival>, reqs: seq<Request>)
    requires FifoTrace(trace, reqs) && !d.hasLastAck
    ensures var m := LastIntact(trace);
      && (m.Some? ==> m.value < |reqs|)
      && LastSeen(d, trace) == if m.Some? then Some(reqs[m.value].seqNo) else None
  {
    hide Parse;
    if trace != [] && !Intact(trace[|trace| - 1]) {
      LastSeenNames(d, trace[..|trace| - 1], reqs);
    }
  }

  lemma {:induction false} BlockBounds(trace: seq<Arrival>, s: nat, lo: nat, hi: nat)
    requires Blocks(trace, s, lo, hi)
    ensures lo <= hi <= |trace|
  {
  }

  lemma {:induction false} FifoPrefix(trace: seq<Arrival>, reqs: seq<Request>, n: nat)
    requires FifoTrace(trace, reqs) && n <= |trace|
    ensures FifoTrace(trace[..n], reqs)
  {
    hide Parse;
  }

  /**
    With sequence bytes counting up from power-up, a FIFO line is all it takes: the command of session s is dispatched
    exactly once if one of its frames arrives intact, unless the last session that got through before it is a multiple
    of 256 sessions back.
   */
  lemma {:induction false} NumberedDispatch(
      d: Device, trace: seq<Arrival>, reqs: seq<Request>, base: nat, s: nat, lo: nat, hi: nat)
    requires FifoTrace(trace, reqs) && s < |reqs| && Blocks(trace, s, lo, hi)
    requires !d.hasLastAck && Numbered(reqs, base)
    ensures var m := LastIntact(trace[..lo]);
      Dispatches(d, trace, s) ==
        if AnyIntact(trace, lo, hi) && (m.Some? ==> !SameByte(m.value, s)) then [reqs[s]] else []
  {
    BlockBounds(trace, s, lo, hi);
    hide *;
    var t := trace[..lo];
    FifoPrefix(trace, reqs, lo);
    LastSeenNames(d, t, reqs);
    DispatchExactly(d, trace, reqs, s, lo, hi);
    ExpectedCases(d, trace, reqs[s], lo, hi);
    var m := LastIntact(t);
    if m.Some? {
      NumberedApart(reqs, base, m.value, s);
    }
  }

  lemma {:induction false} NumberedApart(reqs: seq<Request>, base: nat, i: nat, j: nat)
    requires Numbered(reqs, base) && i < |reqs| && j < |reqs|
    ensures reqs[i].seqNo == reqs[j].seqNo <==> SameByte(i, j)
  {
    hide ByteOf;
    ByteOfEqual(base + i, base + j);
  }

  lemma {:induction false} LastIntactIs(trace: seq<Arrival>, j: nat)
    requires j < |trace| && Intact(trace[j])
    requires forall i, k :: 0 <= i < k < |trace| ==> trace[i].session <= trace[k].session
    ensures LastIntact(trace).Some? && trace[j].session <= LastIntact(trace).value <= trace[|trace| - 1].session
  {
    hide Intact;
    var n := |trace| - 1;
    if !Intact(trace[n]) {
      LastIntactIs(trace[..n], j);
    }
  }

  lemma {:induction false} LastIntactNone(trace: seq<Arrival>)
    requires LastIntact(trace).Some?
    ensures AnyIntact(trace, 0, |trace|)
  {
    hide Intact;
    var n := |trace| - 1;
    if Intact(trace[n]) {
      assert 0 <= n < |trace| && Intact(trace[n]);
    } else {
      LastIntactNone(trace[..n]);
      var i :| 0 <= i < n && Intact(trace[..n][i]);
      assert Intact(trace[i]);
    }
  }

  /** With fewer than 255 sessions in a row lost, getting through and being dispatched are the same. */
  lemma {:induction false} IntactIsDispatched(
      d: Device, trace: seq<Arrival>, reqs: seq<Request>, base: nat, s: nat, lo: nat, hi: nat)
    requires FifoTrace(trace, reqs) && s < |reqs| && Blocks(trace, s, lo, hi)
    requires !d.hasLastAck && Numbered(reqs, base)
    requires AnyIntact(trace, 0, lo) ==> exists j :: 0 <= j < lo && Intact(trace[j]) && s - trace[j].session - 1 < 255
    ensures Dispatches(d, trace, s) == if AnyIntact(trace, lo, hi) then [reqs[s]] else []
  {
    hide Parse, Dispatches, LastSeen;
    var t := trace[..lo];
    NumberedDispatch(d, trace, reqs, base, s, lo, hi);
    if LastIntact(t).Some? {
      LastIntactNone(t);
      SameIntact(trace, t, 0, lo);
      var j :| 0 <= j < lo && Intact(trace[j]) && s - trace[j].session - 1 < 255;
      assert t[j] == trace[j];
      LastIntactIs(t, j);
      assert t[lo - 1].session < s;
    }
  }

  // ---- the pins ------------------------------------------------------------------------------

  /** The pin levels set while chunks of session s arrive, oldest first. */
  function PinsSet(d: Device, trace: seq<Arrival>, s: nat): seq<(bv8, bv8)> {
    if trace == [] then []
    else
      var before, a := trace[..|trace| - 1], trace[|trace| - 1];
      PinsSet(d, before, s) + (if a.session == s then React(Run(d, before), a.chunk, a.queueDepth).gpio else [])
  }

  function PinsOf(commands: seq<Request>): seq<(bv8, bv8)> {
    if commands == [] then [] else PinsOf(commands[..|commands| - 1]) + DispatchPins(commands[|commands| - 1])
  }

  /** Pins move only for dispatched commands, in their order. */
  lemma {:induction false} PinsFollowDispatches(d: Device, trace: seq<Arrival>, s: nat)
    ensures PinsSet(d, trace, s) == PinsOf(Dispatches(d, trace, s))
  {
    hide Parse, React, DispatchPins;
    if trace != [] {
      var before, a := trace[..|trace| - 1], trace[|trace| - 1];
      PinsFollowDispatches(d, before, s);
      PinsWithCommand(Run(d, before), a.chunk, a.queueDepth);
      var r, commands := React(Run(d, before), a.chunk, a.queueDepth), Dispatches(d, before, s);
      if a.session == s && r.dispatched.Some? {
        assert (commands + [r.dispatched.value])[..|commands|] == commands;
      } else {
        assert PinsSet(d, before, s) + [] == PinsSet(d, before, s);
        assert commands + [] == commands;
      }
    }
  }

  lemma {:induction false} PinsWithCommand(d: Device, chunk: Bytes, queueDepth: bv8)
    ensures var r := React(d, chunk, queueDepth);
      r.gpio == if r.dispatched.Some? then DispatchPins(r.dispatched.value) else []
  {
    hide Parse, AckFrame, DispatchStatus, DispatchPins;
  }

  lemma {:induction false} PinsInRange(commands: seq<Request>)
    ensures forall p :: p in PinsOf(commands) ==> 1 <= p.0 <= 3 && p.1 <= 1
  {
    if commands != [] {
      PinsInRange(commands[..|commands| - 1]);
    }
  }

  /**
    Over every FIFO trace session s sets exactly the pin its own command names, once, if that command is dispatched,
    and no pin otherwise; only relays 1 to 3 are ever set, to 0 or 1.
   */
  lemma {:induction false} RelaySetOnce(d: Device, trace: seq<Arrival>, reqs: seq<Request>, s: nat)
    requires FifoTrace(trace, reqs) && s < |reqs|
    ensures PinsSet(d, trace, s) == if Dispatches(d, trace, s) == [] then [] else DispatchPins(reqs[s])
    ensures |PinsSet(d, trace, s)| <= 1
    ensures forall p :: p in PinsSet(d, trace, s) ==> 1 <= p.0 <= 3 && p.1 <= 1
  {
    hide Parse, React, FifoTrace;
    AtMostOnce(d, trace, reqs, s);
    PinsFollowDispatches(d, trace, s);
    PinsInRange(Dispatches(d, trace, s));
    assert PinsOf([reqs[s]]) == PinsOf([]) + DispatchPins(reqs[s]);
  }
}
