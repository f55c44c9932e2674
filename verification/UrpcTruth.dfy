/** Which leftovers in the receive line make a confirmation false in some run of undisturbed or lost exchanges. */
module UrpcTruth {
  import opened Octets
  import opened Crc8
  import opened UrpcFrames
  import opened UrpcAgent
  import opened SerialPort
  import opened UrpcBridge
  import opened UrpcLink
  import opened UrpcRuns

  /** A run over a prompt line, with consecutive counters. */
  ghost predicate PromptRun(calls: seq<Call>) {
    CallsCarry(calls) && CallsLockstep(calls) && Consecutive(calls)
  }

  /** If the call is confirmed, then under its own sequence byte. */
  predicate ConfirmedAsItself(s: SessionRun, c: Call) {
    Confirmed(s.result) ==> s.result.ack.seqNo == ByteOf(c.counter)
  }

  /** No call of any prompt run that starts with rx in the line is confirmed under another call's sequence byte. */
  ghost predicate TruthfulRuns(rx: Bytes) {
    forall d: Device, calls: seq<Call>, n: nat |
      DeviceOk(d) && PromptRun(calls) && n < |calls| ::
      ConfirmedAsItself(CallRun(Link(d, rx), calls, n), calls[n])
  }

  /** The run's last call is confirmed under another sequence byte. */
  ghost predicate EndsFalse(start: Link, calls: seq<Call>) {
    calls != [] && !ConfirmedAsItself(CallRun(start, calls, |calls| - 1), calls[|calls| - 1])
  }

  // ---- runs call by call ----------------------------------------------------------------------

  function LinkOf(s: SessionRun): Link {
    Link(s.dev, s.rx)
  }

  lemma {:induction false} LinkAfterFirst(start: Link, c: Call, calls: seq<Call>, n: nat)
    requires n <= |calls|
    ensures LinkAfter(start, [c] + calls, n + 1) == LinkAfter(LinkOf(Invoke(start, c)), calls, n)
  {
    hide Invoke;
    if n == 0 {
      assert LinkAfter(start, [c] + calls, 0) == start;
    } else {
      LinkAfterFirst(start, c, calls, n - 1);
    }
  }

  lemma {:induction false} EndsFalseOne(start: Link, c: Call)
    ensures EndsFalse(start, [c]) <==> !ConfirmedAsItself(Invoke(start, c), c)
  {
    hide Invoke, ConfirmedAsItself;
    assert LinkAfter(start, [c], 0) == start;
  }

  lemma {:induction false} EndsFalseFirst(start: Link, c: Call, calls: seq<Call>)
    requires EndsFalse(LinkOf(Invoke(start, c)), calls)
    ensures EndsFalse(start, [c] + calls)
  {
    hide Invoke, ConfirmedAsItself, LinkAfter;
    LinkAfterFirst(start, c, calls, |calls| - 1);
    assert ([c] + calls)[|calls|] == calls[|calls| - 1];
  }

  /** A call that fits a prompt line by itself. */
  ghost predicate PromptCall(c: Call) {
    CarriesAll(Req(c), c.fates) && LockstepAll(c.fates)
  }

  lemma {:induction false} PromptFirst(c: Call, calls: seq<Call>)
    requires PromptCall(c) && PromptRun(calls) && (calls != [] ==> calls[0].counter == c.counter + 1)
    ensures PromptRun([c] + calls)
  {
    hide CarriesAll, LockstepAll, Req;
    var all := [c] + calls;
    assert forall i :: 0 < i < |all| ==> all[i] == calls[i - 1];
  }

  /** A call whose single attempt is lost on the way out, so that nothing comes in. */
  function LostCall(counter: nat): Call {
    Call(counter, CMD_READ_TEMP, [], [Made([], Whole)])
  }

  /** A call whose single attempt is undisturbed. */
  function LiveCall(counter: nat, queueDepth: bv8): Call {
    var r := Request(ByteOf(counter), CMD_READ_TEMP, []);
    Call(counter, CMD_READ_TEMP, [], [Made([Arrival(0, RequestFrame(r), queueDepth)], Whole)])
  }

  lemma {:induction false} CallsArePrompt(counter: nat, queueDepth: bv8)
    ensures PromptCall(LostCall(counter)) && PromptCall(LiveCall(counter, queueDepth))
  {
    hide RequestFrame, ByteOf, Carries;
    var r, f := Request(ByteOf(counter), CMD_READ_TEMP, []), LiveCall(counter, queueDepth).fates[0];
    FrameDelivers(r, f.chunks[0], Whole);
    NothingCarried(Req(LostCall(counter)));
  }

  lemma {:induction false} NothingCarried(r: Request)
    ensures Carries(r, Made([], Whole))
  {
  }

  lemma {:induction false} OneAttempt(d: Device, rx: Bytes, f: Fate)
    requires f.Made?
    ensures var x, stream := Handle(d, f.chunks), rx + TurnOf(d, f).bytes;
      var (outcome, n) := ReadAck(stream);
      var s := Session(d, rx, [f]);
      && s.dev == x.dev && s.rx == stream[n..]
      && (outcome.GotAck? ==> s.result == Acked(outcome.ack))
  {
    hide Session, ReadAck, Handle;
    SessionStep(d, rx, [f]);
    var x, stream := Handle(d, Handed(f)), rx + TurnOf(d, f).bytes;
    SessionStops(x.dev, stream[ReadAck(stream).1..], [f][1..]);
  }

  lemma {:induction false} LostRun(d: Device, rx: Bytes, counter: nat)
    ensures var (outcome, n), s := ReadAck(rx), Invoke(Link(d, rx), LostCall(counter));
      && s.dev == d && s.rx == rx[n..]
      && (outcome.GotAck? ==> s.result == Acked(outcome.ack))
  {
    hide Session, ReadAck;
    OneAttempt(d, rx, Made([], Whole));
    assert Handle(d, []) == FarSide(d, [], []);
    assert rx + [] == rx;
  }

  /** The acknowledgement of an undisturbed call that is no repetition. */
  function LiveAck(counter: nat, queueDepth: bv8): Ack {
    Ack(ByteOf(counter), STATUS_OK, queueDepth)
  }

  lemma {:induction false} FreshReply(d: Device, r: Request, a: Arrival)
    requires |r.payload| < 256 && a.chunk == RequestFrame(r) && !Clashes(d, r)
    ensures var ack := AckFrame(Ack(r.seqNo, DispatchStatus(r), a.queueDepth));
      Handle(d, [a]).dev == Device(true, r.seqNo, ack) && Handle(d, [a]).replies == ack
  {
    hide Parse, RequestFrame, AckFrame, DispatchStatus, Handle;
    ParseIff(a.chunk, r);
    HandleOne(d, a);
  }

  lemma {:induction false} LiveRun(d: Device, rx: Bytes, counter: nat, queueDepth: bv8)
    requires d.hasLastAck ==> d.lastSeq != ByteOf(counter)
    ensures var s, frame := Invoke(Link(d, rx), LiveCall(counter, queueDepth)), AckFrame(LiveAck(counter, queueDepth));
      var (outcome, n) := ReadAck(rx + frame);
      && s.dev == Device(true, ByteOf(counter), frame)
      && s.rx == (rx + frame)[n..]
      && (outcome.GotAck? ==> s.result == Acked(outcome.ack))
  {
    hide Session, ReadAck, Handle, RequestFrame, AckFrame, ByteOf;
    var r := Request(ByteOf(counter), CMD_READ_TEMP, []);
    var f := LiveCall(counter, queueDepth).fates[0];
    OneAttempt(d, rx, f);
    assert f.chunks == [f.chunks[0]];
    FreshReply(d, r, f.chunks[0]);
  }

  // ---- what is harmful ------------------------------------------------------------------------

  /** The first header byte is among the first five bytes, and the frame it begins is not all there. */
  predicate Straddles(rx: Bytes, i: nat) {
    && i < 5 && i < |rx| < i + 5
    && rx[i] == HEADER_ACK
    && forall j :: 0 <= j < i ==> rx[j] != HEADER_ACK
  }

  /** A read finds all it takes in rx. */
  predicate SelfContained(rx: Bytes) {
    |rx| >= 5 && (FirstHeader(rx[..5]) == 5 || |rx| >= 5 + FirstHeader(rx[..5]))
  }

  lemma {:induction false} HarmfulCases(rx: Bytes) returns (i: nat)
    requires !Harmless(rx)
    ensures SelfContained(rx) || Straddles(rx, i)
  {
    hide FirstHeader;
    if |rx| >= 5 {
      i := FirstHeader(rx[..5]);
    } else {
      i := FirstHeader(rx);
      var j :| 0 <= j < |rx| && rx[j] == HEADER_ACK;
      assert i <= j;
    }
  }

  lemma {:induction false} SelfContainedRead(rx: Bytes, more: Bytes)
    requires SelfContained(rx)
    ensures ReadAck(rx + more) == ReadAck(rx)
    ensures !ReadAck(rx).0.ShortTail? && 5 <= ReadAck(rx).1 <= |rx|
  {
    hide DecodeAck, FirstHeader;
    var i := FirstHeader(rx[..5]);
    assert (rx + more)[..5] == rx[..5];
    if i < 5 {
      assert (rx + more)[i..i + 5] == rx[i..i + 5];
    }
  }

  // ---- a frame that is not all there -------------------------------------------------------------

  lemma {:induction false} CrcNext(data: Bytes, b: bv8, x: bv8)
    requires x == Crc(data) ^ b
    ensures Crc(data + [b]) == Step8(x)
  {
    hide Step8, StepN;
    Step8Is(x);
    assert (data + [b])[..|data|] == data;
  }

  lemma {:induction false} CrcThree(a: bv8, b: bv8, c: bv8, x: bv8, y: bv8)
    requires x == Step8(a) && y == Step8(x ^ b)
    ensures Crc([a, b, c]) == Step8(y ^ c)
  {
    hide Crc, Step8;
    CrcNone(a);
    assert [] + [a] == [a] && [a] + [b] == [a, b] && [a, b] + [c] == [a, b, c];
    CrcNext([], a, a);
    CrcNext([a], b, x ^ b);
    CrcNext([a, b], c, y ^ c);
  }

  lemma {:induction false} CrcNone(a: bv8)
    ensures a == Crc([]) ^ a
  {
  }

  lemma {:induction false} CrcValues()
    ensures Crc([0xFF, 0, 0x30]) == 0xBB && Crc([0xBB, 0, 0]) == 0x06
  {
    hide Crc;
    CrcThree(0xFF, 0, 0x30, 0xF3, 0xD7);
    CrcThree(0xBB, 0, 0, 0x28, 0xD8);
  }

  /** An acknowledgement whose only header bytes are its first and its last. */
  lemma {:induction false} EndsWithHeader()
    ensures AckFrame(Ack(0xFF, STATUS_OK, 0x30)) == [HEADER_ACK, 0xFF, 0, 0x30, HEADER_ACK]
  {
    hide Crc;
    CrcValues();
  }

  lemma {:induction false} FrontOfAck()
    ensures var f := AckFrame(Ack(0, STATUS_OK, 0x06)); |f| == 5 && f[..4] == [HEADER_ACK, 0, 0, 0x06]
  {
    hide Crc;
  }

  /** What a straddling read leaves of that acknowledgement straddles again, with one header byte at the end. */
  lemma {:induction false} LeavesOneHeader(rx: Bytes, i: nat)
    requires Straddles(rx, i)
    ensures var stream := rx + AckFrame(Ack(0xFF, STATUS_OK, 0x30));
      var (outcome, n) := ReadAck(stream);
      && Straddles(stream[n..], |rx| - i - 1)
      && |stream[n..]| == |rx| - i
  {
    hide AckFrame, ReadAck, DecodeAck;
    EndsWithHeader();
    var f := AckFrame(Ack(0xFF, STATUS_OK, 0x30));
    var stream, m := rx + f, |rx| - i;
    ReadAckCases(stream, i);
    assert stream[5 + i..] == f[5 - m..];
  }

  /** One header byte at the end makes the next acknowledgement be read one byte early, as one of another call. */
  lemma {:induction false} ReadsOneEarly(rx: Bytes, i: nat)
    requires Straddles(rx, i) && |rx| == i + 1
    ensures ReadAck(rx + AckFrame(Ack(0, STATUS_OK, 0x06))).0 == GotAck(Ack(HEADER_ACK, STATUS_OK, 0))
  {
    hide AckFrame, ReadAck, DecodeAck;
    FrontOfAck();
    var f := AckFrame(Ack(0, STATUS_OK, 0x06));
    var stream := rx + f;
    ReadAckCases(stream, i);
    var frame := stream[i..i + 5];
    assert frame[0] == rx[i] && frame[1..] == f[..4];
    assert frame == [HEADER_ACK, HEADER_ACK, 0, 0, 0x06];
    DecodesEarly();
  }

  lemma {:induction false} DecodesEarly()
    ensures Decoded([HEADER_ACK, HEADER_ACK, 0, 0, 0x06]) == GotAck(Ack(HEADER_ACK, STATUS_OK, 0))
  {
    hide Crc;
    CrcValues();
    var frame: Bytes := [HEADER_ACK, HEADER_ACK, 0, 0, 0x06];
    assert frame[1..4] == [HEADER_ACK, 0, 0];
  }

  lemma {:induction false} CounterBytes(low: nat)
    ensures ByteOf(256 * low + 255) == 0xFF && ByteOf(256 * low + 256) == 0
    ensures ByteOf(256 * low) == 0 && ByteOf(256 * low + 1) == 1
  {
    hide ByteOf;
    ByteOfEqual(256 * low + 255, 255);
    ByteOfEqual(256 * low + 256, 0);
    ByteOfEqual(256 * low, 0);
    ByteOfEqual(256 * low + 1, 1);
    SmallBytes();
  }

  lemma {:induction false} SmallBytes()
    ensures ByteOf(0) == 0 && ByteOf(1) == 1 && ByteOf(255) == 0xFF
  {
    ByteOfNatOf(0xFF);
    assert NatOf(0xFF) == 255;
  }

  /** The first of two calls leaves one header byte at the end of the line. */
  lemma {:induction false} StraddleFirst(d: Device, rx: Bytes, i: nat, counter: nat) returns (j: nat)
    requires !d.hasLastAck && Straddles(rx, i) && ByteOf(counter) == 0xFF
    ensures var s := Invoke(Link(d, rx), LiveCall(counter, 0x30));
      Straddles(s.rx, j) && |s.rx| == j + 1 && s.dev.lastSeq == 0xFF
  {
    j := |rx| - i - 1;
    hide Invoke, ReadAck, AckFrame, ByteOf, LiveCall;
    LiveRun(d, rx, counter, 0x30);
    LeavesOneHeader(rx, i);
  }

  /** The second is confirmed as another call. */
  lemma {:induction false} StraddleSecond(d: Device, rx: Bytes, i: nat, counter: nat)
    requires d.lastSeq == 0xFF && Straddles(rx, i) && |rx| == i + 1 && ByteOf(counter) == 0
    ensures EndsFalse(Link(d, rx), [LiveCall(counter, 0x06)])
  {
    hide Invoke, ReadAck, AckFrame, ByteOf, EndsFalse, Straddles;
    LiveRun(d, rx, counter, 0x06);
    ReadsOneEarly(rx, i);
    FalseIf(Link(d, rx), LiveCall(counter, 0x06), Ack(HEADER_ACK, STATUS_OK, 0));
  }

  lemma {:induction false} StraddleFalse(d: Device, rx: Bytes, i: nat, low: nat) returns (calls: seq<Call>)
    requires !d.hasLastAck && Straddles(rx, i)
    ensures PromptRun(calls) && EndsFalse(Link(d, rx), calls) && calls != [] && calls[0].counter >= low
  {
    hide *;
    var k := 256 * low + 255;
    CounterBytes(low);
    var one, two := LiveCall(k, 0x30), LiveCall(k + 1, 0x06);
    var j := StraddleFirst(d, rx, i, k);
    var s := Invoke(Link(d, rx), one);
    StraddleSecond(s.dev, s.rx, j, k + 1);
    CallsArePrompt(k, 0x30);
    CallsArePrompt(k + 1, 0x06);
    CountersOf(k, 0x30);
    CountersOf(k + 1, 0x06);
    calls := TwoCalls(Link(d, rx), one, two);
  }

  lemma {:induction false} TwoCalls(start: Link, one: Call, two: Call) returns (calls: seq<Call>)
    requires PromptCall(one) && PromptCall(two) && two.counter == one.counter + 1
    requires var s := Invoke(start, one); EndsFalse(Link(s.dev, s.rx), [two])
    ensures PromptRun(calls) && EndsFalse(start, calls) && calls != [] && calls[0] == one
  {
    hide *;
    LinkOfIs(Invoke(start, one));
    EndsFalseFirst(start, one, [two]);
    PromptOne(two);
    PromptFirst(one, [two]);
    calls := [one] + [two];
  }

  lemma {:induction false} Constants()
    ensures STATUS_OK != STATUS_ERROR && HEADER_ACK != 0
  {
  }

  lemma {:induction false} LiveAckIs(counter: nat, queueDepth: bv8)
    ensures LiveAck(counter, queueDepth) == Ack(ByteOf(counter), STATUS_OK, queueDepth)
  {
  }

  lemma {:induction false} LinkOfIs(s: SessionRun)
    ensures LinkOf(s) == Link(s.dev, s.rx)
  {
  }

  lemma {:induction false} CountersOf(counter: nat, queueDepth: bv8)
    ensures LiveCall(counter, queueDepth).counter == counter && LostCall(counter).counter == counter
  {
  }

  lemma {:induction false} FalseIf(start: Link, c: Call, a: Ack)
    requires Invoke(start, c).result == Acked(a) && a.status != STATUS_ERROR && a.seqNo != ByteOf(c.counter)
    ensures EndsFalse(start, [c])
  {
    hide Invoke, ByteOf;
    EndsFalseOne(start, c);
  }

  lemma {:induction false} PromptOne(c: Call)
    requires PromptCall(c)
    ensures PromptRun([c])
  {
    hide CarriesAll, LockstepAll, Req;
  }

  // ---- every harmful rest -------------------------------------------------------------------------

  /** A confirmation that is there already answers the next call, whose sequence byte can be another. */
  lemma {:induction false} StaleFalse(d: Device, rx: Bytes, low: nat) returns (calls: seq<Call>)
    requires ReadAck(rx).0.GotAck? && ReadAck(rx).0.ack.status != STATUS_ERROR
    ensures PromptRun(calls) && EndsFalse(Link(d, rx), calls) && calls != [] && calls[0].counter >= low
  {
    hide *;
    CounterBytes(low);
    var a := ReadAck(rx).0.ack;
    var k := if a.seqNo == 0 then 256 * low + 1 else 256 * low;
    LostRun(d, rx, k);
    CountersOf(k, 0);
    FalseIf(Link(d, rx), LostCall(k), a);
    CallsArePrompt(k, 0);
    PromptOne(LostCall(k));
    calls := [LostCall(k)];
  }

  /** A read that leaves a harmless rest leaves this call's own acknowledgement too, and the next call is told that. */
  lemma {:induction false} OwnAckFalse(d: Device, rx: Bytes, low: nat) returns (calls: seq<Call>)
    requires !d.hasLastAck && SelfContained(rx) && Harmless(rx[ReadAck(rx).1..])
    ensures PromptRun(calls) && EndsFalse(Link(d, rx), calls) && calls != [] && calls[0].counter >= low
  {
    var rest := rx[ReadAck(rx).1..];
    assert NoHeader(rest) && |rest| < 5;
    hide *;
    CounterBytes(low);
    var k := 256 * low;
    var one, two, frame := LiveCall(k, 0), LostCall(k + 1), AckFrame(LiveAck(k, 0));
    LiveRun(d, rx, k, 0);
    SelfContainedRead(rx, frame);
    var s := Invoke(Link(d, rx), one);
    DropFirst(rx, frame, ReadAck(rx).1);
    assert rest + frame + [] == rest + frame;
    ReadAckAfterJunk(rest, LiveAck(k, 0), []);
    LostRun(s.dev, s.rx, k + 1);
    LiveAckIs(k, 0);
    Constants();
    CountersOf(k + 1, 0);
    FalseIf(Link(s.dev, s.rx), two, LiveAck(k, 0));
    CallsArePrompt(k, 0);
    CallsArePrompt(k + 1, 0);
    CountersOf(k, 0);
    calls := TwoCalls(Link(d, rx), one, two);
  }

  lemma {:induction false} DropFirst(rx: Bytes, more: Bytes, n: nat)
    requires n <= |rx|
    ensures (rx + more)[n..] == rx[n..] + more
  {
  }

  /** From every harmful rest some prompt run ends in a false confirmation. */
  lemma {:induction false} HarmfulEndsFalse(d: Device, rx: Bytes, low: nat) returns (calls: seq<Call>)
    requires !d.hasLastAck && !Harmless(rx)
    ensures PromptRun(calls) && EndsFalse(Link(d, rx), calls) && calls != [] && calls[0].counter >= low
    decreases |rx|
  {
    hide *;
    var i := HarmfulCases(rx);
    if Straddles(rx, i) {
      calls := StraddleFalse(d, rx, i, low);
    } else {
      SelfContainedRead(rx, []);
      var (outcome, n) := ReadAck(rx);
      if outcome.GotAck? && outcome.ack.status != STATUS_ERROR {
        calls := StaleFalse(d, rx, low);
      } else if Harmless(rx[n..]) {
        calls := OwnAckFalse(d, rx, low);
      } else {
        var later := HarmfulEndsFalse(d, rx[n..], low + 1);
        var k := later[0].counter - 1;
        LostRun(d, rx, k);
        LinkOfIs(Invoke(Link(d, rx), LostCall(k)));
        EndsFalseFirst(Link(d, rx), LostCall(k), later);
        CallsArePrompt(k, 0);
        CountersOf(k, 0);
        PromptFirst(LostCall(k), later);
        calls := [LostCall(k)] + later;
      }
    }
  }

  lemma {:induction false} FalseRun(d: Device, rx: Bytes, calls: seq<Call>)
    requires DeviceOk(d) && PromptRun(calls) && EndsFalse(Link(d, rx), calls)
    ensures !TruthfulRuns(rx)
  {
    hide DeviceOk, PromptRun, ConfirmedAsItself, CallRun;
    var n: nat := |calls| - 1;
    assert !ConfirmedAsItself(CallRun(Link(d, rx), calls, n), calls[n]);
  }

  /**
    Confirmations are truthful over every prompt run if and only if the line starts out with fewer than five bytes and
    no header byte: from any other rest some run of lost and undisturbed exchanges ends in a confirmation that names
    another call.
   */
  lemma {:induction false} TruthfulRunsIff(rx: Bytes)
    ensures TruthfulRuns(rx) <==> Harmless(rx)
  {
    hide DeviceOk, Harmless, CallRun, PromptRun, ConfirmedAsItself;
    if Harmless(rx) {
      forall d: Device, calls: seq<Call>, n: nat | DeviceOk(d) && PromptRun(calls) && n < |calls|
        ensures ConfirmedAsItself(CallRun(Link(d, rx), calls, n), calls[n])
      {
        HarmlessRun(d, rx, calls, n);
      }
    } else {
      var d := Device(false, 0, []);
      NoCacheOk(d);
      var calls := HarmfulEndsFalse(d, rx, 0);
      FalseRun(d, rx, calls);
    }
  }

  lemma {:induction false} HarmlessRun(d: Device, rx: Bytes, calls: seq<Call>, n: nat)
    requires DeviceOk(d) && PromptRun(calls) && n < |calls| && Harmless(rx)
    ensures ConfirmedAsItself(CallRun(Link(d, rx), calls, n), calls[n])
  {
    hide DeviceOk, Harmless, CallRun, CallsCarry, CallsLockstep;
    CallResult(Link(d, rx), calls, n);
  }
}
