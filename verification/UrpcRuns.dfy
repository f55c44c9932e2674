/** Whole runs of commands over one line: what gets executed, what the callers are told, and when that is true. */
module UrpcRuns {
  import opened Octets
  import opened Crc8
  import opened UrpcFrames
  import opened UrpcAgent
  import opened UrpcAnswers
  import opened SerialPort
  import opened UrpcBridge
  import opened UrpcLink

  /** One invocation: the value its bump of the shared counter returned, the command, and the line's doings. */
  datatype Call = Call(counter: nat, cmd: bv8, payload: Bytes, fates: seq<Fate>)

  /** Both ends between calls. */
  datatype Link = Link(dev: Device, rx: Bytes)

  /** The counter's own 32-bit wrap-around does not show in the sequence byte. */
  lemma {:induction false} CounterWrapHarmless(bumps: nat)
    ensures ByteOf(bumps % 0x1_0000_0000 % 256) == ByteOf(bumps)
  {
    hide ByteOf;
    ByteOfEqual(bumps % 0x1_0000_0000 % 256, bumps);
  }

  function Req(c: Call): Request {
    Request(ByteOf(c.counter), c.cmd, c.payload)
  }

  /** A request the encoder refuses touches neither end. */
  function Invoke(link: Link, c: Call): SessionRun {
    if |c.payload| > MAX_PAYLOAD then SessionRun(link.dev, EncodeError, [], link.rx, 0)
    else Session(link.dev, link.rx, c.fates)
  }

  function LinkAfter(start: Link, calls: seq<Call>, n: nat): Link
    requires n <= |calls|
  {
    if n == 0 then start
    else
      var s := Invoke(LinkAfter(start, calls, n - 1), calls[n - 1]);
      Link(s.dev, s.rx)
  }

  /** Call n of the run. */
  function CallRun(start: Link, calls: seq<Call>, n: nat): SessionRun
    requires n < |calls|
  {
    Invoke(LinkAfter(start, calls, n), calls[n])
  }

  ghost predicate CallsCarry(calls: seq<Call>) {
    forall i :: 0 <= i < |calls| ==> CarriesAll(Req(calls[i]), calls[i].fates)
  }

  ghost predicate CallsLockstep(calls: seq<Call>) {
    forall i :: 0 <= i < |calls| ==> LockstepAll(calls[i].fates)
  }

  /** Call n got through: some attempt it made delivered its request. */
  ghost predicate Reached(start: Link, calls: seq<Call>, n: nat)
    requires n < |calls|
  {
    var k := CallRun(start, calls, n).tried;
    k <= |calls[n].fates| && AnyDelivers(calls[n].fates[..k])
  }

  /** The last of the first n calls that got through to the firmware. */
  ghost function LastReached(start: Link, calls: seq<Call>, n: nat): (r: Option<nat>)
    requires n <= |calls|
    ensures r.Some? ==> r.value < n
  {
    if n == 0 then None
    else if Reached(start, calls, n - 1) then Some(n - 1)
    else LastReached(start, calls, n - 1)
  }

  lemma {:induction false} LastReachedIs(start: Link, calls: seq<Call>, n: nat, j: nat)
    requires j < n <= |calls|
    ensures var last := LastReached(start, calls, n);
      && (last.Some? ==> Reached(start, calls, last.value))
      && (Reached(start, calls, j) ==> last.Some? && j <= last.value)
  {
    hide Reached;
    if j < n - 1 {
      LastReachedIs(start, calls, n - 1, j);
    } else if j > 0 {
      LastReachedIs(start, calls, n - 1, j - 1);
    }
  }

  lemma {:induction false} CallDispatch(start: Link, calls: seq<Call>, n: nat)
    requires CallsCarry(calls) && n < |calls|
    ensures var s, d, r := CallRun(start, calls, n), LinkAfter(start, calls, n).dev, Req(calls[n]);
      && s.dispatched == (if Reached(start, calls, n) && !Clashes(d, r) then [r] else [])
      && (if Reached(start, calls, n) then Clashes(s.dev, r) else s.dev == d)
  {
    hide Session, LinkAfter, Clashes, ByteOf;
    var link := LinkAfter(start, calls, n);
    if |calls[n].payload| <= MAX_PAYLOAD {
      SessionDispatch(link.dev, link.rx, Req(calls[n]), calls[n].fates);
    }
  }

  /** The firmware's cache names the last call that got through. */
  lemma {:induction false} CacheAfter(start: Link, calls: seq<Call>, n: nat)
    requires !start.dev.hasLastAck && CallsCarry(calls) && n <= |calls|
    ensures var d, last := LinkAfter(start, calls, n).dev, LastReached(start, calls, n);
      && (d.hasLastAck <==> last.Some?)
      && (last.Some? ==> d.lastSeq == ByteOf(calls[last.value].counter))
  {
    hide ByteOf, Invoke, Reached;
    if n > 0 {
      CacheAfter(start, calls, n - 1);
      CallDispatch(start, calls, n - 1);
    }
  }

  /**
    Over every run from power-up whose chunks are the running call's own frame or rejected, with late replies and any
    leftovers: call n is executed exactly once if it gets through and its counter differs modulo 256 from that of the
    last call before it that got through, and otherwise not at all.
   */
  lemma {:induction false} RunExecutesOnce(start: Link, calls: seq<Call>, n: nat)
    requires !start.dev.hasLastAck && CallsCarry(calls) && n < |calls|
    ensures var last := LastReached(start, calls, n);
      CallRun(start, calls, n).dispatched ==
        if Reached(start, calls, n) && (last.Some? ==> calls[last.value].counter % 256 != calls[n].counter % 256)
        then [Req(calls[n])] else []
  {
    hide ByteOf, CallRun, LinkAfter, Reached, CallsCarry;
    CacheAfter(start, calls, n);
    CallDispatch(start, calls, n);
    var last := LastReached(start, calls, n);
    if last.Some? {
      ByteOfEqual(calls[last.value].counter, calls[n].counter);
    }
  }

  ghost predicate Consecutive(calls: seq<Call>) {
    forall i :: 0 < i < |calls| ==> calls[i].counter == calls[i - 1].counter + 1
  }

  lemma {:induction false} ModApart(a: nat, k: nat)
    requires 0 < k <= 256
    ensures (a + k) % 256 == a % 256 <==> k == 256
  {
  }

  lemma {:induction false} CountersApart(calls: seq<Call>, i: nat, n: nat)
    requires i <= n < |calls|
    requires Consecutive(calls)
    ensures calls[n].counter == calls[i].counter + (n - i)
    decreases n
  {
    if i < n {
      CountersApart(calls, i, n - 1);
    }
  }

  lemma {:induction false} CountersModulo(calls: seq<Call>, i: nat, n: nat)
    requires i < n < |calls| && n - i <= 256 && Consecutive(calls)
    ensures calls[i].counter % 256 == calls[n].counter % 256 <==> n - i == 256
  {
    hide Consecutive;
    CountersApart(calls, i, n);
    ModApart(calls[i].counter, n - i);
  }

  /** With consecutive counters and fewer than 255 calls in a row lost, the calls that get through are executed. */
  lemma {:induction false} ReachedMeansExecuted(start: Link, calls: seq<Call>, n: nat)
    requires !start.dev.hasLastAck && CallsCarry(calls) && n < |calls|
    requires Consecutive(calls)
    requires var last := LastReached(start, calls, n); last.Some? ==> n - last.value - 1 < 255
    ensures CallRun(start, calls, n).dispatched == if Reached(start, calls, n) then [Req(calls[n])] else []
  {
    hide *;
    RunExecutesOnce(start, calls, n);
    var last := LastReached(start, calls, n);
    if last.Some? {
      CountersModulo(calls, last.value, n);
    }
  }

  /** On prompt lines a harmless rest stays harmless, and the cache sound. */
  lemma {:induction false} LinkStaysSound(start: Link, calls: seq<Call>, n: nat)
    requires DeviceOk(start.dev) && Harmless(start.rx) && CallsCarry(calls) && CallsLockstep(calls) && n <= |calls|
    ensures DeviceOk(LinkAfter(start, calls, n).dev) && Harmless(LinkAfter(start, calls, n).rx)
  {
    hide Session, DeviceOk, LockstepAll, CarriesAll, NoHeader, ByteOf;
    if n > 0 {
      LinkStaysSound(start, calls, n - 1);
      var link, c := LinkAfter(start, calls, n - 1), calls[n - 1];
      NoHeaderEmpty();
      SessionDeviceOk(link.dev, link.rx, c.fates);
      SessionResult(link.dev, link.rx, Req(c), c.fates);
    }
  }

  /** What call n of a run on prompt lines is told. */
  lemma {:induction false} CallResult(start: Link, calls: seq<Call>, n: nat)
    requires DeviceOk(start.dev) && Harmless(start.rx) && CallsCarry(calls) && CallsLockstep(calls) && n < |calls|
    ensures var s, fates := CallRun(start, calls, n), calls[n].fates;
      var k := FirstEnding(fates);
      && (Confirmed(s.result) <==>
            |calls[n].payload| <= MAX_PAYLOAD && k < |fates| && Answered(fates[k]) && Delivers(fates[k]))
      && (Confirmed(s.result) ==> s.result.ack.seqNo == ByteOf(calls[n].counter) && Reached(start, calls, n))
  {
    hide Session, LinkAfter, DeviceOk, LockstepAll, CarriesAll, Harmless, ByteOf, Delivers, AnyDelivers, FirstEnding;
    LinkStaysSound(start, calls, n);
    var link, fates := LinkAfter(start, calls, n), calls[n].fates;
    var k := FirstEnding(fates);
    if |calls[n].payload| <= MAX_PAYLOAD {
      SessionResult(link.dev, link.rx, Req(calls[n]), fates);
      if k < |fates| && Answered(fates[k]) && Delivers(fates[k]) {
        EndingReached(fates, k);
      }
    }
  }

  // ---- what a confirmation carries ---------------------------------------------------------------

  /** The acknowledgement of the command's execution at this arrival. */
  function ExecutionAck(r: Request, a: Arrival): Ack {
    Ack(r.seqNo, DispatchStatus(r), a.queueDepth)
  }

  /** The two outcomes on the command's own bytes. */
  lemma {:induction false} StatusBytes(r: Request)
    ensures var p := r.payload;
      DispatchStatus(r) ==
        if r.cmd == 0xB1 || (r.cmd == 0xA1 && (|p| < 2 || (1 <= p[0] <= 3 && p[1] <= 1))) then 0x00 else 0x02
  {
  }

  /** One chunk of the request: executed and acknowledged, or answered from the cache. */
  lemma {:induction false} HandleRequest(d: Device, r: Request, f: Fate)
    requires f.Made? && |f.chunks| == 1 && Carries(r, f) && Delivers(f)
    ensures var x := Handle(d, f.chunks);
      var ack := AckFrame(ExecutionAck(r, f.chunks[0]));
      if Clashes(d, r) then x.dev == d && x.replies == d.lastAck
      else x.dev == Device(true, r.seqNo, ack) && x.replies == ack
  {
    hide Parse, AckFrame, DispatchStatus, DispatchPins;
    var c := f.chunks[0];
    assert f.chunks == [c];
    HandleOne(d, c);
    assert Parse(Handed(f)[0].chunk).Valid?;
  }

  /** Once the command has run, every confirmation of the session is the cached acknowledgement. */
  lemma {:induction false} CachedSession(d: Device, rx: Bytes, r: Request, fates: seq<Fate>, a: Ack)
    requires CarriesAll(r, fates) && LockstepAll(fates) && Harmless(rx)
    requires DeviceOk(d) && Clashes(d, r) && d.lastAck == AckFrame(a)
    ensures Confirmed(Session(d, rx, fates).result) ==> Session(d, rx, fates).result.ack == a
    decreases |fates|
  {
    hide Session, Handle, Handed, TurnOf, ReadAck, DeviceOk, Lockstep, Carries, Delivers, NoHeader, AckFrame;
    hide HeaderBehind;
    SessionStops(d, rx, fates);
    if fates != [] && fates[0].Made? {
      SessionStep(d, rx, fates);
      FateEffect(d, r, fates[0]);
      ReadEffect(d, rx, fates[0]);
      if Answered(fates[0]) {
        if Delivers(fates[0]) {
          HandleRequest(d, r, fates[0]);
          ReadReply(d, rx, fates[0], a);
        }
      } else {
        NoHeaderEmpty();
        HandedMade(fates[0]);
        CachedSession(d, [], r, fates[1..], a);
      }
    }
  }

  lemma {:induction false} HandedMade(f: Fate)
    requires f.Made?
    ensures Handed(f) == f.chunks
  {
  }

  lemma {:induction false} ReadReply(d: Device, rx: Bytes, f: Fate, a: Ack)
    requires Harmless(rx) && Answered(f) && Handle(d, f.chunks).replies == AckFrame(a)
    ensures ReadAck(rx + TurnOf(d, f).bytes).0 == GotAck(a)
  {
    hide ReadAck, AckFrame, Handle, NoHeader;
    ReadAckAfterJunk(rx, a, []);
    assert rx + AckFrame(a) + [] == rx + AckFrame(a);
  }

  /**
    A confirmed call on a prompt line is told the status and the queue depth of the execution itself, which happened in
    its first attempt that delivered, even if a later attempt was the first to be answered.
   */
  lemma {:induction false} SessionAnswer(d: Device, rx: Bytes, r: Request, fates: seq<Fate>) returns (j: nat)
    requires DeviceOk(d) && CarriesAll(r, fates) && LockstepAll(fates) && Harmless(rx) && !Clashes(d, r)
    requires Confirmed(Session(d, rx, fates).result)
    ensures j < |fates| && fates[j].Made? && |fates[j].chunks| == 1 && Delivers(fates[j])
    ensures forall i :: 0 <= i < j ==> !Delivers(fates[i])
    ensures Session(d, rx, fates).result.ack == ExecutionAck(r, fates[j].chunks[0])
    decreases |fates|
  {
    hide Session, Handle, Handed, TurnOf, ReadAck, DeviceOk, Carries, Delivers, NoHeader, AckFrame, HeaderBehind;
    SessionStops(d, rx, fates);
    SessionStep(d, rx, fates);
    ReadEffect(d, rx, fates[0]);
    FateEffect(d, r, fates[0]);
    HandedMade(fates[0]);
    NoHeaderEmpty();
    if Delivers(fates[0]) {
      j := 0;
      DeliveredHasChunk(fates[0]);
      HandleRequest(d, r, fates[0]);
      HandleDeviceOk(d, fates[0].chunks);
      var ack := ExecutionAck(r, fates[0].chunks[0]);
      if Answered(fates[0]) {
        ReadReply(d, rx, fates[0], ack);
      } else {
        CachedSession(Handle(d, fates[0].chunks).dev, [], r, fates[1..], ack);
      }
    } else {
      j := SessionAnswer(d, [], r, fates[1..]);
      j := j + 1;
    }
  }

  lemma {:induction false} DeliveredHasChunk(f: Fate)
    requires Delivers(f)
    ensures |Handed(f)| >= 1
  {
  }

  /**
    On prompt lines that start out harmless, with consecutive counters and fewer than 255 calls in a row lost: a
    confirmed call names its own sequence byte, was executed exactly once, and is told status and queue depth of that
    execution.
   */
  lemma {:induction false} ConfirmedMeansExecuted(start: Link, calls: seq<Call>, n: nat)
    requires !start.dev.hasLastAck && Harmless(start.rx) && CallsCarry(calls) && CallsLockstep(calls) && n < |calls|
    requires Consecutive(calls)
    requires var last := LastReached(start, calls, n); last.Some? ==> n - last.value - 1 < 255
    ensures var s := CallRun(start, calls, n);
      Confirmed(s.result) ==>
        && s.result.ack.seqNo == ByteOf(calls[n].counter)
        && s.dispatched == [Req(calls[n])]
        && ToldOfExecution(s.result.ack, Req(calls[n]), calls[n].fates)
  {
    NoCacheOk(start.dev);
    hide *;
    ReachedMeansExecuted(start, calls, n);
    CallResult(start, calls, n);
    if Confirmed(CallRun(start, calls, n).result) {
      CallAnswer(start, calls, n);
    }
  }

  /** The acknowledgement is that of the execution in the first attempt that delivered the request. */
  ghost predicate ToldOfExecution(a: Ack, r: Request, fates: seq<Fate>) {
    exists j :: 0 <= j < |fates| && ExecutedIn(a, r, fates, j)
  }

  ghost predicate ExecutedIn(a: Ack, r: Request, fates: seq<Fate>, j: nat)
    requires j < |fates|
  {
    && fates[j].Made? && |fates[j].chunks| == 1 && Delivers(fates[j])
    && (forall i :: 0 <= i < j ==> !Delivers(fates[i]))
    && a == ExecutionAck(r, fates[j].chunks[0])
  }

  lemma {:induction false} CallAnswer(start: Link, calls: seq<Call>, n: nat)
    requires DeviceOk(start.dev) && Harmless(start.rx) && CallsCarry(calls) && CallsLockstep(calls) && n < |calls|
    requires Confirmed(CallRun(start, calls, n).result) && CallRun(start, calls, n).dispatched == [Req(calls[n])]
    ensures ToldOfExecution(CallRun(start, calls, n).result.ack, Req(calls[n]), calls[n].fates)
  {
    hide Session, LinkAfter, DeviceOk, LockstepAll, CarriesAll, Harmless, ByteOf, Delivers, AnyDelivers, DispatchStatus;
    LinkStaysSound(start, calls, n);
    CallDispatch(start, calls, n);
    var link, c := LinkAfter(start, calls, n), calls[n];
    var j := SessionAnswer(link.dev, link.rx, Req(c), c.fates);
    assert ExecutedIn(CallRun(start, calls, n).result.ack, Req(c), c.fates, j);
  }

  /**
    The bound is sharp: after exactly 255 lost calls the next one is taken for a repetition and never executed, and
    on a prompt line it is confirmed all the same as soon as an attempt of it that gets through is answered.
   */
  lemma {:induction false} WrapSuppresses(start: Link, calls: seq<Call>, n: nat)
    requires !start.dev.hasLastAck && CallsCarry(calls) && n < |calls|
    requires Consecutive(calls)
    requires var last := LastReached(start, calls, n); last.Some? && n - last.value - 1 == 255
    ensures CallRun(start, calls, n).dispatched == []
    ensures var fates, k := calls[n].fates, FirstEnding(calls[n].fates);
      && Harmless(start.rx) && CallsLockstep(calls) && |calls[n].payload| <= MAX_PAYLOAD
      && k < |fates| && Answered(fates[k]) && Delivers(fates[k]) ==>
        Confirmed(CallRun(start, calls, n).result)
  {
    NoCacheOk(start.dev);
    hide *;
    RunExecutesOnce(start, calls, n);
    var last := LastReached(start, calls, n);
    CountersModulo(calls, last.value, n);
    if Harmless(start.rx) && CallsLockstep(calls) {
      CallResult(start, calls, n);
    }
  }

  /** The call's first attempt gets through undisturbed in one chunk, and its reply comes back at once. */
  ghost predicate Undisturbed(c: Call) {
    |c.payload| <= MAX_PAYLOAD && c.fates != [] && Answered(c.fates[0]) && Delivers(c.fates[0])
  }

  /**
    One acknowledgement left over shifts everything after it: in a run of undisturbed calls every one of them is
    told the answer to the call before it, a confirmation with the wrong sequence byte, for as long as the run lasts.
   */
  lemma {:induction false} AnswersLagBehind(start: Link, stale: Ack, calls: seq<Call>, n: nat) returns (b: Ack)
    requires DeviceOk(start.dev) && start.rx == AckFrame(stale) && CallsCarry(calls) && n < |calls|
    requires forall i :: 0 <= i < |calls| ==> Undisturbed(calls[i])
    ensures CallRun(start, calls, n).result == Acked(b)
    ensures n == 0 ==> b == stale
    ensures n > 0 ==> b.seqNo == ByteOf(calls[n - 1].counter) && b.status != STATUS_ERROR
    ensures n > 0 && Consecutive(calls) ==> b.seqNo != ByteOf(calls[n].counter)
  {
    hide DeviceOk, CallsCarry, LinkAfter, Session, AckFrame, Delivers, Answered, ByteOf;
    b := LeftOver(start, stale, calls, n);
    LateReplyWins(LinkAfter(start, calls, n).dev, b, calls[n].fates) by { AnsweredIsMade(calls[n]); }
    if n > 0 {
      ByteOfEqual(calls[n - 1].counter, calls[n].counter);
      if Consecutive(calls) {
        ModApart(calls[n - 1].counter, 1);
      }
    }
  }

  lemma {:induction false} AnsweredIsMade(c: Call)
    requires Undisturbed(c)
    ensures c.fates[0].Made? && |c.fates[0].chunks| == 1 && Handed(c.fates[0]) == c.fates[0].chunks
    ensures forall d :: TurnOf(d, c.fates[0]) == Reply(Handle(d, c.fates[0].chunks).replies)
  {
  }

  /** The acknowledgement left over before call n. */
  lemma {:induction false} LeftOver(start: Link, stale: Ack, calls: seq<Call>, n: nat) returns (b: Ack)
    requires DeviceOk(start.dev) && start.rx == AckFrame(stale) && CallsCarry(calls) && n <= |calls|
    requires forall i :: 0 <= i < |calls| ==> Undisturbed(calls[i])
    ensures var link := LinkAfter(start, calls, n); DeviceOk(link.dev) && link.rx == AckFrame(b)
    ensures n == 0 ==> b == stale
    ensures n > 0 ==> b.seqNo == ByteOf(calls[n - 1].counter) && b.status != STATUS_ERROR
  {
    hide DeviceOk, Session, AckFrame, Handle, Handed, TurnOf, Carries, Delivers, Answered, ByteOf;
    if n == 0 {
      b := stale;
    } else {
      var a := LeftOver(start, stale, calls, n - 1);
      var link, c := LinkAfter(start, calls, n - 1), calls[n - 1];
      AnsweredIsMade(c);
      b := OneReply(link.dev, c.fates[0]);
      assert Carries(Req(c), c.fates[0]);
      LateReplyWins(link.dev, a, c.fates);
      HandleDeviceOk(link.dev, c.fates[0].chunks);
    }
  }

  // ---- any FIFO line: frames of earlier calls may come late -----------------------------------

  /** What the firmware was handed in the first k attempts. */
  function HandedIn(fates: seq<Fate>, k: nat): seq<Arrival>
    decreases |fates|
  {
    if fates == [] || k == 0 then [] else Handed(fates[0]) + HandedIn(fates[1..], k - 1)
  }

  lemma {:induction false} SessionIsTrace(d: Device, rx: Bytes, fates: seq<Fate>)
    ensures var s := Session(d, rx, fates);
      var trace := HandedIn(fates, s.tried);
      s.dev == Run(d, trace) && s.dispatched == Commands(d, trace)
    decreases |fates|
  {
    hide Session, ReadAck, Handle, Handed, TurnOf, Run, Commands;
    SessionStops(d, rx, fates);
    RunNone(d);
    if fates != [] && !fates[0].Over? {
      HandleIsRun(d, Handed(fates[0]));
      HandedOne(fates);
      if fates[0].Made? {
        SessionStep(d, rx, fates);
        var x, stream := Handle(d, Handed(fates[0])), rx + TurnOf(d, fates[0]).bytes;
        var rest := stream[ReadAck(stream).1..];
        SessionIsTrace(x.dev, rest, fates[1..]);
        RunConcat(d, Handed(fates[0]), HandedIn(fates[1..], Session(x.dev, rest, fates[1..]).tried));
      }
    }
  }

  lemma {:induction false} HandedOne(fates: seq<Fate>)
    requires fates != []
    ensures HandedIn(fates, 0) == [] && HandedIn(fates, 1) == Handed(fates[0])
    ensures fates[0].Failed? ==> Handed(fates[0]) == fates[0].chunks
  {
    assert HandedIn(fates[1..], 0) == [];
  }

  /** All that reached the firmware in the first n calls, each chunk with the call it was written in. */
  function RunTrace(start: Link, calls: seq<Call>, n: nat): seq<Arrival>
    requires n <= |calls|
  {
    if n == 0 then []
    else RunTrace(start, calls, n - 1) + HandedIn(calls[n - 1].fates, CallRun(start, calls, n - 1).tried)
  }

  /** All that was executed in the first n calls. */
  function Executed(start: Link, calls: seq<Call>, n: nat): seq<Request>
    requires n <= |calls|
  {
    if n == 0 then [] else Executed(start, calls, n - 1) + CallRun(start, calls, n - 1).dispatched
  }

  /** A run of the composed system is the firmware's run over what reached it. */
  lemma {:induction false} RunIsTrace(start: Link, calls: seq<Call>, n: nat)
    requires n <= |calls|
    ensures LinkAfter(start, calls, n).dev == Run(start.dev, RunTrace(start, calls, n))
    ensures Executed(start, calls, n) == Commands(start.dev, RunTrace(start, calls, n))
  {
    hide Session, HandedIn, Run, Commands;
    RunNone(start.dev);
    if n > 0 {
      RunIsTrace(start, calls, n - 1);
      var link, c := LinkAfter(start, calls, n - 1), calls[n - 1];
      InvokeIsTrace(link, c);
      RunConcat(start.dev, RunTrace(start, calls, n - 1), HandedIn(c.fates, Invoke(link, c).tried));
    }
  }

  lemma {:induction false} InvokeIsTrace(link: Link, c: Call)
    ensures var s := Invoke(link, c);
      var trace := HandedIn(c.fates, s.tried);
      s.dev == Run(link.dev, trace) && s.dispatched == Commands(link.dev, trace)
  {
    hide Session, Run, Commands;
    SessionIsTrace(link.dev, link.rx, c.fates);
    RunNone(link.dev);
    assert HandedIn(c.fates, 0) == [];
  }

  function Reqs(calls: seq<Call>): seq<Request> {
    seq(|calls|, i requires 0 <= i < |calls| => Req(calls[i]))
  }

  /** What of the run was executed for call s. */
  function Share(start: Link, calls: seq<Call>, s: nat): seq<Request> {
    Dispatches(start.dev, RunTrace(start, calls, |calls|), s)
  }

  /**
    Whatever a FIFO line delivers during a run, frames of earlier calls included: the commands are executed in the order
    of their calls, each at most once, and nothing else is.
   */
  lemma {:induction false} RunInOrder(start: Link, calls: seq<Call>)
    requires FifoTrace(RunTrace(start, calls, |calls|), Reqs(calls))
    ensures Executed(start, calls, |calls|) == BySession(start.dev, RunTrace(start, calls, |calls|), |calls|)
    ensures forall s :: 0 <= s < |calls| ==> Share(start, calls, s) in {[], [Req(calls[s])]}
  {
    hide RunTrace, FifoTrace, Dispatches, Req;
    RunIsTrace(start, calls, |calls|);
    ExecutedInOrder(start.dev, RunTrace(start, calls, |calls|), Reqs(calls));
    assert forall s :: 0 <= s < |calls| ==> Reqs(calls)[s] == Req(calls[s]);
  }

  /** And each relay has the level that the last executed valid order for it asks for. */
  lemma {:induction false} RunRelays(start: Link, calls: seq<Call>, p: bv8)
    ensures Level(Pins(start.dev, RunTrace(start, calls, |calls|)), p)
      == LastOrder(Executed(start, calls, |calls|), p)
  {
    hide *;
    RunIsTrace(start, calls, |calls|);
    RelayFollowsOrders(start.dev, RunTrace(start, calls, |calls|), p);
  }

  /**
    Over every such run from power-up: call s is executed exactly once if a frame of it reaches the firmware intact, in
    whichever call, and its counter differs modulo 256 from that of the call seen last before, else not at all.
   */
  lemma {:induction false} RunDispatchesExactly(start: Link, calls: seq<Call>, s: nat, lo: nat, hi: nat)
    requires !start.dev.hasLastAck && s < |calls|
    requires FifoTrace(RunTrace(start, calls, |calls|), Reqs(calls))
    requires Blocks(RunTrace(start, calls, |calls|), s, lo, hi)
    ensures lo <= hi <= |RunTrace(start, calls, |calls|)|
    ensures var trace := RunTrace(start, calls, |calls|);
      var m := LastIntact(trace[..lo]);
      && (m.Some? ==> m.value < |calls|)
      && Share(start, calls, s) ==
           if AnyIntact(trace, lo, hi) && (m.Some? ==> calls[m.value].counter % 256 != calls[s].counter % 256)
           then [Req(calls[s])] else []
  {
    var trace, reqs := RunTrace(start, calls, |calls|), Reqs(calls);
    BlockBounds(trace, s, lo, hi);
    ShareIs(start, calls, s);
    ReqsAre(calls);
    hide *;
    var t := trace[..lo];
    FifoPrefix(trace, reqs, lo);
    LastSeenNames(start.dev, t, reqs);
    DispatchExactly(start.dev, trace, reqs, s, lo, hi);
    ExpectedCases(start.dev, trace, reqs[s], lo, hi);
    var m := LastIntact(t);
    if m.Some? {
      ByteOfEqual(calls[m.value].counter, calls[s].counter);
    }
  }

  lemma {:induction false} ShareIs(start: Link, calls: seq<Call>, s: nat)
    ensures Share(start, calls, s) == Dispatches(start.dev, RunTrace(start, calls, |calls|), s)
  {
  }

  lemma {:induction false} ReqsAre(calls: seq<Call>)
    ensures |Reqs(calls)| == |calls|
    ensures forall i :: 0 <= i < |calls| ==> Reqs(calls)[i] == Req(calls[i])
    ensures forall i :: 0 <= i < |calls| ==> Reqs(calls)[i].seqNo == ByteOf(calls[i].counter)
  {
    hide ByteOf;
  }

  lemma {:induction false} ConsecutiveNumbers(calls: seq<Call>)
    requires Consecutive(calls) && calls != []
    ensures Numbered(Reqs(calls), calls[0].counter)
  {
    hide ByteOf, Consecutive, Reqs;
    ReqsAre(calls);
    forall i | 0 <= i < |calls|
      ensures Reqs(calls)[i].seqNo == ByteOf(calls[0].counter + i)
    {
      CountersApart(calls, 0, i);
    }
  }

  /** With consecutive counters and fewer than 255 calls in a row lost, calls are executed when they get through. */
  lemma {:induction false} RunExecutesReached(start: Link, calls: seq<Call>, s: nat, lo: nat, hi: nat)
    requires !start.dev.hasLastAck && s < |calls| && Consecutive(calls)
    requires FifoTrace(RunTrace(start, calls, |calls|), Reqs(calls))
    requires Blocks(RunTrace(start, calls, |calls|), s, lo, hi)
    requires var trace := RunTrace(start, calls, |calls|);
      AnyIntact(trace, 0, lo) ==> exists j :: 0 <= j < lo && Intact(trace[j]) && s - trace[j].session - 1 < 255
    ensures Share(start, calls, s) ==
      if AnyIntact(RunTrace(start, calls, |calls|), lo, hi) then [Req(calls[s])] else []
  {
    ShareIs(start, calls, s);
    ReqsAre(calls);
    ConsecutiveNumbers(calls);
    hide RunTrace, Share, Reqs, FifoTrace, Dispatches, Req, Numbered, Consecutive;
    IntactIsDispatched(start.dev, RunTrace(start, calls, |calls|), Reqs(calls), calls[0].counter, s, lo, hi);
  }

  // ---- lines that only carry the running call's frames are FIFO ---------------------------------

  /** Every chunk names the call in which it arrives. */
  ghost predicate OwnChunks(calls: seq<Call>) {
    forall n :: 0 <= n < |calls| ==> AllOfCall(calls[n].fates, n)
  }

  ghost predicate AllOfCall(fates: seq<Fate>, n: nat) {
    forall i, j :: 0 <= i < |fates| && 0 <= j < |Handed(fates[i])| ==> Handed(fates[i])[j].session == n
  }

  /** The arrivals of one call: all of that call, and the request itself where they are accepted. */
  ghost predicate OfCall(trace: seq<Arrival>, n: nat, r: Request) {
    forall i :: 0 <= i < |trace| ==>
      trace[i].session == n && (Intact(trace[i]) ==> Parse(trace[i].chunk).req == r)
  }

  lemma {:induction false} HandedOfCall(fates: seq<Fate>, k: nat, n: nat, r: Request)
    requires AllOfCall(fates, n) && CarriesAll(r, fates)
    ensures OfCall(HandedIn(fates, k), n, r)
    decreases |fates|
  {
    hide Parse, Handed;
    if fates != [] && k > 0 {
      HandedOfCall(fates[1..], k - 1, n, r);
      assert Carries(r, fates[0]);
    }
  }

  /** So the runs above are among those of the last section. */
  lemma {:induction false} OwnIsFifo(start: Link, calls: seq<Call>, n: nat)
    requires CallsCarry(calls) && OwnChunks(calls) && n <= |calls|
    ensures FifoTrace(RunTrace(start, calls, n), Reqs(calls))
    ensures forall i :: 0 <= i < |RunTrace(start, calls, n)| ==> RunTrace(start, calls, n)[i].session < n
  {
    hide Parse, CallRun, HandedIn, Req, CarriesAll, AllOfCall;
    if n > 0 {
      OwnIsFifo(start, calls, n - 1);
      HandedOfCall(calls[n - 1].fates, CallRun(start, calls, n - 1).tried, n - 1, Req(calls[n - 1]));
    }
  }
}
