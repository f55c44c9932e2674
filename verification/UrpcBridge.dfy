/** The daemon's side of uRPC: the retry loop and the resynchronising acknowledgement reader. */
module UrpcBridge {
  import opened Octets
  import opened UrpcFrames
  import opened SerialPort

  const MAX_URPC_RETRIES := 3

  /** ShortTail: the single read for the rest of a frame came up short, so the buffer is incomplete. */
  datatype ReadOutcome = GotAck(ack: Ack) | ReadFailed | HeaderMissing | AckInvalid | ShortTail

  datatype SendResult = Acked(ack: Ack) | EncodeError | ContextError | WriteError | DeviceTimeout | Unspecified

  type Sent = Conversation<SendResult>

  /** The position of the first header byte, or the length if there is none. */
  function FirstHeader(buf: Bytes): (i: nat)
    ensures i <= |buf|
    ensures i < |buf| ==> buf[i] == HEADER_ACK
    ensures forall j :: 0 <= j < i ==> buf[j] != HEADER_ACK
  {
    if buf == [] || buf[0] == HEADER_ACK then 0 else 1 + FirstHeader(buf[1..])
  }

  function Decoded(frame: Bytes): (r: ReadOutcome)
    ensures r.GotAck? || r.AckInvalid?
  {
    match DecodeAck(frame)
    case Some(a) => GotAck(a)
    case None => AckInvalid
  }

  /** One read attempt on a receive stream, and how many bytes it takes off it. */
  function ReadAck(rx: Bytes): (r: (ReadOutcome, nat))
    ensures r.1 <= |rx|
  {
    if |rx| < 5 then (ReadFailed, |rx|)
    else
      var i := FirstHeader(rx[..5]);
      if i == 5 then (HeaderMissing, 5)
      else if i == 0 then (Decoded(rx[..5]), 5)
      else if |rx| == 5 then (ReadFailed, 5)
      else if |rx| < 5 + i then (ShortTail, |rx|)
      else (Decoded(rx[i..i + 5]), 5 + i)
  }

  /** The cases of ReadAck by the position of the header in the first five bytes. */
  lemma {:induction false} ReadAckCases(rx: Bytes, i: nat)
    requires |rx| >= 5 && i <= 5
    requires i < 5 ==> rx[i] == HEADER_ACK
    requires forall j :: 0 <= j < i ==> rx[j] != HEADER_ACK
    ensures FirstHeader(rx[..5]) == i
    ensures i == 5 ==> ReadAck(rx) == (HeaderMissing, 5)
    ensures i < 5 && |rx| >= 5 + i ==> ReadAck(rx) == (Decoded(rx[i..i + 5]), 5 + i)
    ensures 0 < i < 5 && |rx| == 5 ==> ReadAck(rx) == (ReadFailed, 5)
  {
    hide DecodeAck;
    var buf := rx[..5];
    assert forall j :: 0 <= j < i ==> buf[j] == rx[j];
    if i < 5 {
      assert buf[i] == rx[i];
    }
    assert rx[0..5] == buf;
  }

  /** A call with the given number of attempts left. */
  function Send(rx: Bytes, turns: seq<Turn>, attempts: nat): Sent
    decreases attempts
  {
    if attempts == 0 then Ended(DeviceTimeout, 0, rx, turns)
    else
      match NextTurn(turns)
      case Cancelled => Ended(ContextError, 0, rx, turns)
      case WriteFails => Ended(WriteError, 0, rx, LaterTurns(turns))
      case Reply(b) =>
        var (outcome, n) := ReadAck(rx + b);
        var rest, later := (rx + b)[n..], LaterTurns(turns);
        match outcome
        case GotAck(a) => Ended(Acked(a), 1, rest, later)
        case ShortTail => Ended(Unspecified, 1, rest, later)
        case _ => Send(rest, later, attempts - 1).After(1)
  }

  /** The header is not the first byte, so that a second, single read has to bring the rest. */
  predicate HeaderBehind(stream: Bytes) {
    |stream| >= 5 && 0 < FirstHeader(stream[..5]) < 5
  }

  /** Some attempt has to read the rest of a frame separately. */
  predicate NeedsTail(rx: Bytes, turns: seq<Turn>, attempts: nat)
    decreases attempts
  {
    attempts > 0 && NextTurn(turns).Reply? &&
    var stream := rx + NextTurn(turns).bytes;
    var (outcome, n) := ReadAck(stream);
    || HeaderBehind(stream)
    || (!outcome.GotAck? && !outcome.ShortTail? && NeedsTail(stream[n..], LaterTurns(turns), attempts - 1))
  }

  /** One pass of the loop, for Send and NeedsTail alike. */
  lemma {:induction false} SendStep(rx: Bytes, turns: seq<Turn>, attempts: nat)
    requires attempts > 0 && NextTurn(turns).Reply?
    ensures var stream := rx + NextTurn(turns).bytes;
      var (outcome, n) := ReadAck(stream);
      var rest, later := stream[n..], LaterTurns(turns);
      && (HeaderBehind(stream) ==> NeedsTail(rx, turns, attempts))
      && (outcome.GotAck? ==> Send(rx, turns, attempts) == Ended(Acked(outcome.ack), 1, rest, later))
      && (!outcome.GotAck? && !outcome.ShortTail? ==>
            && Send(rx, turns, attempts) == Send(rest, later, attempts - 1).After(1)
            && (NeedsTail(rest, later, attempts - 1) ==> NeedsTail(rx, turns, attempts)))
  {
    hide ReadAck, HeaderBehind;
  }

  lemma {:induction false} SendEnds(rx: Bytes, turns: seq<Turn>, attempts: nat)
    ensures attempts == 0 ==> Send(rx, turns, attempts) == Ended(DeviceTimeout, 0, rx, turns)
    ensures attempts > 0 && NextTurn(turns).Cancelled? ==>
      Send(rx, turns, attempts) == Ended(ContextError, 0, rx, turns)
    ensures attempts > 0 && NextTurn(turns).WriteFails? ==>
      Send(rx, turns, attempts) == Ended(WriteError, 0, rx, LaterTurns(turns))
  {
    hide ReadAck;
  }

  /** What has been read from the header on, and what is left. */
  lemma {:induction false} Parts(rx: Bytes, i: nat, more: Bytes, rest: Bytes)
    requires |rx| >= 5 && i <= 5 && rx[5..] == more + rest
    ensures var n := 5 + |more|; n <= |rx| && rx[..5][i..] + more == rx[i..n] && rest == rx[n..]
  {
    assert rx == rx[..5] + more + rest;
  }

  /** The cases of ReadAck, in the terms of the loops below. */
  lemma {:induction false} ReadAckIs(rx: Bytes)
    ensures |rx| < 5 ==> ReadAck(rx) == (ReadFailed, |rx|)
    ensures |rx| >= 5 ==> var i := FirstHeader(rx[..5]);
      && (HeaderBehind(rx) <==> 0 < i < 5)
      && (i == 5 ==> ReadAck(rx) == (HeaderMissing, 5))
      && (0 < i < 5 && |rx| == 5 ==> ReadAck(rx) == (ReadFailed, 5))
      && (i < 5 && |rx| >= 5 + i ==> ReadAck(rx) == (Decoded(rx[i..5 + i]), 5 + i))
  {
    hide DecodeAck, FirstHeader;
  }

  class SerialBridge {
    const port: Port
    var retry: int

    constructor (port: Port)
      ensures this.port == port && retry == 3
    {
      this.port, retry := port, MAX_URPC_RETRIES;
    }

    method SetRetry(n: int)
      modifies this
      ensures retry == if n <= 0 then 3 else n
    {
      var m := n;
      if m <= 0 {
        m := MAX_URPC_RETRIES;
      }
      retry := m;
    }

    /** The first loop of readURPCAck: five bytes, however the port chunks them. */
    method ReadFive() returns (five: Option<Bytes>)
      modifies port`rx, port`idle
      ensures |old(port.rx)| < 5 ==> five == None && port.rx == []
      ensures |old(port.rx)| >= 5 ==> five == Some(old(port.rx)[..5]) && port.rx == old(port.rx)[5..]
    {
      var buf: Bytes := [];
      var remaining := 5;
      while remaining > 0
        invariant 0 <= remaining == 5 - |buf|
        invariant old(port.rx) == buf + port.rx
        decreases remaining, port.idle
      {
        var chunk := port.Read(remaining);
        if chunk == None {
          return None;
        }
        buf := buf + chunk.value;
        remaining := remaining - |chunk.value|;
      }
      return Some(buf);
    }

    /** The second loop of readURPCAck. */
    method FindHeader(buf: Bytes) returns (headerIdx: int)
      ensures headerIdx == if FirstHeader(buf) < |buf| then FirstHeader(buf) else -1
    {
      hide FirstHeader;
      headerIdx := -1;
      for i := 0 to |buf|
        invariant headerIdx == -1
        invariant forall j :: 0 <= j < i ==> buf[j] != HEADER_ACK
      {
        if buf[i] == HEADER_ACK {
          headerIdx := i;
          break;
        }
      }
    }

    method ReadUrpcAck() returns (outcome: ReadOutcome)
      modifies port`rx, port`idle
      ensures outcome != ShortTail ==>
        var (o, n) := ReadAck(old(port.rx));
        outcome == o && port.rx == old(port.rx)[n..]
      ensures outcome == ShortTail ==> HeaderBehind(old(port.rx))
      ensures outcome == ShortTail ==>
        exists k :: 5 <= k < 5 + FirstHeader(old(port.rx)[..5]) && k <= |old(port.rx)| && port.rx == old(port.rx)[k..]
    {
      hide *;
      ghost var rx0 := port.rx;
      ReadAckIs(rx0);
      var five := ReadFive();
      if five == None {
        return ReadFailed;
      }
      var buf := five.value;
      var headerIdx := FindHeader(buf);
      if headerIdx < 0 {
        return HeaderMissing;
      }
      if headerIdx > 0 {
        buf := buf[headerIdx..];
      }
      ghost var more: Bytes := [];
      if |buf| < 5 {
        var chunk := port.Read(5 - |buf|);
        if chunk == None {
          return ReadFailed;
        }
        buf := buf + chunk.value;
        more := chunk.value;
      }
      Parts(rx0, headerIdx, more, port.rx);
      if |buf| < 5 {
        return ShortTail;
      }
      return Decoded(buf);
    }

    /** One pass of the loop of SendURPC, with `left` attempts to go; no result means another pass. */
    method Attempt(frame: Bytes, ghost left: nat) returns (result: Option<SendResult>)
      requires left > 0
      modifies port
      ensures result == Some(Unspecified) ==> NeedsTail(old(port.rx), old(port.turns), left)
      ensures result.Some? && result.value != Unspecified ==>
        var s := Send(old(port.rx), old(port.turns), left);
        && result.value == s.result
        && port.rx == s.rx
        && port.turns == s.turns
        && port.tx == old(port.tx) + Copies(frame, s.writes)
      ensures result.None? ==>
        && Send(old(port.rx), old(port.turns), left) == Send(port.rx, port.turns, left - 1).After(1)
        && (NeedsTail(port.rx, port.turns, left - 1) ==> NeedsTail(old(port.rx), old(port.turns), left))
        && port.tx == old(port.tx) + [frame]
    {
      hide *;
      SendEnds(port.rx, port.turns, left);
      CopiesNext(port.tx, frame, 0);
      if NextTurn(port.turns).Reply? {
        SendStep(port.rx, port.turns, left);
      }
      if NextTurn(port.turns).Cancelled? {
        return Some(ContextError);
      }
      var ok := port.Write(frame);
      if !ok {
        return Some(WriteError);
      }
      var outcome := ReadUrpcAck();
      match outcome {
        case GotAck(ack) => return Some(Acked(ack));
        case ShortTail => return Some(Unspecified);
        case _ => return None;
      }
    }

    /**
      Unless a remainder read comes up short, which takes a header behind other bytes, a call does
      exactly what `Send` says.
     */
    method SendUrpc(req: Request) returns (result: SendResult)
      requires retry > 0
      modifies port
      ensures result == Unspecified ==> NeedsTail(old(port.rx), old(port.turns), retry)
      ensures |req.payload| > 64 ==>
        result == EncodeError && port.tx == old(port.tx) && port.rx == old(port.rx) && port.turns == old(port.turns)
      ensures |req.payload| <= 64 && result != Unspecified ==>
        var s := Send(old(port.rx), old(port.turns), retry);
        && result == s.result
        && port.rx == s.rx
        && port.turns == s.turns
        && port.tx == old(port.tx) + Copies(RequestFrame(req), s.writes)
    {
      hide *;
      var frame := EncodeRequest(req);
      if frame == None {
        return EncodeError;
      }
      ghost var whole := Send(port.rx, port.turns, retry);
      CopiesNext(port.tx, frame.value, 0);
      for attempt := 0 to retry
        invariant port.tx == old(port.tx) + Copies(frame.value, attempt)
        invariant whole == Send(port.rx, port.turns, retry - attempt).After(attempt)
        invariant NeedsTail(port.rx, port.turns, retry - attempt) ==> NeedsTail(old(port.rx), old(port.turns), retry)
      {
        ghost var sent := Send(port.rx, port.turns, retry - attempt);
        var ended := Attempt(frame.value, retry - attempt);
        if ended.Some? {
          CopiesSum(old(port.tx), frame.value, attempt, sent.writes);
          return ended.value;
        }
        CopiesNext(old(port.tx), frame.value, attempt);
        AfterNext(Send(port.rx, port.turns, retry - attempt - 1), attempt);
      }
      SendEnds(port.rx, port.turns, 0);
      return DeviceTimeout;
    }
  }

  // ---- resynchronisation -----------------------------------------------------------------

  predicate NoHeader(junk: Bytes) {
    forall j :: 0 <= j < |junk| ==> junk[j] != HEADER_ACK
  }

  lemma {:induction false} AckShape(a: Ack)
    ensures |AckFrame(a)| == 5 && AckFrame(a)[0] == HEADER_ACK
    ensures DecodeAck(AckFrame(a)) == Some(a)
  {
    DecodeAckIff(AckFrame(a), a);
  }

  /** Fewer than five bytes of noise do not keep the next five-byte frame from being read. */
  lemma {:induction false} ReadBehindJunk(junk: Bytes, line: Bytes, rest: Bytes)
    requires NoHeader(junk) && |junk| < 5 && |line| == 5 && line[0] == HEADER_ACK
    ensures ReadAck(junk + line + rest) == (Decoded(line), |junk| + 5)
    ensures HeaderBehind(junk + line + rest) <==> junk != []
  {
    hide ReadAck, FirstHeader, DecodeAck;
    var i, rx := |junk|, junk + line + rest;
    assert rx[i] == line[0];
    ReadAckCases(rx, i);
    assert rx[i..i + 5] == line;
  }

  lemma {:induction false} ReadAckAfterJunk(junk: Bytes, a: Ack, rest: Bytes)
    requires NoHeader(junk) && |junk| < 5
    ensures ReadAck(junk + AckFrame(a) + rest) == (GotAck(a), |junk| + 5)
  {
    hide AckFrame, ReadAck, DecodeAck, HeaderBehind;
    AckShape(a);
    ReadBehindJunk(junk, AckFrame(a), rest);
  }

  /** With fewer than five bytes of noise in front, the attempt reads the acknowledgement. */
  lemma {:induction false} SendReadsAck(
      junk: Bytes, a: Ack, rest: Bytes, rx: Bytes, turns: seq<Turn>, attempts: nat)
    requires NoHeader(junk) && |junk| < 5 && attempts > 0 && NextTurn(turns).Reply?
    requires rx + NextTurn(turns).bytes == junk + AckFrame(a) + rest
    ensures Send(rx, turns, attempts) == Ended(Acked(a), 1, rest, LaterTurns(turns))
    ensures NeedsTail(rx, turns, attempts) <==> junk != []
  {
    hide AckFrame, ReadAck, HeaderBehind;
    var stream := junk + AckFrame(a) + rest;
    AckShape(a);
    ReadBehindJunk(junk, AckFrame(a), rest);
    ReadAckAfterJunk(junk, a, rest);
    assert stream[|junk| + 5..] == rest;
  }

  /** The stream begins with n bytes among which there is no header byte. */
  predicate QuietFor(all: Bytes, n: nat) {
    n <= |all| && forall j :: 0 <= j < n ==> all[j] != HEADER_ACK
  }

  /** With five bytes of noise or more, the attempt takes five of them off. */
  lemma {:induction false} SendSkipsNoise(rx: Bytes, turns: seq<Turn>, attempts: nat)
    requires attempts > 0 && NextTurn(turns).Reply?
    requires QuietFor(rx + NextTurn(turns).bytes, 5)
    ensures var rest, later := (rx + NextTurn(turns).bytes)[5..], LaterTurns(turns);
      && Send(rx, turns, attempts) == Send(rest, later, attempts - 1).After(1)
      && (NeedsTail(rx, turns, attempts) <==> NeedsTail(rest, later, attempts - 1))
  {
    hide ReadAck, FirstHeader;
    var stream := rx + NextTurn(turns).bytes;
    ReadAckCases(stream, 5);
  }

  /** Each of the next k attempts writes and then has five bytes to read, from before or in answer. */
  predicate Supplied(rx: Bytes, turns: seq<Turn>, k: nat)
    decreases k
  {
    k > 0 ==>
      && NextTurn(turns).Reply?
      && |rx + NextTurn(turns).bytes| >= 5
      && Supplied((rx + NextTurn(turns).bytes)[5..], LaterTurns(turns), k - 1)
  }

  /** One attempt on noise: what is left of all that arrives is what the later attempts find. */
  lemma {:induction false} NoiseStep(rx: Bytes, turns: seq<Turn>, k: nat, attempts: nat)
    requires attempts > 0 && Supplied(rx, turns, 1) && QuietFor(rx + Arrived(turns, k + 1), 5)
    ensures NextTurn(turns).Reply? && |rx + NextTurn(turns).bytes| >= 5 && |rx + Arrived(turns, k + 1)| >= 5
    ensures var rest := (rx + NextTurn(turns).bytes)[5..];
      && rest + Arrived(LaterTurns(turns), k) == (rx + Arrived(turns, k + 1))[5..]
      && TurnsAfter(turns, k + 1) == TurnsAfter(LaterTurns(turns), k)
      && Send(rx, turns, attempts) == Send(rest, LaterTurns(turns), attempts - 1).After(1)
      && (NeedsTail(rx, turns, attempts) <==> NeedsTail(rest, LaterTurns(turns), attempts - 1))
  {
    hide Send, NeedsTail, Arrived, TurnsAfter;
    ArrivedFirst(rx, turns, k);
    var stream, all := rx + NextTurn(turns).bytes, rx + Arrived(turns, k + 1);
    assert forall j :: 0 <= j < 5 ==> stream[j] == all[j];
    SendSkipsNoise(rx, turns, attempts);
  }

  lemma {:induction false} QuietOn(all: Bytes, n: nat)
    requires n >= 5 && QuietFor(all, n)
    ensures QuietFor(all, 5) && QuietFor(all[5..], n - 5)
  {
    forall j | 0 <= j < n - 5
      ensures all[5..][j] != HEADER_ACK
    {
      assert all[5..][j] == all[j + 5];
    }
  }

  lemma {:induction false} SuppliedStep(rx: Bytes, turns: seq<Turn>, k: nat)
    requires Supplied(rx, turns, k) && k > 0
    ensures Supplied(rx, turns, 1) && NextTurn(turns).Reply? && |rx + NextTurn(turns).bytes| >= 5
    ensures Supplied((rx + NextTurn(turns).bytes)[5..], LaterTurns(turns), k - 1)
  {
  }

  lemma {:induction false} WritesStep(turns: seq<Turn>, k: nat)
    requires WritesSucceed(turns, k + 1)
    ensures NextTurn(turns).Reply? && WritesSucceed(LaterTurns(turns), k)
  {
  }

  /** n bytes of noise, then an acknowledgement. */
  predicate NoiseThenAck(all: Bytes, noise: nat, a: Ack) {
    QuietFor(all, noise) && noise + 5 <= |all| && all[noise..noise + 5] == AckFrame(a)
  }

  lemma {:induction false} NoiseThenAckOn(all: Bytes, noise: nat, a: Ack)
    requires noise >= 5 && NoiseThenAck(all, noise, a)
    ensures NoiseThenAck(all[5..], noise - 5, a) && all[5..][noise..] == all[noise + 5..]
  {
    hide AckFrame, NoHeader, QuietFor;
    QuietOn(all, noise);
    assert all[5..][noise - 5..noise] == all[noise..noise + 5];
  }

  lemma {:induction false} JunkThenAck(junk: Bytes, a: Ack, rest: Bytes)
    requires NoHeader(junk)
    ensures var all := junk + AckFrame(a) + rest;
      NoiseThenAck(all, |junk|, a) && all[|junk| + 5..] == rest
  {
    hide AckFrame;
    AckShape(a);
  }

  lemma {:induction false} ReadsAtOnce(rx: Bytes, turns: seq<Turn>, noise: nat, a: Ack, attempts: nat)
    requires noise < 5 && attempts > 0 && NextTurn(turns).Reply?
    requires NoiseThenAck(rx + NextTurn(turns).bytes, noise, a)
    ensures Send(rx, turns, attempts)
      == Ended(Acked(a), 1, (rx + NextTurn(turns).bytes)[noise + 5..], LaterTurns(turns))
    ensures NeedsTail(rx, turns, attempts) <==> noise != 0
  {
    hide AckFrame, Send, NeedsTail, NextTurn;
    var all := rx + NextTurn(turns).bytes;
    assert all == all[..noise] + AckFrame(a) + all[noise + 5..];
    SendReadsAck(all[..noise], a, all[noise + 5..], rx, turns, attempts);
  }

  /** The same, with the noise and the acknowledgement found in all that arrives during n + 1 attempts. */
  lemma {:induction false} ReadsBehindNoise(rx: Bytes, turns: seq<Turn>, n: nat, noise: nat, a: Ack, attempts: nat)
    requires 5 * n <= noise < 5 * n + 5 && n < attempts && WritesSucceed(turns, n + 1) && Supplied(rx, turns, n)
    requires NoiseThenAck(rx + Arrived(turns, n + 1), noise, a)
    ensures noise + 5 <= |rx + Arrived(turns, n + 1)|
    ensures Send(rx, turns, attempts)
      == Ended(Acked(a), n + 1, (rx + Arrived(turns, n + 1))[noise + 5..], TurnsAfter(turns, n + 1))
    ensures NeedsTail(rx, turns, attempts) <==> noise != 5 * n
    decreases n
  {
    hide *;
    var all := rx + Arrived(turns, n + 1);
    NoiseThenAckLong(all, noise, a);
    WritesStep(turns, n);
    if n == 0 {
      ArrivedOne(rx, turns);
      ReadsAtOnce(rx, turns, noise, a, attempts);
    } else {
      SuppliedStep(rx, turns, n);
      QuietOn(all, noise);
      NoiseStep(rx, turns, n, attempts);
      NoiseThenAckOn(all, noise, a);
      ReadsBehindNoise((rx + NextTurn(turns).bytes)[5..], LaterTurns(turns), n - 1, noise - 5, a, attempts - 1);
    }
  }

  lemma {:induction false} NoiseThenAckLong(all: Bytes, noise: nat, a: Ack)
    requires NoiseThenAck(all, noise, a)
    ensures noise + 5 <= |all| && QuietFor(all, noise)
  {
  }

  /**
    J bytes of noise without a header byte, then an acknowledgement, in the stream already or arriving in answer
    to this call's own writes: the call returns exactly that acknowledgement after J/5 + 1 writes, having
    consumed the noise and the acknowledgement and nothing more. When J is a multiple of five no attempt needs the
    second, single read; otherwise the last one does.
   */
  lemma {:induction false} Resynchronises(
      junk: Bytes, a: Ack, rest: Bytes, rx: Bytes, turns: seq<Turn>, attempts: nat)
    requires NoHeader(junk) && |junk| / 5 < attempts && WritesSucceed(turns, |junk| / 5 + 1)
    requires Supplied(rx, turns, |junk| / 5)
    requires rx + Arrived(turns, |junk| / 5 + 1) == junk + AckFrame(a) + rest
    ensures Send(rx, turns, attempts)
      == Ended(Acked(a), |junk| / 5 + 1, rest, TurnsAfter(turns, |junk| / 5 + 1))
    ensures NeedsTail(rx, turns, attempts) <==> |junk| % 5 != 0
  {
    hide *;
    JunkThenAck(junk, a, rest);
    ReadsBehindNoise(rx, turns, |junk| / 5, |junk|, a, attempts);
  }

  /** With too few attempts for the noise the call times out, five bytes further at every attempt. */
  lemma {:induction false} NoiseTimesOut(rx: Bytes, turns: seq<Turn>, attempts: nat)
    requires Supplied(rx, turns, attempts) && QuietFor(rx + Arrived(turns, attempts), 5 * attempts)
    ensures 5 * attempts <= |rx + Arrived(turns, attempts)|
    ensures Send(rx, turns, attempts)
      == Ended(DeviceTimeout, attempts, (rx + Arrived(turns, attempts))[5 * attempts..], TurnsAfter(turns, attempts))
    ensures !NeedsTail(rx, turns, attempts)
    decreases attempts
  {
    hide Send, Supplied, NoHeader;
    SendEnds(rx, turns, attempts);
    if attempts == 0 {
      assert (rx + [])[0..] == rx;
    } else {
      var all, k := rx + Arrived(turns, attempts), attempts - 1;
      hide NeedsTail, Arrived, TurnsAfter, QuietFor;
      QuietOn(all, 5 * attempts);
      SuppliedStep(rx, turns, attempts);
      NoiseStep(rx, turns, k, attempts);
      NoiseTimesOut((rx + NextTurn(turns).bytes)[5..], LaterTurns(turns), k);
      DropDrop(all, 5, 5 * k);
    }
  }

  lemma {:induction false} DropDrop(all: Bytes, i: nat, j: nat)
    requires i <= |all| && j <= |all[i..]|
    ensures all[i..][j..] == all[i + j..]
  {
  }

  /** The stream split where a returned acknowledgement ends. */
  ghost predicate EndsWithAck(stream: Bytes, a: Ack, rest: Bytes) {
    exists before: Bytes :: stream == before + AckFrame(a) + rest
  }

  lemma {:induction false} ReadAckTakesFrame(rx: Bytes, a: Ack)
    requires ReadAck(rx).0 == GotAck(a)
    ensures EndsWithAck(rx, a, rx[ReadAck(rx).1..])
  {
    hide AckFrame, DecodeAck;
    var i := FirstHeader(rx[..5]);
    DecodeAckIff(rx[i..i + 5], a);
    assert rx == rx[..i] + rx[i..i + 5] + rx[i + 5..];
  }

  lemma {:induction false} EndsWithAckPrepend(head: Bytes, stream: Bytes, a: Ack, rest: Bytes)
    requires EndsWithAck(stream, a, rest)
    ensures EndsWithAck(head + stream, a, rest)
  {
    hide AckFrame;
    var before: Bytes :| stream == before + AckFrame(a) + rest;
    assert head + stream == (head + before) + AckFrame(a) + rest;
  }

  /** Acknowledgements are never invented: a returned one lies in the stream, right before what is left unread. */
  lemma {:induction false} AckWasReceived(rx: Bytes, turns: seq<Turn>, attempts: nat)
    requires Send(rx, turns, attempts).result.Acked?
    ensures var s := Send(rx, turns, attempts);
      1 <= s.writes <= attempts && EndsWithAck(rx + Arrived(turns, s.writes), s.result.ack, s.rx)
    decreases attempts
  {
    hide EndsWithAck, ReadAck;
    var s := Send(rx, turns, attempts);
    var b, later := NextTurn(turns).bytes, LaterTurns(turns);
    var (outcome, n) := ReadAck(rx + b);
    if outcome.GotAck? {
      ReadAckTakesFrame(rx + b, outcome.ack);
      assert Arrived(later, 0) == [];
      assert rx + Arrived(turns, 1) == rx + b;
    } else {
      var head, rest := (rx + b)[..n], (rx + b)[n..];
      assert s == Send(rest, later, attempts - 1).After(1);
      hide Send;
      AckWasReceived(rest, later, attempts - 1);
      var more := Arrived(later, s.writes - 1);
      EndsWithAckPrepend(head, rest + more, s.result.ack, s.rx);
      ArrivedFirst(rx, turns, s.writes - 1);
      Rejoin(rx + b, n, more);
    }
  }
}
