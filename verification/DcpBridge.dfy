/** The daemon's DCP call loop, which must stay in step with a stream of frames. */
module DcpBridge {
  import opened Octets
  import opened Dcp
  import opened SerialPort

  const MAX_DCP_RETRIES := 3

  datatype CallResult = Replied(frame: Frame) | EncodeFailed | ContextError | WriteError | DeviceTimeout

  type Called = Conversation<CallResult>

  /** The libraries and the bridge's secret, if it has one. */
  datatype Setup = Setup(cbor: Cbor, mac: Mac, secret: Option<Bytes>)

  function TagSize(u: Setup): nat {
    if u.secret.Some? then HMAC_SIZE else 0
  }

  /** The bytes of one reply at the front of the stream, if they are all there, and how many bytes reading takes. */
  function ReadReply(u: Setup, rx: Bytes): (r: (Option<Bytes>, nat))
    ensures r.1 <= |rx|
  {
    if |rx| < HEADER_SIZE then (None, |rx|)
    else
      var n := HEADER_SIZE + NatOf(rx[5]) + TagSize(u);
      if |rx| < n then (None, |rx|) else (Some(rx[..n]), n)
  }

  /** The bridge takes raw as an answer. */
  predicate Acceptable(u: Setup, raw: Bytes) {
    && DecodeFrame(u.cbor, raw).Some?
    && (u.secret.Some? ==> DecodeFrame(u.cbor, raw).value.hmac != [] && VerifyTag(u.mac, u.secret.value, raw))
  }

  function Converse(u: Setup, rx: Bytes, turns: seq<Turn>, attempts: nat): Called
    decreases attempts
  {
    if attempts == 0 then Ended(DeviceTimeout, 0, rx, turns)
    else
      match NextTurn(turns)
      case Cancelled => Ended(ContextError, 0, rx, turns)
      case WriteFails => Ended(WriteError, 0, rx, LaterTurns(turns))
      case Reply(b) =>
        var (raw, n) := ReadReply(u, rx + b);
        var rest, later := (rx + b)[n..], LaterTurns(turns);
        if raw.Some? && Acceptable(u, raw.value) then
          Ended(Replied(DecodeFrame(u.cbor, raw.value).value), 1, rest, later)
        else
          Converse(u, rest, later, attempts - 1).After(1)
  }

  function OnWire(u: Setup, frame: Bytes): Bytes {
    if u.secret.Some? then AppendTag(u.mac, u.secret.value, frame) else frame
  }

  lemma {:induction false} OnWireIs(u: Setup, frame: Bytes)
    ensures OnWire(u, frame) == if u.secret.Some? then AppendTag(u.mac, u.secret.value, frame) else frame
  {
  }

  /** The cases of one attempt. */
  lemma {:induction false} ConverseCases(u: Setup, rx: Bytes, turns: seq<Turn>, attempts: nat)
    ensures attempts == 0 ==> Converse(u, rx, turns, attempts) == Ended(DeviceTimeout, 0, rx, turns)
    ensures attempts > 0 ==>
      && (NextTurn(turns).Cancelled? ==> Converse(u, rx, turns, attempts) == Ended(ContextError, 0, rx, turns))
      && (NextTurn(turns).WriteFails? ==>
            Converse(u, rx, turns, attempts) == Ended(WriteError, 0, rx, LaterTurns(turns)))
      && (NextTurn(turns).Reply? ==>
            var (raw, n) := ReadReply(u, rx + NextTurn(turns).bytes);
            var rest, later := (rx + NextTurn(turns).bytes)[n..], LaterTurns(turns);
            Converse(u, rx, turns, attempts) ==
              if raw.Some? && Acceptable(u, raw.value) then
                Ended(Replied(DecodeFrame(u.cbor, raw.value).value), 1, rest, later)
              else
                Converse(u, rest, later, attempts - 1).After(1))
  {
    hide ReadReply, Acceptable, DecodeFrame;
  }

  class DCPBridge {
    const port: Port
    const setup: Setup
    var retry: int

    constructor (port: Port, setup: Setup)
      ensures this.port == port && this.setup == setup && retry == 3
    {
      this.port, this.setup, retry := port, setup, MAX_DCP_RETRIES;
    }

    method SetRetry(n: int)
      modifies this
      ensures retry == if n <= 0 then 3 else n
    {
      var m := n;
      if m <= 0 {
        m := MAX_DCP_RETRIES;
      }
      retry := m;
    }

    method ReadDcpReply() returns (raw: Option<Bytes>)
      modifies port`rx, port`idle
      ensures var (r, n) := ReadReply(setup, old(port.rx));
        raw == r && port.rx == old(port.rx)[n..]
    {
      hide NatOf;
      ghost var rx0 := port.rx;
      var header := port.ReadFull(HEADER_SIZE);
      if header == None {
        return None;
      }
      var readLen := NatOf(header.value[5]);
      if setup.secret.Some? {
        readLen := readLen + HMAC_SIZE;
      }
      var payload := port.ReadFull(readLen);
      if payload == None {
        return None;
      }
      assert rx0[..HEADER_SIZE + readLen] == header.value + payload.value;
      return Some(header.value + payload.value);
    }

    /** What SendDCP makes of the bytes of one reply. */
    method Judge(raw: Bytes) returns (result: Option<CallResult>)
      ensures result == if Acceptable(setup, raw) then Some(Replied(DecodeFrame(setup.cbor, raw).value)) else None
    {
      hide DecodeFrame, VerifyTag;
      var reply := DecodeFrame(setup.cbor, raw);
      if reply.Some? {
        if setup.secret.None? || (reply.value.hmac != [] && VerifyTag(setup.mac, setup.secret.value, raw)) {
          return Some(Replied(reply.value));
        }
      }
      return None;
    }

    /** The rest of a pass of the loop of SendDCP once the frame is there; no result means another pass. */
    method Attempt(frame: Bytes, ghost left: nat) returns (result: Option<CallResult>)
      requires left > 0 && !NextTurn(port.turns).Cancelled?
      modifies port
      ensures var s := Converse(setup, old(port.rx), old(port.turns), left);
        if result.Some? then
          && result.value == s.result
          && port.rx == s.rx
          && port.turns == s.turns
          && port.tx == old(port.tx) + Copies(frame, s.writes)
        else
          && s == Converse(setup, port.rx, port.turns, left - 1).After(1)
          && port.tx == old(port.tx) + [frame]
    {
      ConverseCases(setup, port.rx, port.turns, left);
      hide *;
      CopiesNext(port.tx, frame, 0);
      var ok := port.Write(frame);
      if !ok {
        return Some(WriteError);
      }
      var raw := ReadDcpReply();
      if raw.None? {
        return None;
      }
      result := Judge(raw.value);
    }

    /** A call does exactly what `Converse` says, writing the same frame at every attempt. */
    method SendDcp(seqNo: bv8, intent: U16, params: Params) returns (result: CallResult)
      requires retry > 0
      modifies port
      ensures var call := CallBytes(setup.cbor, 0x01, seqNo, intent, params);
        if !call.Encoded? then
          && result == (if old(NextTurn(port.turns)).Cancelled? then ContextError else EncodeFailed)
          && port.tx == old(port.tx) && port.rx == old(port.rx) && port.turns == old(port.turns)
        else
          var s := Converse(setup, old(port.rx), old(port.turns), retry);
          && result == s.result
          && port.rx == s.rx
          && port.turns == s.turns
          && port.tx == old(port.tx) + Copies(OnWire(setup, call.bytes), s.writes)
    {
      hide *;
      ghost var call := CallBytes(setup.cbor, 0x01, seqNo, intent, params);
      ghost var whole := Converse(setup, port.rx, port.turns, retry);
      if call.Encoded? {
        CopiesNext(port.tx, OnWire(setup, call.bytes), 0);
      }
      for attempt := 0 to retry
        invariant !call.Encoded? ==>
          attempt == 0 && port.tx == old(port.tx) && port.rx == old(port.rx) && port.turns == old(port.turns)
        invariant call.Encoded? ==> port.tx == old(port.tx) + Copies(OnWire(setup, call.bytes), attempt)
        invariant whole == Converse(setup, port.rx, port.turns, retry - attempt).After(attempt)
      {
        ConverseCases(setup, port.rx, port.turns, retry - attempt);
        if NextTurn(port.turns).Cancelled? {
          return ContextError;
        }
        var encoded := EncodeCall(setup.cbor, seqNo, intent, params);
        if !encoded.Encoded? {
          return EncodeFailed;
        }
        var frame := encoded.bytes;
        if setup.secret.Some? {
          frame := AppendTag(setup.mac, setup.secret.value, frame);
        }
        OnWireIs(setup, encoded.bytes);
        ghost var sent := Converse(setup, port.rx, port.turns, retry - attempt);
        var ended := Attempt(frame, retry - attempt);
        if ended.Some? {
          CopiesSum(old(port.tx), frame, attempt, sent.writes);
          return ended.value;
        }
        CopiesNext(old(port.tx), frame, attempt);
        AfterNext(Converse(setup, port.rx, port.turns, retry - attempt - 1), attempt);
      }
      ConverseCases(setup, port.rx, port.turns, 0);
      return DeviceTimeout;
    }
  }

  // ---- staying aligned -------------------------------------------------------------------

  /** raw is one frame as this bridge delimits it, well-formed or not. */
  predicate Delimited(u: Setup, raw: Bytes) {
    |raw| >= HEADER_SIZE && |raw| == HEADER_SIZE + NatOf(raw[5]) + TagSize(u)
  }

  /** What an attempt takes off the stream it finds: a whole frame, or everything if the frame is not all there. */
  predicate Takes(u: Setup, stream: Bytes, piece: Bytes) {
    && piece <= stream
    && (Delimited(u, piece) || (piece == stream && ReadReply(u, stream).0.None?))
  }

  /**
    The stream cut up by the attempts. Each piece is there once its own attempt has written, so it may answer that
    very write or have come earlier; an attempt that meets silence takes the empty piece.
   */
  predicate Feeds(u: Setup, rx: Bytes, turns: seq<Turn>, pieces: seq<Bytes>)
    decreases |pieces|
  {
    pieces != [] ==>
      && NextTurn(turns).Reply?
      && Takes(u, rx + NextTurn(turns).bytes, pieces[0])
      && Feeds(u, (rx + NextTurn(turns).bytes)[|pieces[0]|..], LaterTurns(turns), pieces[1..])
  }

  function Concat(pieces: seq<Bytes>): Bytes {
    if pieces == [] then [] else pieces[0] + Concat(pieces[1..])
  }

  /** The piece is a whole frame with the right version that decodes and, when keyed, carries a valid tag. */
  predicate Answers(u: Setup, piece: Bytes) {
    Delimited(u, piece) && Acceptable(u, piece)
  }

  /** The first piece that is an answer, or how many there are. */
  function FirstAnswer(u: Setup, pieces: seq<Bytes>): (k: nat)
    ensures k <= |pieces|
    ensures k < |pieces| ==> Answers(u, pieces[k])
    ensures forall j :: 0 <= j < k ==> !Answers(u, pieces[j])
  {
    if pieces == [] || Answers(u, pieces[0]) then 0 else 1 + FirstAnswer(u, pieces[1..])
  }

  lemma {:induction false} ReadDelimited(u: Setup, raw: Bytes, rest: Bytes)
    requires Delimited(u, raw)
    ensures ReadReply(u, raw + rest) == (Some(raw), |raw|)
  {
    hide NatOf;
    var rx := raw + rest;
    assert rx[5] == raw[5];
    assert rx[..|raw|] == raw;
  }

  lemma {:induction false} ReadTakes(u: Setup, stream: Bytes, piece: Bytes)
    requires Takes(u, stream, piece)
    ensures ReadReply(u, stream) == (if Delimited(u, piece) then Some(piece) else None, |piece|)
    ensures piece <= stream
  {
    hide NatOf;
    if Delimited(u, piece) {
      assert stream == piece + stream[|piece|..];
      ReadDelimited(u, piece, stream[|piece|..]);
    }
  }

  /** One attempt takes its piece off the stream and answers with it if it can. */
  lemma {:induction false} ConverseStep(u: Setup, rx: Bytes, turns: seq<Turn>, piece: Bytes, attempts: nat)
    requires attempts > 0 && NextTurn(turns).Reply? && Takes(u, rx + NextTurn(turns).bytes, piece)
    ensures piece <= rx + NextTurn(turns).bytes
    ensures var rest, later := (rx + NextTurn(turns).bytes)[|piece|..], LaterTurns(turns);
      Converse(u, rx, turns, attempts) ==
        if Answers(u, piece) then Ended(Replied(DecodeFrame(u.cbor, piece).value), 1, rest, later)
        else Converse(u, rest, later, attempts - 1).After(1)
  {
    hide ReadReply, Takes, Delimited, DecodeFrame, VerifyTag;
    ReadTakes(u, rx + NextTurn(turns).bytes, piece);
  }

  /** How one more piece in front adds up with what arrives. */
  lemma {:induction false} PieceFirst(
      piece: Bytes, taken: Bytes, rest: Bytes, rx: Bytes, turns: seq<Turn>, k: nat)
    requires NextTurn(turns).Reply? && piece <= rx + NextTurn(turns).bytes
    requires taken + rest == (rx + NextTurn(turns).bytes)[|piece|..] + Arrived(LaterTurns(turns), k)
    ensures (piece + taken) + rest == rx + Arrived(turns, k + 1)
  {
    hide *;
    var b, more := NextTurn(turns).bytes, Arrived(LaterTurns(turns), k);
    ArrivedFirst(rx, turns, k);
    Splice(piece, taken, rest, rx + b, more);
  }

  lemma {:induction false} Splice(piece: Bytes, taken: Bytes, rest: Bytes, stream: Bytes, more: Bytes)
    requires piece <= stream && taken + rest == stream[|piece|..] + more
    ensures (piece + taken) + rest == stream + more
  {
    assert (piece + taken) + rest == piece + (taken + rest);
    assert piece + (stream[|piece|..] + more) == stream + more;
  }

  lemma {:induction false} ConcatFirst(pieces: seq<Bytes>, k: nat)
    requires k < |pieces|
    ensures Concat(pieces[..k + 1]) == pieces[0] + Concat(pieces[1..][..k])
  {
    assert pieces[..k + 1][1..] == pieces[1..][..k];
  }

  /**
    However the stream is cut into frames, bad frames, silences and torn frames, and however it arrives: the call
    answers with the first piece that is an answer and leaves the stream right behind that piece; without one it is
    where it would be with the pieces gone and that many attempts fewer, and times out when there are no more.
   */
  lemma {:induction false} StaysAligned(u: Setup, rx: Bytes, turns: seq<Turn>, pieces: seq<Bytes>, attempts: nat)
    returns (rest: Bytes)
    requires Feeds(u, rx, turns, pieces) && |pieces| <= attempts
    ensures var s, k := Converse(u, rx, turns, attempts), FirstAnswer(u, pieces);
      if k < |pieces| then
        && s == Ended(Replied(DecodeFrame(u.cbor, pieces[k]).value), k + 1, rest, TurnsAfter(turns, k + 1))
        && Concat(pieces[..k + 1]) + rest == rx + Arrived(turns, k + 1)
      else
        && s == Converse(u, rest, TurnsAfter(turns, k), attempts - k).After(k)
        && (k == attempts ==> s == Ended(DeviceTimeout, k, rest, TurnsAfter(turns, k)))
        && Concat(pieces) + rest == rx + Arrived(turns, k)
    decreases attempts
  {
    hide Answers, DecodeFrame, Takes, Converse, Concat, Arrived, TurnsAfter, NextTurn, LaterTurns;
    if pieces == [] {
      rest := rx;
      NoPieces(u, rx, turns, attempts);
    } else {
      var piece, others, later := pieces[0], pieces[1..], LaterTurns(turns);
      var stream := rx + NextTurn(turns).bytes;
      ConverseStep(u, rx, turns, piece, attempts);
      if Answers(u, piece) {
        rest := stream[|piece|..];
        OnePiece(piece, rest, rx, turns);
        assert pieces[..1] == [piece];
      } else {
        rest := StaysAligned(u, stream[|piece|..], later, others, attempts - 1);
        var k := FirstAnswer(u, others);
        var n := if k < |others| then k + 1 else k;
        ArrivedFirst(rx, turns, n);
        assert others[..|others|] == others && pieces[..|pieces|] == pieces;
        ConcatFirst(pieces, n);
        PieceFirst(piece, Concat(others[..n]), rest, rx, turns, n);
      }
    }
  }

  /**
    What ends a call that nothing has answered yet: a finished context or a failing write, each with its own error and
    nothing more taken off the stream, or the number of attempts.
   */
  lemma {:induction false} EndsWithoutAnswer(u: Setup, rx: Bytes, turns: seq<Turn>, pieces: seq<Bytes>, attempts: nat)
    returns (rest: Bytes)
    requires Feeds(u, rx, turns, pieces) && |pieces| <= attempts && FirstAnswer(u, pieces) == |pieces|
    ensures var s, n, left := Converse(u, rx, turns, attempts), |pieces|, TurnsAfter(turns, |pieces|);
      && Concat(pieces) + rest == rx + Arrived(turns, n)
      && (n == attempts ==> s == Ended(DeviceTimeout, n, rest, left))
      && (n < attempts && NextTurn(left).Cancelled? ==> s == Ended(ContextError, n, rest, left))
      && (n < attempts && NextTurn(left).WriteFails? ==> s == Ended(WriteError, n, rest, LaterTurns(left)))
  {
    hide *;
    rest := StaysAligned(u, rx, turns, pieces, attempts);
    ConverseCases(u, rest, TurnsAfter(turns, |pieces|), attempts - |pieces|);
  }

  lemma {:induction false} NoPieces(u: Setup, rx: Bytes, turns: seq<Turn>, attempts: nat)
    ensures Concat([]) + rx == rx + Arrived(turns, 0) && TurnsAfter(turns, 0) == turns
    ensures Converse(u, rx, turns, attempts).After(0) == Converse(u, rx, turns, attempts)
    ensures Converse(u, rx, turns, 0) == Ended(DeviceTimeout, 0, rx, turns)
  {
  }

  lemma {:induction false} OnePiece(piece: Bytes, rest: Bytes, rx: Bytes, turns: seq<Turn>)
    requires NextTurn(turns).Reply? && piece + rest == rx + NextTurn(turns).bytes
    ensures Concat([piece]) + rest == rx + Arrived(turns, 1) && TurnsAfter(turns, 1) == LaterTurns(turns)
  {
    ArrivedOne(rx, turns);
    assert Concat([piece]) == piece + Concat([]);
  }

  /** There is exactly one way to cut up what any n attempts that write meet, so the theorem leaves no stream out. */
  lemma {:induction false} AlwaysFed(u: Setup, rx: Bytes, turns: seq<Turn>, n: nat) returns (pieces: seq<Bytes>)
    requires WritesSucceed(turns, n)
    ensures |pieces| == n && Feeds(u, rx, turns, pieces)
    ensures forall other :: |other| == n && Feeds(u, rx, turns, other) ==> other == pieces
    decreases n
  {
    hide Takes;
    if n == 0 {
      pieces := [];
    } else {
      var stream, later := rx + NextTurn(turns).bytes, LaterTurns(turns);
      var k := ReadReply(u, stream).1;
      TakesRead(u, stream);
      var others := AlwaysFed(u, stream[k..], later, n - 1);
      pieces := [stream[..k]] + others;
      assert pieces[1..] == others;
      forall other: seq<Bytes> | |other| == n && Feeds(u, rx, turns, other) ensures other == pieces {
        ReadTakes(u, stream, other[0]);
        assert other[0] == stream[..k];
        assert other[1..] == others;
        assert other == [other[0]] + other[1..];
      }
    }
  }

  lemma {:induction false} TakesRead(u: Setup, stream: Bytes)
    ensures Takes(u, stream, stream[..ReadReply(u, stream).1])
  {
    hide NatOf;
    var (raw, n) := ReadReply(u, stream);
    if raw.Some? {
      assert raw.value[5] == stream[5];
    } else {
      assert stream[..n] == stream;
    }
  }

  // ---- what is accepted ---------------------------------------------------------------------------

  /** The same bridge without a secret. */
  function Unkeyed(u: Setup): Setup {
    u.(secret := None)
  }

  /** Without a secret a string answers exactly if it is one readable frame, of whatever kind and for whatever call. */
  lemma {:induction false} UnkeyedAnswersIff(u: Setup, p: Bytes)
    requires u.secret.None?
    ensures Answers(u, p) <==>
      && |p| >= 6 && |p| == 6 + NatOf(p[5])
      && p[0] == 1 && (p[5] == 0 || u.cbor.unmarshal(p[6..]).Some?)
  {
    hide DecodeFrame, NatOf;
    DecodesIff(u.cbor, p);
    if |p| >= 6 && |p| == 6 + NatOf(p[5]) {
      assert p[6..6 + NatOf(p[5])] == p[6..];
    }
  }

  /** What a tag does not change. */
  lemma {:induction false} SignedDecodes(c: Cbor, f: Bytes, tag: Bytes)
    requires SelfDelimited(f)
    ensures DecodeFrame(c, f + tag) == match DecodeFrame(c, f) case Some(x) => Some(x.(hmac := tag)) case None => None
  {
    hide NatOf;
    var data, n := f + tag, NatOf(f[5]);
    assert data[5] == f[5] && data[HEADER_SIZE..HEADER_SIZE + n] == f[HEADER_SIZE..HEADER_SIZE + n];
    assert data[HEADER_SIZE + n..] == tag && f[HEADER_SIZE + n..] == [];
  }

  lemma {:induction false} TagLength(u: Setup, f: Bytes)
    requires u.secret.Some?
    ensures |Tag(u.mac, u.secret.value, f)| == 16
  {
  }

  lemma {:induction false} SignedDelimited(u: Setup, f: Bytes)
    requires u.secret.Some? && SelfDelimited(f)
    ensures Delimited(u, AppendTag(u.mac, u.secret.value, f)) && Delimited(Unkeyed(u), f)
  {
    hide NatOf, Tag;
    TagLength(u, f);
    assert AppendTag(u.mac, u.secret.value, f)[5] == f[5];
  }

  /** With a secret a frame is an answer under its tag exactly if it is one without. */
  lemma {:induction false} KeyedAnswersIff(u: Setup, f: Bytes)
    requires u.secret.Some? && SelfDelimited(f)
    ensures Answers(u, AppendTag(u.mac, u.secret.value, f)) <==> Answers(Unkeyed(u), f)
  {
    hide DecodeFrame, VerifyTag, Delimited, Tag, NatOf;
    var tag := Tag(u.mac, u.secret.value, f);
    SignedDelimited(u, f);
    TagLength(u, f);
    SignedDecodes(u.cbor, f, tag);
    VerifyIffAppended(u.mac, u.secret.value, AppendTag(u.mac, u.secret.value, f));
  }

  /** And nothing else is: the keyed bridge accepts exactly the readable frames with their tag appended. */
  lemma {:induction false} KeyedAnswersAre(u: Setup, p: Bytes)
    requires u.secret.Some?
    ensures Answers(u, p) <==>
      exists f: Bytes :: SelfDelimited(f) && Answers(Unkeyed(u), f) && p == AppendTag(u.mac, u.secret.value, f)
  {
    hide DecodeFrame, VerifyTag, AppendTag, SelfDelimited;
    if Answers(u, p) {
      VerifyIffAppended(u.mac, u.secret.value, p);
      var f: Bytes :| SelfDelimited(f) && p == AppendTag(u.mac, u.secret.value, f);
      KeyedAnswersIff(u, f);
    }
    if f: Bytes :| SelfDelimited(f) && Answers(Unkeyed(u), f) && p == AppendTag(u.mac, u.secret.value, f) {
      KeyedAnswersIff(u, f);
    }
  }

  /** An answer that arrives at once on an empty stream is what the call returns, at its first attempt. */
  lemma {:induction false} AnswerReturned(u: Setup, p: Bytes, attempts: nat)
    requires Answers(u, p) && attempts > 0
    ensures DecodeFrame(u.cbor, p).Some?
    ensures Converse(u, [], [Reply(p)], attempts) == Ended(Replied(DecodeFrame(u.cbor, p).value), 1, [], [])
  {
    hide Converse, ReadReply, Delimited, DecodeFrame, VerifyTag;
    TakesFirst(u, p, []);
    assert p + [] == p && [] + p == p;
    ConverseStep(u, [], [Reply(p)], p, attempts);
  }

  /**
    What the device's reply encoder produces with a body of at most 255 bytes, signed when the bridge is keyed, is what
    the call returns: same sequence byte, same intent, same status and result.
   */
  lemma {:induction false} ReplyIsReturned(
      u: Setup, seqNo: bv8, intent: U16, status: string, result: Params, attempts: nat)
    requires Lawful(u.cbor) && attempts > 0
    requires var m := ReplyParams(status, result); u.cbor.marshal(m).Some? && |u.cbor.marshal(m).value| <= 255
    ensures var m := ReplyParams(status, result);
      var f := FrameBytes(DCP_REPLY, seqNo, intent, u.cbor.marshal(m).value);
      var s := Converse(u, [], [Reply(OnWire(u, f))], attempts);
      && s.result.Replied? && s.writes == 1 && s.rx == []
      && s.result.frame.ver == 1 && s.result.frame.kind == 0x02
      && s.result.frame.seqNo == seqNo && s.result.frame.intent == intent && s.result.frame.payload == Some(m)
  {
    hide Converse, ReadReply, DecodeFrame, VerifyTag, Tag, ReplyParams, NatOf, ByteOf, Acceptable, Lawful;
    var m := ReplyParams(status, result);
    var body := u.cbor.marshal(m).value;
    var f := FrameBytes(DCP_REPLY, seqNo, intent, body);
    ReplyRoundTripIff(u.cbor, seqNo, intent, status, result);
    ReplyDelimited(seqNo, intent, body);
    ReadableAnswers(Unkeyed(u), f);
    if u.secret.Some? {
      KeyedAnswersIff(u, f);
      SignedDecodes(u.cbor, f, Tag(u.mac, u.secret.value, f));
    } else {
      assert Unkeyed(u) == u;
    }
    AnswerReturned(u, OnWire(u, f), attempts);
  }

  lemma {:induction false} ReplyDelimited(seqNo: bv8, intent: U16, body: Bytes)
    requires |body| <= 255
    ensures SelfDelimited(FrameBytes(DCP_REPLY, seqNo, intent, body))
  {
    hide NatOf, ByteOf;
    NatOfByteOf(|body|);
  }

  lemma {:induction false} ReadableAnswers(u: Setup, f: Bytes)
    requires u.secret.None? && SelfDelimited(f) && DecodeFrame(u.cbor, f).Some?
    ensures Answers(u, f)
  {
    hide DecodeFrame, NatOf;
  }

  // ---- whose answer it is ------------------------------------------------------------------------

  ghost predicate AllAnswer(u: Setup, frames: seq<Bytes>) {
    forall i :: 0 <= i < |frames| ==> Answers(u, frames[i])
  }

  /** A call whose own reply arrives at once, with rx in the stream before. */
  function PromptCall(u: Setup, rx: Bytes, reply: Bytes, attempts: nat): Called {
    Converse(u, rx, [Reply(reply)], attempts)
  }

  /** What n such calls in a row leave in the stream. */
  function RxAfter(u: Setup, rx: Bytes, replies: seq<Bytes>, attempts: nat, n: nat): Bytes
    requires n <= |replies|
  {
    if n == 0 then rx else PromptCall(u, RxAfter(u, rx, replies, attempts, n - 1), replies[n - 1], attempts).rx
  }

  lemma {:induction false} ConcatLast(frames: seq<Bytes>, f: Bytes)
    ensures Concat(frames + [f]) == Concat(frames) + f
  {
    if frames == [] {
      assert [] + [f] == [f] && [f][1..] == [];
      assert Concat([]) == [] && f + [] == f && [] + f == f;
    } else {
      assert (frames + [f])[1..] == frames[1..] + [f];
      ConcatLast(frames[1..], f);
      assert frames[0] + (Concat(frames[1..]) + f) == frames[0] + Concat(frames[1..]) + f;
    }
  }

  lemma {:induction false} TakesFirst(u: Setup, frame: Bytes, rest: Bytes)
    requires Answers(u, frame)
    ensures Takes(u, frame + rest, frame) && (frame + rest)[|frame|..] == rest
  {
    hide Acceptable, Delimited;
  }

  /** A call takes the oldest frame in the stream and leaves its own reply at the end. */
  lemma {:induction false} QueueStep(u: Setup, frames: seq<Bytes>, reply: Bytes, attempts: nat)
    requires AllAnswer(u, frames + [reply]) && attempts > 0
    ensures var all := frames + [reply];
      PromptCall(u, Concat(frames), reply, attempts)
        == Ended(Replied(DecodeFrame(u.cbor, all[0]).value), 1, Concat(all[1..]), [])
  {
    hide Answers, Takes, Converse, DecodeFrame;
    var all := frames + [reply];
    assert Answers(u, all[0]);
    ConcatLast(frames, reply);
    assert Concat(all) == all[0] + Concat(all[1..]);
    TakesFirst(u, all[0], Concat(all[1..]));
    ConverseStep(u, Concat(frames), [Reply(reply)], all[0], attempts);
  }

  lemma {:induction false} QueueLeft(u: Setup, backlog: seq<Bytes>, replies: seq<Bytes>, attempts: nat, n: nat)
    requires AllAnswer(u, backlog + replies) && attempts > 0 && n <= |replies|
    ensures RxAfter(u, Concat(backlog), replies, attempts, n) == Concat((backlog + replies[..n])[n..])
  {
    hide PromptCall, Answers, Concat;
    if n == 0 {
      assert (backlog + replies[..0])[0..] == backlog;
    } else {
      var before := (backlog + replies[..n - 1])[n - 1..];
      QueueLeft(u, backlog, replies, attempts, n - 1);
      QueueRest(backlog, replies, n);
      AnswerSlice(u, backlog + replies, before + [replies[n - 1]], n - 1);
      QueueStep(u, before, replies[n - 1], attempts);
    }
  }

  lemma {:induction false} QueueRest(backlog: seq<Bytes>, replies: seq<Bytes>, n: nat)
    requires 0 < n <= |replies|
    ensures var q := (backlog + replies[..n - 1])[n - 1..] + [replies[n - 1]];
      && q == (backlog + replies)[n - 1..|backlog| + n]
      && q[1..] == (backlog + replies[..n])[n..]
      && q[0] == (backlog + replies)[n - 1]
  {
    var q := (backlog + replies[..n - 1])[n - 1..] + [replies[n - 1]];
    assert replies[..n] == replies[..n - 1] + [replies[n - 1]];
    assert (backlog + replies[..n])[n - 1..] == q;
    assert q == (backlog + replies)[n - 1..|backlog| + n];
  }

  lemma {:induction false} AnswerSlice(u: Setup, all: seq<Bytes>, part: seq<Bytes>, i: nat)
    requires AllAnswer(u, all) && i + |part| <= |all| && part == all[i..i + |part|]
    ensures AllAnswer(u, part)
  {
    hide Answers;
  }

  /**
    `SendDCP` compares neither sequence byte nor intent, so the stream is a queue: when m acceptable frames are left
    over, signed ones included, call n is answered with frame n of the backlog followed by the replies.
   */
  lemma {:induction false} QueueAnswers(u: Setup, backlog: seq<Bytes>, replies: seq<Bytes>, attempts: nat, n: nat)
    requires AllAnswer(u, backlog + replies) && attempts > 0 && n < |replies|
    ensures var s := PromptCall(u, RxAfter(u, Concat(backlog), replies, attempts, n), replies[n], attempts);
      s.result == Replied(DecodeFrame(u.cbor, (backlog + replies)[n]).value) && s.writes == 1
  {
    hide PromptCall, RxAfter, Answers, Concat, DecodeFrame;
    var before := (backlog + replies[..n])[n..];
    QueueLeft(u, backlog, replies, attempts, n);
    QueueRest(backlog, replies, n + 1);
    AnswerSlice(u, backlog + replies, before + [replies[n]], n);
    QueueStep(u, before, replies[n], attempts);
  }

  /** The frames answer consecutive calls, the first one in the backlog the call numbered `first`. */
  ghost predicate NumberedFrames(u: Setup, frames: seq<Bytes>, first: nat) {
    forall i :: 0 <= i < |frames| ==>
      DecodeFrame(u.cbor, frames[i]).Some? && DecodeFrame(u.cbor, frames[i]).value.seqNo == ByteOf(first + i)
  }

  /**
    So the answer names the call's own sequence byte if and only if the number of frames left over is a multiple of
    256; in practice, if there are none.
   */
  lemma {:induction false} AnswerIsOwnIff(
      u: Setup, backlog: seq<Bytes>, replies: seq<Bytes>, attempts: nat, first: nat, n: nat)
    requires AllAnswer(u, backlog + replies) && NumberedFrames(u, backlog + replies, first)
    requires attempts > 0 && n < |replies|
    ensures var s := PromptCall(u, RxAfter(u, Concat(backlog), replies, attempts, n), replies[n], attempts);
      s.result.Replied? && (s.result.frame.seqNo == ByteOf(first + |backlog| + n) <==> |backlog| % 256 == 0)
  {
    hide PromptCall, RxAfter, AllAnswer, Concat, DecodeFrame, ByteOf;
    QueueAnswers(u, backlog, replies, attempts, n);
    ByteOfEqual(first + n, first + |backlog| + n);
    ModuloShift(first + n, |backlog|);
  }

  lemma {:induction false} ModuloShift(a: nat, m: nat)
    ensures (a + m) % 256 == a % 256 <==> m % 256 == 0
  {
  }

  // ---- authenticity -------------------------------------------------------------------------

  /** The stream, split where an answer signed under the bridge's secret ends. */
  ghost predicate EndsWithSigned(u: Setup, stream: Bytes, frame: Frame, rest: Bytes)
    requires u.secret.Some?
  {
    exists before: Bytes, f: Bytes ::
      && SelfDelimited(f)
      && DecodeFrame(u.cbor, AppendTag(u.mac, u.secret.value, f)) == Some(frame)
      && stream == before + AppendTag(u.mac, u.secret.value, f) + rest
  }

  lemma {:induction false} EndsWithSignedPrepend(u: Setup, head: Bytes, stream: Bytes, frame: Frame, rest: Bytes)
    requires u.secret.Some? && EndsWithSigned(u, stream, frame, rest)
    ensures EndsWithSigned(u, head + stream, frame, rest)
  {
    hide AppendTag, DecodeFrame, SelfDelimited;
    var before: Bytes, f: Bytes :|
      && SelfDelimited(f)
      && DecodeFrame(u.cbor, AppendTag(u.mac, u.secret.value, f)) == Some(frame)
      && stream == before + AppendTag(u.mac, u.secret.value, f) + rest;
    assert head + stream == (head + before) + AppendTag(u.mac, u.secret.value, f) + rest;
  }

  lemma {:induction false} AcceptedIsSigned(u: Setup, rx: Bytes)
    requires u.secret.Some?
    requires ReadReply(u, rx).0.Some? && Acceptable(u, ReadReply(u, rx).0.value)
    ensures EndsWithSigned(u, rx, DecodeFrame(u.cbor, ReadReply(u, rx).0.value).value, rx[ReadReply(u, rx).1..])
  {
    hide DecodeFrame, AppendTag, SelfDelimited, VerifyTag;
    var (raw, n) := ReadReply(u, rx);
    VerifyIffAppended(u.mac, u.secret.value, raw.value);
    var f: Bytes :| SelfDelimited(f) && raw.value == AppendTag(u.mac, u.secret.value, f);
    assert rx == [] + AppendTag(u.mac, u.secret.value, f) + rx[n..];
  }

  /**
    On any stream whatever, a keyed bridge only answers with a frame signed under its secret, found right
    before what is left unread.
   */
  lemma {:induction false} AnswersAreSigned(u: Setup, rx: Bytes, turns: seq<Turn>, attempts: nat)
    requires u.secret.Some? && Converse(u, rx, turns, attempts).result.Replied?
    ensures var s := Converse(u, rx, turns, attempts);
      1 <= s.writes <= attempts && EndsWithSigned(u, rx + Arrived(turns, s.writes), s.result.frame, s.rx)
    decreases attempts
  {
    hide ReadReply, Acceptable, EndsWithSigned, DecodeFrame;
    var s := Converse(u, rx, turns, attempts);
    var b, later := NextTurn(turns).bytes, LaterTurns(turns);
    var stream := rx + b;
    var (raw, n) := ReadReply(u, stream);
    if raw.Some? && Acceptable(u, raw.value) {
      AcceptedIsSigned(u, stream);
      assert Arrived(later, 0) == [];
      assert rx + Arrived(turns, 1) == stream;
    } else {
      assert s == Converse(u, stream[n..], later, attempts - 1).After(1);
      hide Converse;
      AnswersAreSigned(u, stream[n..], later, attempts - 1);
      var more := Arrived(later, s.writes - 1);
      EndsWithSignedPrepend(u, stream[..n], stream[n..] + more, s.result.frame, s.rx);
      ArrivedFirst(rx, turns, s.writes - 1);
      Rejoin(stream, n, more);
    }
  }
}
