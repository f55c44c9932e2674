/** The uRPC wire format: the daemon's encoders and decoder, and the firmware's parser. */
module UrpcFrames {
  import opened Octets
  import opened Gf2
  import opened Crc8

  const HEADER_REQUEST: bv8 := 0xAA
  const HEADER_ACK: bv8 := 0xBB
  const STATUS_OK: bv8 := 0x00
  const STATUS_INVALID_CMD: bv8 := 0x02
  const STATUS_ERROR: bv8 := 0xFF
  const MAX_PAYLOAD := 64

  datatype Request = Request(seqNo: bv8, cmd: bv8, payload: Bytes)

  datatype Ack = Ack(seqNo: bv8, status: bv8, queueDepth: bv8)

  /** What the firmware makes of one chunk; the errors carry the byte it echoes. */
  datatype Parsed = BadHeader | TooShort(seqNo: bv8) | BadCrc(seqNo: bv8) | Valid(req: Request)

  function RequestBody(r: Request): Bytes
    requires |r.payload| < 256
  {
    [r.seqNo, r.cmd, ByteOf(|r.payload|)] + r.payload
  }

  function RequestFrame(r: Request): Bytes
    requires |r.payload| < 256
  {
    [HEADER_REQUEST] + Protect(RequestBody(r))
  }

  function AckBody(a: Ack): Bytes {
    [a.seqNo, a.status, a.queueDepth]
  }

  function AckFrame(a: Ack): Bytes {
    [HEADER_ACK] + Protect(AckBody(a))
  }

  lemma {:induction false} RequestBytes(r: Request)
    requires |r.payload| < 256
    ensures var f, n := RequestFrame(r), |r.payload|;
      && |f| == 5 + n && f[0] == 0xAA && f[1] == r.seqNo && f[2] == r.cmd && NatOf(f[3]) == n
      && f[4..4 + n] == r.payload && f[4 + n] == Crc(f[1..4 + n])
  {
    hide NatOf, Crc, ByteOf;
    NatOfByteOf(|r.payload|);
    var f, n := RequestFrame(r), |r.payload|;
    assert f[1..4 + n] == RequestBody(r);
    assert f[4..4 + n] == r.payload;
  }

  method EncodeRequest(r: Request) returns (frame: Option<Bytes>)
    ensures frame == if |r.payload| > 64 then None else Some(RequestFrame(r))
    ensures frame.Some? ==>
      var f, n := frame.value, |r.payload|;
      && |f| == 5 + n && f[0] == 0xAA && f[1] == r.seqNo && f[2] == r.cmd && NatOf(f[3]) == n
      && f[4..4 + n] == r.payload && f[4 + n] == Crc(f[1..4 + n])
  {
    hide NatOf, Crc;
    if |r.payload| > MAX_PAYLOAD {
      return None;
    }
    var buf: Bytes := [HEADER_REQUEST, r.seqNo, r.cmd, ByteOf(|r.payload|)];
    buf := buf + r.payload;
    assert buf[1..] == RequestBody(r);
    var crc := ComputeCrc(buf[1..]);
    buf := buf + [crc];
    assert buf == RequestFrame(r);
    RequestBytes(r);
    return Some(buf);
  }

  method EncodeAck(a: Ack) returns (frame: Bytes)
    ensures frame == AckFrame(a)
    ensures |frame| == 5 && frame[..4] == [0xBB, a.seqNo, a.status, a.queueDepth] && frame[4] == Crc(frame[1..4])
  {
    var data: Bytes := [HEADER_ACK, a.seqNo, a.status, a.queueDepth];
    assert data[1..] == AckBody(a);
    var crc := ComputeCrc(data[1..]);
    frame := data + [crc];
  }

  function DecodeAck(frame: Bytes): Option<Ack> {
    if |frame| < 5 then None
    else if frame[0] != HEADER_ACK then None
    else if frame[|frame| - 1] != Crc(frame[1..|frame| - 1]) then None
    else Some(Ack(frame[1], frame[2], frame[3]))
  }

  function Parse(chunk: Bytes): Parsed {
    if |chunk| < 4 || chunk[0] != HEADER_REQUEST then BadHeader
    else
      var n := NatOf(chunk[3]);
      if |chunk| < 4 + n + 1 then TooShort(chunk[1])
      else if chunk[4 + n] != Crc(chunk[1..4 + n]) then BadCrc(chunk[1])
      else Valid(Request(chunk[1], chunk[2], chunk[4..4 + n]))
  }

  // ---- round trips ----------------------------------------------------------------

  /** The part of a chunk that the firmware's length byte delimits and its CRC covers. */
  function Covered(chunk: Bytes): Bytes
    requires |chunk| >= 4 && |chunk| >= 5 + NatOf(chunk[3])
  {
    chunk[1..5 + NatOf(chunk[3])]
  }

  lemma {:induction false} ParseChecks(chunk: Bytes)
    ensures Parse(chunk).Valid? <==>
      && |chunk| >= 4 && chunk[0] == HEADER_REQUEST
      && |chunk| >= 5 + NatOf(chunk[3]) && Checks(Covered(chunk))
  {
    hide NatOf, ByteOf, Crc;
    if |chunk| >= 4 && |chunk| >= 5 + NatOf(chunk[3]) {
      var n := NatOf(chunk[3]);
      var w := Covered(chunk);
      assert w[..|w| - 1] == chunk[1..4 + n];
      assert w[|w| - 1] == chunk[4 + n];
    }
  }

  lemma {:induction false} ParseFrame(r: Request, rest: Bytes)
    requires |r.payload| < 256
    ensures Parse(RequestFrame(r) + rest) == Valid(r)
  {
    hide NatOf, ByteOf, Crc;
    var n, chunk := |r.payload|, RequestFrame(r) + rest;
    NatOfByteOf(n);
    assert chunk[3] == ByteOf(n);
    assert chunk[1..4 + n] == RequestBody(r);
    assert chunk[4..4 + n] == r.payload;
  }

  lemma {:induction false} ParseOnlyFrames(chunk: Bytes)
    requires Parse(chunk).Valid?
    ensures |Parse(chunk).req.payload| < 256 && RequestFrame(Parse(chunk).req) <= chunk
  {
    hide NatOf, ByteOf, Crc;
    var n := NatOf(chunk[3]);
    var r := Parse(chunk).req;
    ByteOfNatOf(chunk[3]);
    assert chunk[1..4 + n] == RequestBody(r);
    assert chunk[1..5 + n] == chunk[1..4 + n] + [chunk[4 + n]];
    assert chunk[..5 + n] == [chunk[0]] + chunk[1..5 + n];
    assert RequestFrame(r) == chunk[..5 + n];
  }

  /** The firmware accepts exactly the encoder's frames, whatever follows them in the chunk. */
  lemma {:induction false} ParseIff(chunk: Bytes, r: Request)
    ensures Parse(chunk) == Valid(r) <==> |r.payload| < 256 && RequestFrame(r) <= chunk
  {
    if |r.payload| < 256 && RequestFrame(r) <= chunk {
      var k := |RequestFrame(r)|;
      assert chunk == RequestFrame(r) + chunk[k..];
      ParseFrame(r, chunk[k..]);
    }
    if Parse(chunk) == Valid(r) {
      ParseOnlyFrames(chunk);
    }
  }

  /** No request frame is a proper prefix of another one, so frames in a row have one reading. */
  lemma {:induction false} FramesPrefixFree(a: Request, b: Request)
    requires |a.payload| < 256 && |b.payload| < 256
    requires RequestFrame(a) <= RequestFrame(b)
    ensures a == b
  {
    ParseIff(RequestFrame(b), a);
    ParseIff(RequestFrame(b), b);
  }

  /** Among five-byte strings, the daemon accepts exactly the encoded acknowledgements. */
  lemma {:induction false} DecodeAckIff(frame: Bytes, a: Ack)
    requires |frame| == 5
    ensures DecodeAck(frame) == Some(a) <==> frame == AckFrame(a)
  {
    hide NatOf, ByteOf, Crc;
    assert frame[1..4] == [frame[1], frame[2], frame[3]];
    if frame == AckFrame(a) {
      assert frame[1..4] == AckBody(a);
    }
  }

  // ---- damaged frames ----------------------------------------------------------------

  lemma {:induction false} HeaderXor(h: bv8, e: bv8)
    ensures h ^ e == h <==> e == 0
  {
  }

  lemma {:induction false} XorTail(f: Bytes, e: Bytes)
    requires |f| == |e| >= 1
    ensures Xor(f, e)[1..] == Xor(f[1..], e[1..])
  {
    XorSlice(f, e, 1, |f|);
  }

  lemma {:induction false} RequestProtected(r: Request)
    requires |r.payload| < 256
    ensures |RequestFrame(r)| == 5 + |r.payload|
    ensures RequestFrame(r)[0] == HEADER_REQUEST && RequestFrame(r)[3] == ByteOf(|r.payload|)
    ensures Checks(RequestFrame(r)[1..])
  {
    hide NatOf, ByteOf, Crc;
    var w := RequestFrame(r)[1..];
    assert w == Protect(RequestBody(r));
    assert w[..|w| - 1] == RequestBody(r);
    ChecksIffProtected(w);
  }

  /**
    A request with its length byte intact gets through the firmware exactly when its
    header is intact and the rest of the error is a multiple of the generator.
   */
  lemma {:induction false} DamagedRequestIff(r: Request, e: Bytes, rest: Bytes)
    requires |r.payload| < 256
    requires |e| == |RequestFrame(r)| && e[3] == 0
    ensures Parse(Xor(RequestFrame(r), e) + rest).Valid? <==> e[0] == 0 && Multiple(PolyOf(e[1..]))
  {
    hide NatOf, ByteOf, Crc, PolyOf, Multiple, RequestFrame, Checks;
    RequestProtected(r);
    var f, n := RequestFrame(r), |r.payload|;
    var chunk := Xor(f, e) + rest;
    HeaderXor(f[0], e[0]);
    HeaderXor(f[3], e[3]);
    NatOfByteOf(n);
    UndetectedIffMultiple(f[1..], e[1..]);
    XorTail(f, e);
    assert Covered(chunk) == Xor(f, e)[1..];
    ParseChecks(chunk);
  }

  /** An intact first byte does not count towards the error. */
  lemma {:induction false} LeadingZero(e: Bytes)
    requires |e| >= 1 && e[0] == 0
    ensures PolyOf(e) == PolyOf(e[1..])
  {
    hide PolyOf;
    PolyOfConcat([0], e[1..]);
    assert e == [0] + e[1..];
    PolyOfZero([0]);
    assert Shift({}, 8 * |e[1..]|) == {};
    assert Add({}, PolyOf(e[1..])) == PolyOf(e[1..]);
  }

  lemma {:induction false} KnownErrorNotMultiple(w: Bytes, d: Bytes)
    requires Checks(w) && |d| == |w|
    requires Burst(d) || Weight(d) % 2 == 1 || (|w| <= 15 && 1 <= Weight(d) <= 3)
    ensures !Multiple(PolyOf(d))
  {
    hide *;
    UndetectedIffMultiple(w, d);
    if Burst(d) {
      BurstDetected(w, d);
    } else if Weight(d) % 2 == 1 {
      OddWeightDetected(w, d);
    } else {
      SmallWeightDetected(w, d);
    }
  }

  lemma {:induction false} TailError(e: Bytes)
    requires |e| >= 1 && e[0] == 0
    ensures Weight(e[1..]) == Weight(e)
    ensures Burst(e) ==> Burst(e[1..])
  {
    hide PolyOf;
    LeadingZero(e);
  }

  /**
    Errors the firmware always rejects when the length byte is intact: up to eight bits in a row, any odd number of
    bits, three bits when short.
   */
  lemma {:induction false} DamagedRequestRejected(r: Request, e: Bytes, rest: Bytes)
    requires |r.payload| < 256
    requires |e| == |RequestFrame(r)| && e[3] == 0
    requires Burst(e) || Weight(e) % 2 == 1 || (|r.payload| <= 11 && 1 <= Weight(e) <= 3)
    ensures !Parse(Xor(RequestFrame(r), e) + rest).Valid?
  {
    hide NatOf, ByteOf, Crc, PolyOf, Multiple, RequestFrame, Checks, Burst, Weight, Parse;
    DamagedRequestIff(r, e, rest);
    RequestProtected(r);
    if e[0] == 0 {
      TailError(e);
      KnownErrorNotMultiple(RequestFrame(r)[1..], e[1..]);
    }
  }

  /** The firmware accepts a chunk exactly when the window its length byte delimits is a multiple of the generator. */
  lemma {:induction false} ParseIffMultiple(chunk: Bytes)
    ensures Parse(chunk).Valid? <==>
      && |chunk| >= 4 && chunk[0] == HEADER_REQUEST
      && |chunk| >= 5 + NatOf(chunk[3]) && Multiple(PolyOf(chunk[1..5 + NatOf(chunk[3])]))
  {
    hide NatOf, Crc, PolyOf, Multiple, Checks, Parse;
    ParseChecks(chunk);
    if |chunk| >= 4 && |chunk| >= 5 + NatOf(chunk[3]) {
      ChecksIffMultiple(Covered(chunk));
    }
  }

  lemma {:induction false} DamagedHeader(r: Request, e: Bytes, rest: Bytes)
    requires |r.payload| < 256 && |e| == |RequestFrame(r)|
    ensures var chunk := Xor(RequestFrame(r), e) + rest;
      |chunk| >= 5 && (chunk[0] == HEADER_REQUEST <==> e[0] == 0)
  {
    hide NatOf, ByteOf, Crc;
    HeaderXor(RequestFrame(r)[0], e[0]);
  }

  /**
    Whatever the damage does to the length byte: the request gets through exactly when its header is intact and the
    window that the length byte now delimits is all there and a multiple of the generator.
   */
  lemma {:induction false} DamagedLengthIff(r: Request, e: Bytes, rest: Bytes)
    requires |r.payload| < 256 && |e| == |RequestFrame(r)| >= 5
    ensures var chunk := Xor(RequestFrame(r), e) + rest;
      Parse(chunk).Valid? <==>
        e[0] == 0 && |chunk| >= 5 + NatOf(chunk[3]) && Multiple(PolyOf(chunk[1..5 + NatOf(chunk[3])]))
  {
    hide *;
    DamagedHeader(r, e, rest);
    ParseIffMultiple(Xor(RequestFrame(r), e) + rest);
  }

  /**
    So one flipped bit can be enough: in a request whose single payload byte is the CRC of the same command without
    payload, flipping the last bit of the length byte makes the firmware accept that other command.
   */
  lemma {:induction false} OneLengthBitAccepted(seqNo: bv8, cmd: bv8, rest: Bytes)
    ensures var q, e := Request(seqNo, cmd, []), [0, 0, 0, 1, 0, 0];
      var r := Request(seqNo, cmd, [Crc(RequestBody(q))]);
      && |e| == |RequestFrame(r)| && Weight(e) == 1 && q != r
      && Parse(Xor(RequestFrame(r), e) + rest) == Valid(q)
  {
    hide *;
    var q, e: Bytes := Request(seqNo, cmd, []), [0, 0, 0, 1, 0, 0];
    var r := Request(seqNo, cmd, [Crc(RequestBody(q))]);
    OneBitWeight();
    FlippedFront(seqNo, cmd);
    PrefixStays(RequestFrame(q), Xor(RequestFrame(r), e), rest);
    ParseIff(Xor(RequestFrame(r), e) + rest, q);
  }

  lemma {:induction false} PrefixStays(head: Bytes, s: Bytes, rest: Bytes)
    requires head <= s
    ensures head <= s + rest
  {
  }

  lemma {:induction false} FlippedFront(seqNo: bv8, cmd: bv8)
    ensures var q := Request(seqNo, cmd, []);
      var r := Request(seqNo, cmd, [Crc(RequestBody(q))]);
      && |RequestFrame(r)| == 6 && q != r
      && RequestFrame(q) <= Xor(RequestFrame(r), [0, 0, 0, 1, 0, 0])
  {
    hide Crc, RequestFrame, Xor;
    ShortFrames(seqNo, cmd);
    FlipFourth(RequestFrame(Request(seqNo, cmd, [Crc(RequestBody(Request(seqNo, cmd, [])))])));
  }

  lemma {:induction false} ShortFrames(seqNo: bv8, cmd: bv8)
    ensures var q := Request(seqNo, cmd, []);
      var x := Crc(RequestBody(q));
      var r := Request(seqNo, cmd, [x]);
      && RequestFrame(q) == [HEADER_REQUEST, seqNo, cmd, 0, x]
      && |RequestFrame(r)| == 6 && RequestFrame(r)[..5] == [HEADER_REQUEST, seqNo, cmd, 1, x]
  {
    hide Crc;
    LengthBits();
  }

  lemma {:induction false} FlipFourth(f: Bytes)
    requires |f| == 6 && f[3] == 1
    ensures Xor(f, [0, 0, 0, 1, 0, 0])[..5] == f[..5][3 := 0]
  {
    LengthBits();
    XorNothing(f[0]);
    XorNothing(f[1]);
    XorNothing(f[2]);
    XorNothing(f[4]);
  }

  lemma {:induction false} XorNothing(b: bv8)
    ensures b ^ 0 == b
  {
  }

  lemma {:induction false} LengthBits()
    ensures ByteOf(0) == 0 && ByteOf(1) == 1 && (1 as bv8) ^ 1 == 0
  {
  }

  lemma {:induction false} OneBitWeight()
    ensures Weight([0, 0, 0, 1, 0, 0]) == 1
  {
    hide PolyOf, BytePoly;
    OneBitPoly();
    var a: Bytes, b: Bytes, c: Bytes := [0, 0, 0], [1], [0, 0];
    PolyOfZero(a);
    PolyOfZero(c);
    PolyOfOne(1);
    PolyOfConcat(a, b);
    assert Add(Shift({}, 8), {0}) == {0};
    PolyOfConcat(a + b, c);
    assert Add(Shift({0}, 16), {}) == {16};
    assert a + b + c == [0, 0, 0, 1, 0, 0];
  }

  lemma {:induction false} OneBitPoly()
    ensures BytePoly(1) == {0}
  {
  }

  /** With a payload of 12 bytes or more, two flipped bits at distance 127 get through. */
  lemma {:induction false} LongRequestPairAccepted(r: Request) returns (e: Bytes)
    requires 12 <= |r.payload| < 256
    ensures |e| == |RequestFrame(r)| && e[0] == 0 && e[3] == 0 && Weight(e) == 2
    ensures Parse(Xor(RequestFrame(r), e) + []).Valid?
  {
    hide NatOf, ByteOf, Crc, PolyOf, Multiple, RequestFrame, Checks, FarPairBytes, Parse;
    RequestProtected(r);
    var n := |r.payload| + 4;
    var d, w := FarPairBytes(n), RequestFrame(r)[1..];
    FarPair(n);
    var k := 8 * (n - 16);
    PairUndetectedIff(w, d, k, k + 127);
    UndetectedIffMultiple(w, d);
    e := [0] + d;
    assert e[1..] == d;
    LeadingZero(e);
    DamagedRequestIff(r, e, []);
  }

  /** One, two or three flipped bits after the header of an acknowledgement never decode. */
  lemma {:induction false} DamagedAckRejected(a: Ack, e: Bytes)
    requires |e| == 5 && e[0] == 0 && 1 <= Weight(e) <= 3
    ensures DecodeAck(Xor(AckFrame(a), e)) == None
  {
    hide NatOf, ByteOf, Crc, PolyOf, Multiple, Weight;
    var f := AckFrame(a);
    var w, g := f[1..], Xor(f, e);
    assert w == Protect(AckBody(a));
    assert w[..3] == AckBody(a);
    TailError(e);
    SmallWeightDetected(w, e[1..]);
    XorTail(f, e);
    assert g[1..][..3] == g[1..4];
  }
}
