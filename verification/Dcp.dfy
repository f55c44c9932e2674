/** The DCP frame codec, with the CBOR and HMAC libraries as parameters. */
module Dcp {
  import opened Octets

  const DCP_VERSION: bv8 := 1
  const DCP_CALL: bv8 := 0x01
  const DCP_REPLY: bv8 := 0x02
  const DCP_DRY_RUN: bv8 := 0x81
  const HEADER_SIZE := 6
  const HMAC_SIZE := 16
  const MAX_PAYLOAD := 64

  type U16 = n: nat | n < 0x1_0000

  datatype Item = Text(s: string) | Number(n: real) | Flag(b: bool) | Table(m: map<string, Item>)

  type Params = map<string, Item>

  /** The CBOR library; both directions may fail. */
  datatype Cbor = Cbor(marshal: Params -> Option<Bytes>, unmarshal: Bytes -> Option<Params>)

  /** What the model needs of CBOR: items read back as written, and are self-delimiting. */
  ghost predicate Lawful(c: Cbor) {
    forall m: Params :: c.marshal(m).Some? ==>
      && c.marshal(m).value != []
      && c.unmarshal(c.marshal(m).value) == Some(m)
      && forall k :: 0 <= k < |c.marshal(m).value| ==> c.unmarshal(c.marshal(m).value[..k]) == None
  }

  type Digest = d: Bytes | |d| == 32 witness Zeros(32)

  /** HMAC-SHA-256 of a message under a key. */
  type Mac = (Bytes, Bytes) -> Digest

  datatype Frame = Frame(ver: bv8, kind: bv8, seqNo: bv8, intent: U16, payload: Option<Params>, hmac: Bytes)

  datatype Encoded = Encoded(bytes: Bytes) | MarshalFailed | TooLarge

  /** The wire form; the length byte is the body's length cut to eight bits. */
  function FrameBytes(kind: bv8, seqNo: bv8, intent: U16, body: Bytes): Bytes {
    [DCP_VERSION, kind, seqNo, ByteOf(intent / 256), ByteOf(intent % 256), ByteOf(|body|)] + body
  }

  function CallBytes(c: Cbor, kind: bv8, seqNo: bv8, intent: U16, params: Params): Encoded {
    match c.marshal(params)
    case None => MarshalFailed
    case Some(body) => if |body| > MAX_PAYLOAD then TooLarge else Encoded(FrameBytes(kind, seqNo, intent, body))
  }

  function ReplyParams(status: string, result: Params): Params {
    map["status" := Text(status), "result" := Table(result)]
  }

  method FillFrame(kind: bv8, seqNo: bv8, intent: U16, body: Bytes) returns (frame: array<bv8>)
    ensures fresh(frame) && frame[..] == FrameBytes(kind, seqNo, intent, body)
  {
    frame := new bv8[HEADER_SIZE + |body|];
    frame[0] := DCP_VERSION;
    frame[1] := kind;
    frame[2] := seqNo;
    frame[3], frame[4] := ByteOf(intent / 256), ByteOf(intent % 256);
    frame[5] := ByteOf(|body|);
    forall i | 0 <= i < |body| {
      frame[HEADER_SIZE + i] := body[i];
    }
  }

  method EncodeCall(c: Cbor, seqNo: bv8, intent: U16, params: Params) returns (r: Encoded)
    ensures r == CallBytes(c, 0x01, seqNo, intent, params)
  {
    var body := c.marshal(params);
    if body == None {
      return MarshalFailed;
    }
    if |body.value| > MAX_PAYLOAD {
      return TooLarge;
    }
    var frame := FillFrame(DCP_CALL, seqNo, intent, body.value);
    return Encoded(frame[..]);
  }

  method EncodeDryRun(c: Cbor, seqNo: bv8, intent: U16, params: Params) returns (r: Encoded)
    ensures r == CallBytes(c, 0x81, seqNo, intent, params)
  {
    r := EncodeCall(c, seqNo, intent, params);
    if r.Encoded? {
      r := Encoded(r.bytes[1 := DCP_DRY_RUN]);
    }
  }

  /** Unlike a call, a reply is not limited in size. */
  method EncodeReply(c: Cbor, seqNo: bv8, intent: U16, status: string, result: Params) returns (r: Encoded)
    ensures r == match c.marshal(ReplyParams(status, result))
                 case None => MarshalFailed
                 case Some(body) => Encoded(FrameBytes(0x02, seqNo, intent, body))
  {
    var body := c.marshal(ReplyParams(status, result));
    if body == None {
      return MarshalFailed;
    }
    var frame := FillFrame(DCP_REPLY, seqNo, intent, body.value);
    return Encoded(frame[..]);
  }

  function DecodeFrame(c: Cbor, data: Bytes): Option<Frame> {
    if |data| < HEADER_SIZE || data[0] != DCP_VERSION then None
    else
      var n := NatOf(data[5]);
      if |data| < HEADER_SIZE + n then None
      else
        var params := if n > 0 then c.unmarshal(data[HEADER_SIZE..HEADER_SIZE + n]) else None;
        if n > 0 && params == None then None
        else
          var intent := 256 * NatOf(data[3]) + NatOf(data[4]);
          Some(Frame(data[0], data[1], data[2], intent, params, data[HEADER_SIZE + n..]))
  }

  function Tag(mac: Mac, secret: Bytes, frame: Bytes): Bytes {
    mac(secret, frame)[..HMAC_SIZE]
  }

  function AppendTag(mac: Mac, secret: Bytes, frame: Bytes): Bytes {
    frame + Tag(mac, secret, frame)
  }

  predicate VerifyTag(mac: Mac, secret: Bytes, data: Bytes) {
    && |data| >= HEADER_SIZE
    && var end := HEADER_SIZE + NatOf(data[5]);
       && |data| > end
       && data[end..] == Tag(mac, secret, data[..end])
  }

  // ---- properties -------------------------------------------------------------------------

  /** The length byte of f matches its size. */
  predicate SelfDelimited(f: Bytes) {
    |f| >= HEADER_SIZE && |f| == HEADER_SIZE + NatOf(f[5])
  }

  /** Verification accepts exactly what signing a well-delimited frame produces. */
  lemma {:induction false} VerifyIffAppended(mac: Mac, secret: Bytes, data: Bytes)
    ensures VerifyTag(mac, secret, data) <==> exists f: Bytes :: SelfDelimited(f) && data == AppendTag(mac, secret, f)
  {
    hide NatOf;
    if VerifyTag(mac, secret, data) {
      var f := data[..HEADER_SIZE + NatOf(data[5])];
      assert SelfDelimited(f) && data == AppendTag(mac, secret, f);
    }
    if f: Bytes :| SelfDelimited(f) && data == AppendTag(mac, secret, f) {
      assert data[..|f|] == f && data[|f|..] == Tag(mac, secret, f);
    }
  }

  lemma {:induction false} IntentBytes(intent: U16)
    ensures 256 * NatOf(ByteOf(intent / 256)) + NatOf(ByteOf(intent % 256)) == intent
  {
    hide NatOf, ByteOf;
    NatOfByteOf(intent / 256);
    NatOfByteOf(intent % 256);
  }

  /** Calls and dry runs read back as they were written, whatever tag follows. */
  lemma {:induction false} CallRoundTrip(c: Cbor, kind: bv8, seqNo: bv8, intent: U16, params: Params, tag: Bytes)
    requires Lawful(c) && CallBytes(c, kind, seqNo, intent, params).Encoded?
    ensures DecodeFrame(c, CallBytes(c, kind, seqNo, intent, params).bytes + tag)
      == Some(Frame(DCP_VERSION, kind, seqNo, intent, Some(params), tag))
  {
    hide NatOf, ByteOf;
    var body := c.marshal(params).value;
    var data := FrameBytes(kind, seqNo, intent, body) + tag;
    NatOfByteOf(|body|);
    IntentBytes(intent);
    assert data[HEADER_SIZE..HEADER_SIZE + |body|] == body;
    assert data[HEADER_SIZE + |body|..] == tag;
  }

  /** A reply reads back as it was written if and only if its body has at most 255 bytes. */
  lemma {:induction false} ReplyRoundTripIff(c: Cbor, seqNo: bv8, intent: U16, status: string, result: Params)
    requires Lawful(c) && c.marshal(ReplyParams(status, result)).Some?
    ensures var m := ReplyParams(status, result);
      var body := c.marshal(m).value;
      var sent := Frame(DCP_VERSION, DCP_REPLY, seqNo, intent, Some(m), []);
      |body| <= 255 <==> DecodeFrame(c, FrameBytes(DCP_REPLY, seqNo, intent, body)) == Some(sent)
  {
    hide NatOf, ByteOf, ReplyParams;
    var body := c.marshal(ReplyParams(status, result)).value;
    var data := FrameBytes(DCP_REPLY, seqNo, intent, body);
    var n := |body| % 256;
    NatOfByteOf(|body|);
    IntentBytes(intent);
    assert data[HEADER_SIZE..HEADER_SIZE + n] == body[..n];
    if |body| <= 255 {
      assert body[..n] == body;
      assert data[HEADER_SIZE + n..] == [];
    }
  }

  // ---- raw bytes -----------------------------------------------------------------------------

  /** A call is refused exactly when CBOR refuses it or its body has more than 64 bytes. */
  lemma {:induction false} CallRefusedIff(c: Cbor, kind: bv8, seqNo: bv8, intent: U16, params: Params)
    ensures var r, body := CallBytes(c, kind, seqNo, intent, params), c.marshal(params);
      && (r.MarshalFailed? <==> body.None?)
      && (r.TooLarge? <==> body.Some? && |body.value| > 64)
      && (r.Encoded? ==>
            && |r.bytes| == 6 + |body.value| && r.bytes[6..] == body.value
            && r.bytes[0] == 1 && r.bytes[1] == kind && r.bytes[2] == seqNo
            && 256 * NatOf(r.bytes[3]) + NatOf(r.bytes[4]) == intent && NatOf(r.bytes[5]) == |body.value|)
  {
    hide NatOf, ByteOf;
    IntentBytes(intent);
    if c.marshal(params).Some? {
      NatOfByteOf(|c.marshal(params).value|);
    }
  }

  /** A frame that starts with version 1, with its body all there and either empty or readable. */
  predicate Readable(c: Cbor, data: Bytes) {
    && |data| >= 6 && data[0] == 1
    && |data| >= 6 + NatOf(data[5])
    && (data[5] == 0 || c.unmarshal(data[6..6 + NatOf(data[5])]).Some?)
  }

  /** Exactly these strings decode, whatever their kind, sequence byte and intent, and this is what they decode to. */
  lemma {:induction false} DecodesIff(c: Cbor, data: Bytes)
    ensures DecodeFrame(c, data).Some? <==> Readable(c, data)
    ensures DecodeFrame(c, data).Some? ==>
      var f, end := DecodeFrame(c, data).value, 6 + NatOf(data[5]);
      && end <= |data|
      && f.ver == 1 && f.kind == data[1] && f.seqNo == data[2]
      && ByteOf(f.intent / 256) == data[3] && ByteOf(f.intent % 256) == data[4]
      && f.payload == (if data[5] == 0 then None else c.unmarshal(data[6..end]))
      && f.hmac == data[end..]
  {
    hide NatOf, ByteOf;
    if |data| >= 6 {
      NatOfZero(data[5]);
      IntentOf(data[3], data[4]);
    }
  }

  lemma {:induction false} NatOfZero(b: bv8)
    ensures NatOf(b) == 0 <==> b == 0
  {
  }

  lemma {:induction false} IntentOf(hi: bv8, lo: bv8)
    ensures ByteOf((256 * NatOf(hi) + NatOf(lo)) / 256) == hi && ByteOf((256 * NatOf(hi) + NatOf(lo)) % 256) == lo
  {
    hide NatOf, ByteOf;
    ByteOfNatOf(hi);
    ByteOfNatOf(lo);
  }

  /** A tag is the first half of the digest of exactly the frame it is appended to. */
  lemma {:induction false} TagMovesIff(mac: Mac, secret: Bytes, f: Bytes, g: Bytes)
    requires SelfDelimited(g)
    ensures var tag := AppendTag(mac, secret, f)[|f|..];
      && |tag| == 16
      && (VerifyTag(mac, secret, g + tag) <==> forall i :: 0 <= i < 16 ==> mac(secret, f)[i] == mac(secret, g)[i])
  {
    hide NatOf;
    var tag, data := Tag(mac, secret, f), g + Tag(mac, secret, f);
    assert AppendTag(mac, secret, f)[|f|..] == tag;
    assert data[5] == g[5] && data[..|g|] == g && data[|g|..] == tag;
    assert tag == Tag(mac, secret, g) <==> forall i :: 0 <= i < 16 ==> mac(secret, f)[i] == mac(secret, g)[i] by {
      assert forall i :: 0 <= i < 16 ==>
        tag[i] == mac(secret, f)[i] && Tag(mac, secret, g)[i] == mac(secret, g)[i];
    }
  }
}
