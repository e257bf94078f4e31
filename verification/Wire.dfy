// core/src/wire.ts and core/src/wire_safe.ts: packets, their payloads, and the limited parser.
module Wire {
  import opened Bytes

  // "DDNS"
  const MAGIC: seq<Byte> := [68, 68, 78, 83]
  const HEADER_LEN: nat := 24

  datatype Header = Header(version: int, msgType: int, flags: int, reqId: int, nsId: int, payloadLen: int)
  datatype Packet = Packet(header: Header, payload: seq<Byte>)

  predicate Fits(n: int, bound: int) {
    0 <= n < bound
  }

  predicate HeaderFits(h: Header) {
    && h.version == 1 && Fits(h.msgType, 256) && Fits(h.flags, U16) && Fits(h.reqId, U32) && Fits(h.nsId, U32)
    && Fits(h.payloadLen, U32)
  }

  function HeaderBytes(h: Header): seq<Byte>
    requires HeaderFits(h)
  {
    MAGIC
    + ([h.version] + ([h.msgType] + (U16le(h.flags)
    + (U32le(h.reqId) + (U32le(h.nsId) + (U32le(h.payloadLen) + U32le(0)))))))
  }

  function EncodeHeader(h: Header): Outcome<seq<Byte>> {
    if HeaderFits(h) then Ok(HeaderBytes(h)) else Throws
  }

  function DecodeHeader(b: seq<Byte>): (r: Outcome<Header>)
    ensures r.Ok? ==> r.value.payloadLen >= 0
  {
    if |b| < HEADER_LEN || b[..4] != MAGIC || b[4] != 1 || FromLe(b[20..24]) != 0 then Throws
    else Ok(Header(b[4], b[5], FromLe(b[6..8]), FromLe(b[8..12]), FromLe(b[12..16]), FromLe(b[16..20])))
  }

  function Sized(p: Packet): Packet {
    p.(header := p.header.(payloadLen := |p.payload|))
  }

  function EncodePacket(p: Packet): Outcome<seq<Byte>> {
    match EncodeHeader(Sized(p).header)
    case Ok(h) => Ok(h + p.payload)
    case Throws => Throws
  }

  function DecodePacket(b: seq<Byte>): Outcome<Packet> {
    match DecodeHeader(b)
    case Throws => Throws
    case Ok(h) =>
      if |b| < HEADER_LEN + h.payloadLen then Throws
      else Ok(Packet(h, Slice(b, HEADER_LEN, HEADER_LEN + h.payloadLen)))
  }

  lemma HeaderReadsBack(h: Header, b: seq<Byte>)
    requires HeaderFits(h) && At(b, 0, HeaderBytes(h))
    ensures DecodeHeader(b) == Ok(h)
  {
    hide FromLe, ToLe, Pow256;
    PowValues();
    var nsOn := U32le(h.nsId) + (U32le(h.payloadLen) + U32le(0));
    var flagsOn := U16le(h.flags) + (U32le(h.reqId) + nsOn);
    AtSplit(b, 0, MAGIC, [h.version] + ([h.msgType] + flagsOn));
    AtSplit(b, 4, [h.version], [h.msgType] + flagsOn);
    AtSplit(b, 5, [h.msgType], flagsOn);
    AtSplit(b, 6, U16le(h.flags), U32le(h.reqId) + nsOn);
    AtSplit(b, 8, U32le(h.reqId), nsOn);
    AtSplit(b, 12, U32le(h.nsId), U32le(h.payloadLen) + U32le(0));
    AtSplit(b, 16, U32le(h.payloadLen), U32le(0));
    AtByte(b, 4, [h.version], 0);
    AtByte(b, 5, [h.msgType], 0);
    ReadsBack(b, 6, h.flags, 2);
    ReadsBack(b, 8, h.reqId, 4);
    ReadsBack(b, 12, h.nsId, 4);
    ReadsBack(b, 16, h.payloadLen, 4);
    ReadsBack(b, 20, 0, 4);
  }

  // decodePacket undoes encodePacket, whatever follows the packet.
  lemma PacketRoundTrip(p: Packet, tail: seq<Byte>)
    ensures EncodePacket(p).Ok? <==> HeaderFits(Sized(p).header)
    ensures EncodePacket(p).Ok? ==> DecodePacket(EncodePacket(p).value + tail) == Ok(Sized(p))
  {
    hide DecodeHeader;
    if HeaderFits(Sized(p).header) {
      var h := HeaderBytes(Sized(p).header);
      HeaderLength(Sized(p).header);
      var b := h + p.payload + tail;
      assert b == h + (p.payload + tail);
      assert At(b, 0, h);
      HeaderReadsBack(Sized(p).header, b);
      assert b[24..24 + |p.payload|] == p.payload;
    }
  }

  lemma HeaderLength(h: Header)
    requires HeaderFits(h)
    ensures |HeaderBytes(h)| == HEADER_LEN
  {
  }

  // And encodePacket undoes decodePacket: accepted bytes are the encoding of what they decode
  // to, followed by what was ignored.
  lemma PacketCanonical(b: seq<Byte>)
    requires DecodePacket(b).Ok?
    ensures var p := DecodePacket(b).value;
            && Sized(p) == p && EncodePacket(p) == Ok(b[..HEADER_LEN + |p.payload|])
  {
    hide FromLe, ToLe, Pow256;
    PowValues();
    FromLeBound(b[6..8]);
    FromLeBound(b[8..12]);
    FromLeBound(b[12..16]);
    FromLeBound(b[16..20]);
    WritesBack(b[6..8]);
    WritesBack(b[8..12]);
    WritesBack(b[12..16]);
    WritesBack(b[16..20]);
    WritesBack(b[20..24]);
    var p := DecodePacket(b).value;
    var e := HeaderBytes(p.header);
    assert b[..24] == b[..4] + ([b[4]] + ([b[5]] + (b[6..8] + (b[8..12] + (b[12..16] + (b[16..20] + b[20..24]))))));
    assert e == b[..24];
    assert b[..24 + |p.payload|] == b[..24] + b[24..24 + |p.payload|];
  }

  // ---------- payloads ----------

  // A text and its UTF-8 bytes, for the optional message of NOT.
  datatype Text = Text(encode: seq<CodeUnit> -> seq<Byte>, decode: seq<Byte> -> seq<CodeUnit>)

  datatype Payload =
    | Qry(nameId: seq<Byte>, qtype: int, minSeq: int)
    | Ans(status: int, routeset: seq<Byte>)
    | Anc(status: int, anchor: seq<Byte>)
    | Not(code: int, retry: int, msg: Option<seq<CodeUnit>>)
    | Gsp(nameId: seq<Byte>, seq_: int, exp: int, routesetHash: seq<Byte>, hops: int)
    | GetByNameSeq(nameId: seq<Byte>, seq_: int)
    | GetByHash(hash: seq<Byte>)
    | Put(routeset: seq<Byte>)

  function MsgType(p: Payload): int {
    match p
    case Qry(_, _, _) => 1
    case Ans(_, _) => 2
    case Anc(_, _) => 3
    case Not(_, _, _) => 4
    case Gsp(_, _, _, _, _) => 5
    case GetByNameSeq(_, _) => 6
    case GetByHash(_) => 6
    case Put(_) => 7
  }

  function MsgBytes(t: Text, msg: Option<seq<CodeUnit>>): seq<Byte> {
    if msg.Some? && msg.value != [] then t.encode(msg.value) else []
  }

  function EncodePayload(t: Text, p: Payload): Outcome<seq<Byte>> {
    match p
    case Qry(nameId, qtype, minSeq) =>
      if |nameId| != 32 || !Fits(qtype, U16) then Throws
      else Ok(nameId + (U16le(qtype) + U64le(minSeq)))
    case Ans(status, body) =>
      if !Fits(status, 256) || |body| >= U32 then Throws else Ok([status] + (U32le(|body|) + body))
    case Anc(status, body) =>
      if !Fits(status, 256) || |body| >= U32 then Throws else Ok([status] + (U32le(|body|) + body))
    case Not(code, retry, msg) =>
      if !Fits(code, U16) || !Fits(retry, U32) || |MsgBytes(t, msg)| >= U16 then Throws
      else Ok(U16le(code) + (U32le(retry) + (U16le(|MsgBytes(t, msg)|) + MsgBytes(t, msg))))
    case Gsp(nameId, seq_, exp, routesetHash, hops) =>
      if |nameId| != 32 || |routesetHash| != 32 || !Fits(hops, 256) then Throws
      else Ok(nameId + (U64le(seq_) + (U64le(exp) + (routesetHash + ([hops] + Zeros(7))))))
    case GetByNameSeq(nameId, seq_) =>
      if |nameId| != 32 then Throws else Ok([1] + (Zeros(7) + (nameId + (U64le(seq_) + Zeros(32)))))
    case GetByHash(hash) =>
      if |hash| != 32 then Throws else Ok([2] + (Zeros(7) + (Zeros(32) + (U64le(0) + hash))))
    case Put(body) =>
      if |body| >= U32 then Throws else Ok(U32le(|body|) + body)
  }

  function DecodeAns(b: seq<Byte>): Outcome<Payload> {
    if |b| < 5 || |b| != 5 + FromLe(b[1..5]) then Throws else Ok(Ans(b[0], b[5..]))
  }

  function DecodeAnc(b: seq<Byte>): Outcome<Payload> {
    if |b| < 5 || |b| != 5 + FromLe(b[1..5]) then Throws else Ok(Anc(b[0], b[5..]))
  }

  function DecodeNot(t: Text, b: seq<Byte>): Outcome<Payload> {
    if |b| < 8 || |b| != 8 + FromLe(b[6..8]) then Throws
    else Ok(Not(FromLe(b[0..2]), FromLe(b[2..6]), if |b| > 8 then Some(t.decode(b[8..])) else None))
  }

  function DecodePut(b: seq<Byte>): Outcome<Payload> {
    if |b| < 4 || |b| != 4 + FromLe(b[0..4]) then Throws else Ok(Put(b[4..]))
  }

  // The decoder of each message type.
  function DecodePayload(t: Text, msgType: int, b: seq<Byte>): Outcome<Payload> {
    match msgType
    case 1 => if |b| != 42 then Throws else Ok(Qry(b[0..32], FromLe(b[32..34]), FromLe(b[34..42])))
    case 2 => DecodeAns(b)
    case 3 => DecodeAnc(b)
    case 4 => DecodeNot(t, b)
    case 5 =>
      if |b| != 88 then Throws
      else Ok(Gsp(b[0..32], FromLe(b[32..40]), FromLe(b[40..48]), b[48..80], b[80]))
    case 6 =>
      if |b| != 80 then Throws
      else if b[0] == 1 then Ok(GetByNameSeq(b[8..40], FromLe(b[40..48])))
      else if b[0] == 2 then Ok(GetByHash(b[48..80]))
      else Throws
    case 7 => DecodePut(b)
    case _ => Throws
  }

  // u64le keeps its argument modulo 2^64; an empty message is no message; a text may not be
  // what its own UTF-8 bytes decode to.
  predicate Faithful(t: Text, p: Payload) {
    match p
    case Qry(_, _, minSeq) => Fits(minSeq, U64)
    case Gsp(_, seq_, exp, _, _) => Fits(seq_, U64) && Fits(exp, U64)
    case GetByNameSeq(_, seq_) => Fits(seq_, U64)
    case Not(_, _, msg) =>
      msg.Some? ==> msg.value != [] && t.encode(msg.value) != [] && t.decode(t.encode(msg.value)) == msg.value
    case _ => true
  }

  // What the decoder makes of an encoded payload.
  function Reread(t: Text, p: Payload): Payload {
    match p
    case Qry(_, _, minSeq) => p.(minSeq := minSeq % U64)
    case Gsp(_, seq_, exp, _, _) => p.(seq_ := seq_ % U64, exp := exp % U64)
    case GetByNameSeq(_, seq_) => p.(seq_ := seq_ % U64)
    case Not(_, _, msg) => p.(msg := if MsgBytes(t, msg) == [] then None else Some(t.decode(MsgBytes(t, msg))))
    case _ => p
  }

  lemma ReadsModulo(b: seq<Byte>, off: nat, n: int)
    requires At(b, off, U64le(n))
    ensures off + 8 <= |b| && FromLe(b[off..off + 8]) == n % U64
  {
    hide ToLe, FromLe, Pow256, Read;
    PowValues();
    ReadAt(b, off, n, 8);
  }

  lemma Mod64(n: int)
    ensures n % U64 == n <==> Fits(n, U64)
  {
  }

  lemma QryRoundTrip(t: Text, p: Payload)
    requires p.Qry? && EncodePayload(t, p).Ok?
    ensures DecodePayload(t, MsgType(p), EncodePayload(t, p).value) == Ok(Reread(t, p))
  {
    hide ToLe, FromLe, Pow256;
    PowValues();
    var b := EncodePayload(t, p).value;
    AtStart(b);
    AtSplit(b, 0, p.nameId, U16le(p.qtype) + U64le(p.minSeq));
    AtSplit(b, 32, U16le(p.qtype), U64le(p.minSeq));
    ReadsBack(b, 32, p.qtype, 2);
    ReadsModulo(b, 34, p.minSeq);
  }

  lemma SizedBody(t: Text, p: Payload)
    requires p.Ans? || p.Anc? || p.Put?
    requires EncodePayload(t, p).Ok?
    ensures DecodePayload(t, MsgType(p), EncodePayload(t, p).value) == Ok(Reread(t, p))
  {
    hide ToLe, FromLe, Pow256;
    PowValues();
    var b := EncodePayload(t, p).value;
    AtStart(b);
    if p.Put? {
      AtSplit(b, 0, U32le(|p.routeset|), p.routeset);
      ReadsBack(b, 0, |p.routeset|, 4);
    } else {
      var body := if p.Ans? then p.routeset else p.anchor;
      AtSplit(b, 0, [p.status], U32le(|body|) + body);
      AtSplit(b, 1, U32le(|body|), body);
      ReadsBack(b, 1, |body|, 4);
    }
  }

  lemma NotRoundTrip(t: Text, p: Payload)
    requires p.Not? && EncodePayload(t, p).Ok?
    ensures DecodePayload(t, MsgType(p), EncodePayload(t, p).value) == Ok(Reread(t, p))
  {
    hide ToLe, FromLe, Pow256;
    PowValues();
    var b, m := EncodePayload(t, p).value, MsgBytes(t, p.msg);
    AtStart(b);
    AtSplit(b, 0, U16le(p.code), U32le(p.retry) + (U16le(|m|) + m));
    AtSplit(b, 2, U32le(p.retry), U16le(|m|) + m);
    AtSplit(b, 6, U16le(|m|), m);
    ReadsBack(b, 0, p.code, 2);
    ReadsBack(b, 2, p.retry, 4);
    ReadsBack(b, 6, |m|, 2);
    assert b[8..] == m;
  }

  lemma GspFields(t: Text, p: Payload)
    requires p.Gsp? && EncodePayload(t, p).Ok?
    ensures var b := EncodePayload(t, p).value;
            && |b| == 88 && b[0..32] == p.nameId && FromLe(b[32..40]) == p.seq_ % U64
            && FromLe(b[40..48]) == p.exp % U64 && b[48..80] == p.routesetHash && b[80] == p.hops
  {
    hide ToLe, FromLe, Pow256, Zeros;
    var b := EncodePayload(t, p).value;
    var end := p.routesetHash + ([p.hops] + Zeros(7));
    AtStart(b);
    AtSplit(b, 0, p.nameId, U64le(p.seq_) + (U64le(p.exp) + end));
    AtSplit(b, 32, U64le(p.seq_), U64le(p.exp) + end);
    AtSplit(b, 40, U64le(p.exp), end);
    AtSplit(b, 48, p.routesetHash, [p.hops] + Zeros(7));
    AtSplit(b, 80, [p.hops], Zeros(7));
    AtByte(b, 80, [p.hops], 0);
    ReadsModulo(b, 32, p.seq_);
    ReadsModulo(b, 40, p.exp);
  }

  lemma GspRoundTrip(t: Text, p: Payload)
    requires p.Gsp? && EncodePayload(t, p).Ok?
    ensures DecodePayload(t, MsgType(p), EncodePayload(t, p).value) == Ok(Reread(t, p))
  {
    GspFields(t, p);
    hide FromLe, EncodePayload;
  }

  lemma GetRoundTrip(t: Text, p: Payload)
    requires (p.GetByNameSeq? || p.GetByHash?) && EncodePayload(t, p).Ok?
    ensures DecodePayload(t, MsgType(p), EncodePayload(t, p).value) == Ok(Reread(t, p))
  {
    hide ToLe, FromLe, Pow256, Zeros;
    var b := EncodePayload(t, p).value;
    AtStart(b);
    if p.GetByNameSeq? {
      AtSplit(b, 0, [1], Zeros(7) + (p.nameId + (U64le(p.seq_) + Zeros(32))));
      AtSplit(b, 1, Zeros(7), p.nameId + (U64le(p.seq_) + Zeros(32)));
      AtSplit(b, 8, p.nameId, U64le(p.seq_) + Zeros(32));
      AtSplit(b, 40, U64le(p.seq_), Zeros(32));
      AtByte(b, 0, [1], 0);
      ReadsModulo(b, 40, p.seq_);
    } else {
      AtSplit(b, 0, [2], Zeros(7) + (Zeros(32) + (U64le(0) + p.hash)));
      AtSplit(b, 1, Zeros(7), Zeros(32) + (U64le(0) + p.hash));
      AtSplit(b, 8, Zeros(32), U64le(0) + p.hash);
      AtSplit(b, 40, U64le(0), p.hash);
      AtByte(b, 0, [2], 0);
    }
  }

  // Each payload decoder reads back what its encoder wrote: 64-bit fields modulo 2^64, and the
  // message as its bytes decode.
  lemma PayloadReread(t: Text, p: Payload)
    requires EncodePayload(t, p).Ok?
    ensures DecodePayload(t, MsgType(p), EncodePayload(t, p).value) == Ok(Reread(t, p))
  {
    hide DecodePayload, EncodePayload, Reread;
    match p
    case Qry(_, _, _) => QryRoundTrip(t, p);
    case Ans(_, _) => SizedBody(t, p);
    case Anc(_, _) => SizedBody(t, p);
    case Not(_, _, _) => NotRoundTrip(t, p);
    case Gsp(_, _, _, _, _) => GspRoundTrip(t, p);
    case GetByNameSeq(_, _) => GetRoundTrip(t, p);
    case GetByHash(_) => GetRoundTrip(t, p);
    case Put(_) => SizedBody(t, p);
  }

  // So it undoes its encoder exactly for the faithful payloads.
  lemma PayloadRoundTripExactly(t: Text, p: Payload)
    requires EncodePayload(t, p).Ok?
    ensures DecodePayload(t, MsgType(p), EncodePayload(t, p).value) == Ok(p) <==> Faithful(t, p)
  {
    hide DecodePayload, EncodePayload;
    PayloadReread(t, p);
    match p
    case Qry(_, _, n) => Mod64(n);
    case Gsp(_, n, m, _, _) =>
      Mod64(n);
      Mod64(m);
    case GetByNameSeq(_, n) => Mod64(n);
    case _ =>
  }

  // ---------- wire_safe.ts ----------

  datatype Limits = Limits(maxPacketBytes: int, maxPayloadBytes: int, maxRouteSetBytes: int, maxAnchorBytes: int,
                           maxNotMsgBytes: int)

  // The size of a body that a limit is about.
  function Measured(t: Text, p: Payload): int {
    match p
    case Ans(_, body) => |body|
    case Anc(_, body) => |body|
    case Put(body) => |body|
    case Not(_, _, msg) => |MsgBytes(t, msg)|
    case _ => 0
  }

  function Limit(l: Limits, msgType: int): int {
    match msgType
    case 3 => l.maxAnchorBytes
    case 4 => l.maxNotMsgBytes
    case _ => l.maxRouteSetBytes
  }

  predicate IsChecked(msgType: int) {
    msgType in {2, 3, 4, 7}
  }

  // A missing or empty message has no limit.
  predicate HasBody(body: Payload) {
    body.Not? ==> body.msg.Some? && body.msg.value != []
  }

  function ParsePacketSafe(t: Text, b: seq<Byte>, l: Limits): Outcome<Packet> {
    if |b| > l.maxPacketBytes then Throws
    else
      match DecodePacket(b)
      case Throws => Throws
      case Ok(p) =>
        if p.header.payloadLen > l.maxPayloadBytes || |p.payload| != p.header.payloadLen then Throws
        else if !IsChecked(p.header.msgType) then Ok(p)
        else
          match DecodePayload(t, p.header.msgType, p.payload)
          case Throws => Throws
          case Ok(body) =>
            if HasBody(body) && Measured(t, body) > Limit(l, p.header.msgType) then Throws else Ok(p)
  }

  predicate BodyWithin(t: Text, l: Limits, msgType: int, body: Payload) {
    IsChecked(msgType) && HasBody(body) ==> Measured(t, body) <= Limit(l, msgType)
  }

  // A packet around an encoded payload is accepted exactly when it is within the limits, and so
  // is its body as the decoder reads it; it is then what decodePacket gives.
  lemma SafeParserExact(t: Text, l: Limits, h: Header, p: Payload)
    requires EncodePayload(t, p).Ok? && h.msgType == MsgType(p)
    requires EncodePacket(Packet(h, EncodePayload(t, p).value)).Ok?
    ensures var packet := Packet(h, EncodePayload(t, p).value);
            var b := EncodePacket(packet).value;
            ParsePacketSafe(t, b, l) ==
            if |b| <= l.maxPacketBytes && |packet.payload| <= l.maxPayloadBytes
               && BodyWithin(t, l, h.msgType, Reread(t, p))
            then DecodePacket(b) else Throws
  {
    hide DecodePayload, EncodePayload, EncodePacket, DecodePacket, Limit, Measured, Reread;
    var packet := Packet(h, EncodePayload(t, p).value);
    var b := EncodePacket(packet).value;
    PacketRoundTrip(packet, []);
    assert b + [] == b;
    PayloadReread(t, p);
  }
}
