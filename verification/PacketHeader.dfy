/** The packed 32-bit packet header and its byte serialization (src/utils/packet_header.cpp). */
module PacketHeader {
  type Byte = bv8
  type Packet = seq<Byte>

  type uint8 = x: int | 0 <= x < 0x100
  type uint16 = x: int | 0 <= x < 0x1_0000

  const SRC_ADDRESS: bv32 := 0xE000_0000
  const NEXT_HOP_ADDRESS: bv32 := 0x1C00_0000
  const DEST_ADDRESS: bv32 := 0x0380_0000
  const MORE_FRAGMENTS: bv32 := 0x0040_0000
  const MESSAGE_ID: bv32 := 0x0038_0000
  const FRAGMENT_ID: bv32 := 0x0007_FF00
  const PAYLOAD_TYPE: bv32 := 0x0000_00E0
  const PAYLOAD_LENGTH: bv32 := 0x0000_001F

  // The values of the `type` field.
  const ECHO: uint8 := 0
  const DATA: uint8 := 1
  const ACK: uint8 := 2

  datatype Header = Header(
    fragmentId: uint16,
    sourceAddress: uint8,
    nextHopAddress: uint8,
    destAddress: uint8,
    moreFragments: uint8,
    messageId: uint8,
    payloadType: uint8,
    payloadLength: uint8)

  // ----- integral conversions between the header's fields and the 32-bit word

  // A byte and its value in 0..255, by counting: no proof then mixes integer and bit-vector arithmetic.
  function Count(b: Byte): nat
    decreases b
  {
    if b == 0 then 0 else Count(b - 1) + 1
  }

  lemma {:induction false} CountIsCast(b: Byte)
    ensures Count(b) == b as int
    decreases b
  {
    if b != 0 { CountIsCast(b - 1); }
  }

  function FromByte(b: Byte): uint8 {
    CountIsCast(b);
    Count(b)
  }

  function CountUp(n: nat): Byte {
    if n == 0 then 0 else CountUp(n - 1) + 1
  }

  function ToByte(x: uint8): Byte { CountUp(x) }

  lemma {:induction false} FromToByte(x: uint8)
    ensures FromByte(ToByte(x)) == x
  {
    if x != 0 {
      FromToByte(x - 1);
      assert ToByte(x) == ToByte(x - 1) + 1;
      CountIsCast(255);
    }
  }

  lemma {:induction false} ToFromByte(b: Byte)
    ensures ToByte(FromByte(b)) == b
    decreases b
  {
    if b != 0 { ToFromByte(b - 1); }
  }

  function Low8(w: bv32): uint8 { FromByte((w & 0xFF) as Byte) }

  function Low16(w: bv32): uint16 { Low8(w >> 8) * 256 + Low8(w) }

  // ----- encoding and decoding

  function PackWord(src: bv32, hop: bv32, dst: bv32, mf: bv32, msg: bv32, frag: bv32, kind: bv32, len: bv32): bv32 {
    ((src << 29) & SRC_ADDRESS)
    | ((hop << 26) & NEXT_HOP_ADDRESS)
    | ((dst << 23) & DEST_ADDRESS)
    | ((mf << 22) & MORE_FRAGMENTS)
    | ((msg << 19) & MESSAGE_ID)
    | ((frag << 8) & FRAGMENT_ID)
    | ((kind << 5) & PAYLOAD_TYPE)
    | (len & PAYLOAD_LENGTH)
  }

  function HeaderWord(h: Header): bv32 {
    PackWord(ToByte(h.sourceAddress) as bv32, ToByte(h.nextHopAddress) as bv32, ToByte(h.destAddress) as bv32,
             ToByte(h.moreFragments) as bv32, ToByte(h.messageId) as bv32,
             (ToByte(h.fragmentId / 256) as bv32 << 8) | (ToByte(h.fragmentId % 256) as bv32),
             ToByte(h.payloadType) as bv32, ToByte(h.payloadLength) as bv32)
  }

  function GetSeparatedHeader(w: bv32): Header {
    Header(Low16((w & FRAGMENT_ID) >> 8),
           Low8((w & SRC_ADDRESS) >> 29),
           Low8((w & NEXT_HOP_ADDRESS) >> 26),
           Low8((w & DEST_ADDRESS) >> 23),
           Low8((w & MORE_FRAGMENTS) >> 22),
           Low8((w & MESSAGE_ID) >> 19),
           Low8((w & PAYLOAD_TYPE) >> 5),
           Low8(w & PAYLOAD_LENGTH))
  }

  function WordBytes(w: bv32): (b: seq<Byte>)
    ensures |b| == 4
  {
    [((w & 0xFF00_0000) >> 24) as bv8, ((w & 0x00FF_0000) >> 16) as bv8,
     ((w & 0x0000_FF00) >> 8) as bv8, (w & 0x0000_00FF) as bv8]
  }

  function BuildHeader(h: Header): (b: seq<Byte>)
    ensures |b| == 4
  {
    WordBytes(HeaderWord(h))
  }

  function BytesToWord(packet: Packet): bv32
    requires |packet| >= 4
  {
    ((packet[0] as bv32) << 24) | ((packet[1] as bv32) << 16) | ((packet[2] as bv32) << 8) | (packet[3] as bv32)
  }

  /** Decodes the header of a packet: the composition every reader of a packet performs. */
  function Parse(packet: Packet): Header
    requires |packet| >= 4
  {
    GetSeparatedHeader(BytesToWord(packet))
  }

  function AddHeaderToPayload(h: Header, payload: seq<Byte>): (packet: Packet)
    ensures |packet| == 4 + |payload| && packet[4..] == payload
  {
    BuildHeader(h) + payload
  }

  /** What the wire keeps of a header: every field modulo its width. */
  function OnWire(h: Header): Header {
    Header(h.fragmentId % 2048, h.sourceAddress % 8, h.nextHopAddress % 8, h.destAddress % 8,
           h.moreFragments % 2, h.messageId % 8, h.payloadType % 8, h.payloadLength % 32)
  }

  predicate FitsWire(h: Header) {
    && h.fragmentId < 2048 && h.sourceAddress < 8 && h.nextHopAddress < 8 && h.destAddress < 8
    && h.moreFragments < 2 && h.messageId < 8 && h.payloadType < 8 && h.payloadLength < 32
  }

  // ----- the eight masks are disjoint and cover the word

  lemma PackThenMask(src: Byte, hop: Byte, dst: Byte, mf: Byte, msg: Byte, hi: Byte, lo: Byte, kind: Byte, len: Byte)
    ensures var w := PackWord(src as bv32, hop as bv32, dst as bv32, mf as bv32, msg as bv32,
                              (hi as bv32 << 8) | (lo as bv32), kind as bv32, len as bv32);
      && (((w & SRC_ADDRESS) >> 29) & 0xFF) as Byte == src & 7
      && (((w & NEXT_HOP_ADDRESS) >> 26) & 0xFF) as Byte == hop & 7
      && (((w & DEST_ADDRESS) >> 23) & 0xFF) as Byte == dst & 7
      && (((w & MORE_FRAGMENTS) >> 22) & 0xFF) as Byte == mf & 1
      && (((w & MESSAGE_ID) >> 19) & 0xFF) as Byte == msg & 7
      && ((((w & FRAGMENT_ID) >> 8) >> 8) & 0xFF) as Byte == hi & 7
      && (((w & FRAGMENT_ID) >> 8) & 0xFF) as Byte == lo
      && (((w & PAYLOAD_TYPE) >> 5) & 0xFF) as Byte == kind & 7
      && ((w & PAYLOAD_LENGTH) & 0xFF) as Byte == len & 0x1F
  {
  }

  /** Where the fields are in the four bytes, most significant byte first. */
  lemma WordLayout(src: Byte, hop: Byte, dst: Byte, mf: Byte, msg: Byte, hi: Byte, lo: Byte, kind: Byte, len: Byte)
    ensures var w := PackWord(src as bv32, hop as bv32, dst as bv32, mf as bv32, msg as bv32,
                              (hi as bv32 << 8) | (lo as bv32), kind as bv32, len as bv32);
      WordBytes(w) == [((src & 7) << 5) | ((hop & 7) << 2) | ((dst & 7) >> 1),
                       ((dst & 1) << 7) | ((mf & 1) << 6) | ((msg & 7) << 3) | (hi & 7),
                       lo,
                       ((kind & 7) << 5) | (len & 0x1F)]
  {
  }

  /** The wire format: source, next hop, destination, flag, message, fragment in 11 bits, type, length. */
  lemma WireLayout(h: Header, src: Byte, hop: Byte, dst: Byte, mf: Byte, msg: Byte, hi: Byte, lo: Byte, kind: Byte,
                   len: Byte)
    requires src == ToByte(h.sourceAddress) && hop == ToByte(h.nextHopAddress) && dst == ToByte(h.destAddress)
    requires mf == ToByte(h.moreFragments) && msg == ToByte(h.messageId)
    requires hi == ToByte(h.fragmentId / 256) && lo == ToByte(h.fragmentId % 256)
    requires kind == ToByte(h.payloadType) && len == ToByte(h.payloadLength)
    ensures BuildHeader(h) == [((src & 7) << 5) | ((hop & 7) << 2) | ((dst & 7) >> 1),
                               ((dst & 1) << 7) | ((mf & 1) << 6) | ((msg & 7) << 3) | (hi & 7),
                               lo,
                               ((kind & 7) << 5) | (len & 0x1F)]
  {
    WordLayout(src, hop, dst, mf, msg, hi, lo, kind, len);
    PackedWord(h, src, hop, dst, mf, msg, hi, lo, kind, len);
  }

  lemma PackedWord(h: Header, src: Byte, hop: Byte, dst: Byte, mf: Byte, msg: Byte, hi: Byte, lo: Byte, kind: Byte,
                   len: Byte)
    requires src == ToByte(h.sourceAddress) && hop == ToByte(h.nextHopAddress) && dst == ToByte(h.destAddress)
    requires mf == ToByte(h.moreFragments) && msg == ToByte(h.messageId)
    requires hi == ToByte(h.fragmentId / 256) && lo == ToByte(h.fragmentId % 256)
    requires kind == ToByte(h.payloadType) && len == ToByte(h.payloadLength)
    ensures HeaderWord(h) == PackWord(src as bv32, hop as bv32, dst as bv32, mf as bv32, msg as bv32,
                                      (hi as bv32 << 8) | (lo as bv32), kind as bv32, len as bv32)
  {
  }

  lemma MaskThenPack(w: bv32)
    ensures PackWord((w & SRC_ADDRESS) >> 29, (w & NEXT_HOP_ADDRESS) >> 26, (w & DEST_ADDRESS) >> 23,
                     (w & MORE_FRAGMENTS) >> 22, (w & MESSAGE_ID) >> 19, (w & FRAGMENT_ID) >> 8,
                     (w & PAYLOAD_TYPE) >> 5, w & PAYLOAD_LENGTH) == w
  {
  }

  // ----- the integral conversions keep the value, modulo the width

  lemma LowMask3(b: Byte)
    ensures FromByte(b & 7) == FromByte(b) % 8
  {
    CountIsCast(b);
    CountIsCast(b & 7);
  }

  lemma LowMask1(b: Byte)
    ensures FromByte(b & 1) == FromByte(b) % 2
  {
    CountIsCast(b);
    CountIsCast(b & 1);
  }

  lemma LowMask5(b: Byte)
    ensures FromByte(b & 0x1F) == FromByte(b) % 32
  {
    CountIsCast(b);
    CountIsCast(b & 0x1F);
  }

  lemma LowThenWord8(w: bv32)
    requires w < 0x100
    ensures ToByte(Low8(w)) as bv32 == w
  {
    ToFromByte((w & 0xFF) as Byte);
  }

  lemma LowThenWord16(w: bv32)
    requires w < 0x1_0000
    ensures (ToByte(Low16(w) / 256) as bv32 << 8) | (ToByte(Low16(w) % 256) as bv32) == w
  {
    var hi, lo := ((w >> 8) & 0xFF) as Byte, (w & 0xFF) as Byte;
    ToFromByte(hi);
    ToFromByte(lo);
    assert Low16(w) / 256 == FromByte(hi) && Low16(w) % 256 == FromByte(lo);
  }

  lemma BytesRoundTrip(w: bv32, payload: seq<Byte>)
    ensures BytesToWord(WordBytes(w) + payload) == w
  {
  }

  lemma DecodePack(src: Byte, hop: Byte, dst: Byte, mf: Byte, msg: Byte, hi: Byte, lo: Byte, kind: Byte, len: Byte)
    ensures GetSeparatedHeader(PackWord(src as bv32, hop as bv32, dst as bv32, mf as bv32, msg as bv32,
                                        (hi as bv32 << 8) | (lo as bv32), kind as bv32, len as bv32))
         == Header(FromByte(hi) % 8 * 256 + FromByte(lo), FromByte(src) % 8, FromByte(hop) % 8, FromByte(dst) % 8,
                   FromByte(mf) % 2, FromByte(msg) % 8, FromByte(kind) % 8, FromByte(len) % 32)
  {
    PackThenMask(src, hop, dst, mf, msg, hi, lo, kind, len);
    LowMask3(hi);
    LowMask3(src);
    LowMask3(hop);
    LowMask3(dst);
    LowMask1(mf);
    LowMask3(msg);
    LowMask3(kind);
    LowMask5(len);
  }

  lemma ElevenBits(x: uint16)
    ensures x / 256 % 8 * 256 + x % 256 == x % 2048
  {
  }

  lemma DecodeFields(h: Header, src: Byte, hop: Byte, dst: Byte, mf: Byte, msg: Byte,
                     hi: Byte, lo: Byte, kind: Byte, len: Byte)
    requires FromByte(src) == h.sourceAddress && FromByte(hop) == h.nextHopAddress && FromByte(dst) == h.destAddress
    requires FromByte(mf) == h.moreFragments && FromByte(msg) == h.messageId
    requires FromByte(hi) == h.fragmentId / 256 && FromByte(lo) == h.fragmentId % 256
    requires FromByte(kind) == h.payloadType && FromByte(len) == h.payloadLength
    ensures GetSeparatedHeader(PackWord(src as bv32, hop as bv32, dst as bv32, mf as bv32, msg as bv32,
                                        (hi as bv32 << 8) | (lo as bv32), kind as bv32, len as bv32)) == OnWire(h)
  {
    DecodePack(src, hop, dst, mf, msg, hi, lo, kind, len);
    ElevenBits(h.fragmentId);
  }

  lemma DecodeEncodeWord(h: Header)
    ensures GetSeparatedHeader(HeaderWord(h)) == OnWire(h)
  {
    var src, hop, dst := ToByte(h.sourceAddress), ToByte(h.nextHopAddress), ToByte(h.destAddress);
    var mf := ToByte(h.moreFragments);
    var msg, hi, lo, kind, len := ToByte(h.messageId), ToByte(h.fragmentId / 256), ToByte(h.fragmentId % 256),
               ToByte(h.payloadType), ToByte(h.payloadLength);
    FromToByte(h.sourceAddress);
    FromToByte(h.nextHopAddress);
    FromToByte(h.destAddress);
    FromToByte(h.moreFragments);
    FromToByte(h.messageId);
    FromToByte(h.fragmentId / 256);
    FromToByte(h.fragmentId % 256);
    FromToByte(h.payloadType);
    FromToByte(h.payloadLength);
    DecodeFields(h, src, hop, dst, mf, msg, hi, lo, kind, len);
    assert HeaderWord(h) == PackWord(src as bv32, hop as bv32, dst as bv32, mf as bv32, msg as bv32,
                                        (hi as bv32 << 8) | (lo as bv32), kind as bv32, len as bv32);
  }

  lemma ParseWordBytes(w: bv32, payload: seq<Byte>)
    ensures Parse(WordBytes(w) + payload) == GetSeparatedHeader(w)
  {
    BytesRoundTrip(w, payload);
  }

  lemma ParseBuilt(h: Header, payload: seq<Byte>)
    ensures Parse(AddHeaderToPayload(h, payload)) == GetSeparatedHeader(HeaderWord(h))
  {
    ParseWordBytes(HeaderWord(h), payload);
  }

  lemma InRangeOnWire(h: Header)
    ensures FitsWire(h) <==> OnWire(h) == h
  {
  }

  /** Decoding an encoded header returns every field modulo its width, so it is the header exactly when all fit. */
  lemma {:induction false} DecodeEncode(h: Header, payload: seq<Byte>)
    ensures Parse(AddHeaderToPayload(h, payload)) == OnWire(h)
    ensures Parse(AddHeaderToPayload(h, payload)) == h <==> FitsWire(h)
  {
    ParseBuilt(h, payload);
    DecodeEncodeWord(h);
    InRangeOnWire(h);
  }

  /** Encoding a decoded word returns it: no bit of any 32-bit word is lost. */
  lemma EncodeDecodeWord(w: bv32)
    ensures HeaderWord(GetSeparatedHeader(w)) == w
  {
    LowThenWord8((w & SRC_ADDRESS) >> 29);
    LowThenWord8((w & NEXT_HOP_ADDRESS) >> 26);
    LowThenWord8((w & DEST_ADDRESS) >> 23);
    LowThenWord8((w & MORE_FRAGMENTS) >> 22);
    LowThenWord8((w & MESSAGE_ID) >> 19);
    LowThenWord16((w & FRAGMENT_ID) >> 8);
    LowThenWord8((w & PAYLOAD_TYPE) >> 5);
    LowThenWord8(w & PAYLOAD_LENGTH);
    MaskThenPack(w);
  }

  lemma WordThenBytes(b: seq<Byte>)
    requires |b| == 4
    ensures WordBytes(BytesToWord(b)) == b
  {
  }

  /** Every packet is its decoded header, encoded, followed by its payload. */
  lemma EncodeDecode(packet: Packet)
    requires |packet| >= 4
    ensures AddHeaderToPayload(Parse(packet), packet[4..]) == packet
  {
    var b := packet[..4];
    assert b + packet[4..] == packet;
    WordThenBytes(b);
    EncodeDecodeWord(BytesToWord(b));
  }
}
