/** The byte-stream framing between the client and its server (src/backend/network/DataReceiver.cpp, Client.cpp). */
module Framing {
  import opened PacketHeader

  datatype Message =
    | Free | Busy | Sending | DoneSending | End | Hello | TokenAccepted | TokenRejected
    | Data(data: seq<Byte>)
    | DataShort(data: seq<Byte>)

  // ----- the automaton, as a value

  /** `length` is -1 until the length byte has been read. */
  datatype State = State(inMessage: bool, length: int, buffer: seq<Byte>, short: bool)

  const START := State(false, -1, [], false)

  /** What a byte outside a message says. */
  function Control(b: Byte): seq<Message> {
    if b == 0x01 then [Free]
    else if b == 0x04 then [Sending]
    else if b == 0x05 then [DoneSending]
    else if b == 0x02 then [Busy]
    else if b == 0x08 then [End]
    else if b == 0x09 then [Hello]
    else if b == 0x0A then [TokenAccepted]
    else if b == 0x0B then [TokenRejected]
    else []
  }

  datatype Output = Output(state: State, pushed: seq<Message>)

  function Feed(s: State, b: Byte): Output {
    if !s.inMessage then
      if b == 0x03 || b == 0x06 then Output(State(true, -1, [], b == 0x06), [])
      else Output(s, Control(b))
    else
      var s := if s.length == -1 then s.(length := FromByte(b)) else s.(buffer := s.buffer + [b]);
      if s.length == |s.buffer| then
        Output(s.(inMessage := false), [if s.short then DataShort(s.buffer) else Data(s.buffer)])
      else Output(s, [])
  }

  function Then(x: Output, y: Output): Output { Output(y.state, x.pushed + y.pushed) }

  function FeedAll(s: State, bytes: seq<Byte>): Output {
    if bytes == [] then Output(s, [])
    else
      var before := FeedAll(s, bytes[..|bytes| - 1]);
      Then(before, Feed(before.state, bytes[|bytes| - 1]))
  }

  // ----- the object

  class DataReceiver {
    var messageBuff: seq<Byte>
    var messageLen: int
    var message: bool
    var shortData: bool
    // The receiver queue.
    var queue: seq<Message>

    constructor ()
      ensures Abs() == START && queue == []
    {
      messageBuff, messageLen, message, shortData, queue := [], -1, false, false, [];
    }

    function Abs(): State
      reads this
    {
      State(message, messageLen, messageBuff, shortData)
    }

    /** The loop over one received buffer. */
    method ReceiveData(buffer: seq<Byte>)
      modifies this
      ensures var out := FeedAll(old(Abs()), buffer); Abs() == out.state && queue == old(queue) + out.pushed
    {
      var i := 0;
      while i < |buffer|
        invariant 0 <= i <= |buffer|
        invariant var out := FeedAll(old(Abs()), buffer[..i]); Abs() == out.state && queue == old(queue) + out.pushed
      {
        assert buffer[..i + 1][..i] == buffer[..i];
        ReceiveByte(buffer[i]);
        i := i + 1;
      }
      assert buffer[..i] == buffer;
    }

    method ReceiveByte(b: Byte)
      modifies this
      ensures var out := Feed(old(Abs()), b); Abs() == out.state && queue == old(queue) + out.pushed
    {
      if !message {
        if b == 0x01 {
          queue := queue + [Free];
        } else if b == 0x04 {
          queue := queue + [Sending];
        } else if b == 0x05 {
          queue := queue + [DoneSending];
        } else if b == 0x02 {
          queue := queue + [Busy];
        } else if b == 0x08 {
          queue := queue + [End];
        } else if b == 0x09 {
          queue := queue + [Hello];
        } else if b == 0x0A {
          queue := queue + [TokenAccepted];
        } else if b == 0x0B {
          queue := queue + [TokenRejected];
        } else if b == 0x03 {
          message, messageBuff, messageLen, shortData := true, [], -1, false;
        } else if b == 0x06 {
          message, messageBuff, messageLen, shortData := true, [], -1, true;
        }
      } else {
        if messageLen == -1 {
          messageLen := FromByte(b);
        } else {
          messageBuff := messageBuff + [b];
        }
        if messageLen == |messageBuff| {
          if shortData {
            queue := queue + [DataShort(messageBuff)];
          } else {
            queue := queue + [Data(messageBuff)];
          }
          message := false;
        }
      }
    }
  }

  // ----- chunking

  lemma ThenAssociates(x: Output, y: Output, z: Output)
    ensures Then(Then(x, y), z) == Then(x, Then(y, z))
  {
  }

  lemma FeedLast(s: State, a: seq<Byte>, b: Byte, x: Output)
    requires x == FeedAll(s, a)
    ensures FeedAll(s, a + [b]) == Then(x, Feed(x.state, b))
  {
    assert (a + [b])[..|a|] == a;
  }

  lemma {:induction false} FeedAppend(s: State, a: seq<Byte>, b: seq<Byte>, x: Output)
    requires x == FeedAll(s, a)
    ensures FeedAll(s, a + b) == Then(x, FeedAll(x.state, b))
    decreases |b|
  {
    if b == [] {
      assert a + b == a;
    } else {
      var b0, last := b[..|b| - 1], b[|b| - 1];
      assert b0 + [last] == b && (a + b0) + [last] == a + b;
      FeedAppend(s, a, b0, x);
      var y := FeedAll(x.state, b0);
      FeedLast(s, a + b0, last, Then(x, y));
      FeedLast(x.state, b0, last, y);
      ThenAssociates(x, y, Feed(y.state, last));
    }
  }

  function Concat(chunks: seq<seq<Byte>>): seq<Byte> {
    if chunks == [] then [] else Concat(chunks[..|chunks| - 1]) + chunks[|chunks| - 1]
  }

  function FeedChunks(s: State, chunks: seq<seq<Byte>>): Output {
    if chunks == [] then Output(s, [])
    else
      var before := FeedChunks(s, chunks[..|chunks| - 1]);
      Then(before, FeedAll(before.state, chunks[|chunks| - 1]))
  }

  /** However the stream is cut into received buffers, the same messages are pushed. */
  lemma {:induction false} ChunkingIsInvisible(s: State, chunks: seq<seq<Byte>>)
    ensures FeedChunks(s, chunks) == FeedAll(s, Concat(chunks))
  {
    if chunks != [] {
      ChunkingIsInvisible(s, chunks[..|chunks| - 1]);
      FeedAppend(s, Concat(chunks[..|chunks| - 1]), chunks[|chunks| - 1], FeedChunks(s, chunks[..|chunks| - 1]));
    }
  }

  // ----- round trip

  /** What the client sends for a payload: kind, size in one byte, payload; nothing from 1000 bytes on. */
  function Send(data: seq<Byte>, short: bool): seq<Byte> {
    if |data| < 1000 then [if short then 0x06 else 0x03, ToByte(|data| % 0x100)] + data else []
  }

  function ControlByte(m: Message): Byte
    requires !m.Data? && !m.DataShort?
  {
    match m
    case Free => 0x01
    case Busy => 0x02
    case Sending => 0x04
    case DoneSending => 0x05
    case End => 0x08
    case Hello => 0x09
    case TokenAccepted => 0x0A
    case TokenRejected => 0x0B
  }

  function Encode(m: Message): seq<Byte> {
    if m.Data? || m.DataShort? then Send(m.data, m.DataShort?) else [ControlByte(m)]
  }

  /** The numbers of the message types, as the program that sends the control bytes knows them. */
  function TypeNumber(m: Message): nat {
    match m
    case Free => 1
    case Busy => 2
    case Data(_) => 3
    case Sending => 4
    case DoneSending => 5
    case DataShort(_) => 6
    case End => 8
    case Hello => 9
    case TokenAccepted => 10
    case TokenRejected => 11
  }

  /** A message on the stream begins with the number of its type. */
  lemma FirstByteIsType(m: Message)
    requires Encode(m) != []
    ensures FromByte(Encode(m)[0]) == TypeNumber(m)
  {
    CountIsCast(Encode(m)[0]);
  }

  /**
   Outside a message a byte is read as the number of a type: the two data types begin a message, the others are pushed
   at once, and any other byte is skipped.
   */
  lemma BytesAreTypes(s: State, b: Byte, m: Message)
    requires !s.inMessage
    ensures var out := Feed(s, b);
      && (out.state.inMessage <==> FromByte(b) == 3 || FromByte(b) == 6)
      && (out.state.inMessage ==> out == Output(State(true, -1, [], FromByte(b) == 6), []))
      && (!out.state.inMessage ==> out.state == s && |out.pushed| <= 1)
      && (out.pushed == [m] <==> FromByte(b) == TypeNumber(m) && !m.Data? && !m.DataShort?)
  {
    CountIsCast(b);
  }

  function EncodeAll(ms: seq<Message>): seq<seq<Byte>> {
    if ms == [] then [] else EncodeAll(ms[..|ms| - 1]) + [Encode(ms[|ms| - 1])]
  }

  predicate Short(m: Message) { (m.Data? || m.DataShort?) ==> |m.data| <= 0xFF }

  lemma {:induction false} FeedPayload(s: State, data: seq<Byte>)
    requires s.inMessage && s.buffer == [] && 0 <= |data| <= s.length && s.length > 0
    ensures FeedAll(s, data) ==
      if |data| < s.length then Output(s.(buffer := data), [])
      else Output(s.(buffer := data, inMessage := false), [if s.short then DataShort(data) else Data(data)])
  {
    if data != [] {
      FeedPayload(s, data[..|data| - 1]);
      assert data[..|data| - 1] + [data[|data| - 1]] == data;
    }
  }

  lemma FeedHead(s: State, kind: Byte, size: Byte)
    requires !s.inMessage && (kind == 0x03 || kind == 0x06)
    ensures FeedAll(s, [kind, size]) ==
      if FromByte(size) == 0
      then Output(State(false, 0, [], kind == 0x06), [if kind == 0x06 then DataShort([]) else Data([])])
      else Output(State(true, FromByte(size), [], kind == 0x06), [])
  {
    assert [kind, size][..1] == [kind] && [kind][..0] == [];
    assert FeedAll(s, [kind]) == Feed(s, kind);
  }

  lemma FeedSend(s: State, data: seq<Byte>, short: bool)
    requires !s.inMessage && |data| <= 0xFF
    ensures var out := FeedAll(s, Send(data, short));
      !out.state.inMessage && out.pushed == [if short then DataShort(data) else Data(data)]
  {
    var head: seq<Byte> := [if short then 0x06 else 0x03, ToByte(|data|)];
    FromToByte(|data|);
    FeedHead(s, head[0], head[1]);
    FeedAppend(s, head, data, FeedAll(s, head));
    assert Send(data, short) == head + data;
    if data == [] {
      assert head + data == head;
    } else {
      FeedPayload(FeedAll(s, head).state, data);
    }
  }

  lemma FeedEncode(s: State, m: Message)
    requires !s.inMessage && Short(m)
    ensures !FeedAll(s, Encode(m)).state.inMessage && FeedAll(s, Encode(m)).pushed == [m]
  {
    if m.Data? || m.DataShort? {
      FeedSend(s, m.data, m.DataShort?);
    } else {
      assert Encode(m)[..0] == [] && Control(ControlByte(m)) == [m];
    }
  }

  lemma FeedNext(s: State, pieces: seq<seq<Byte>>, m: Message, x: Output)
    requires x == FeedChunks(s, pieces) && !x.state.inMessage && Short(m)
    ensures var out := FeedChunks(s, pieces + [Encode(m)]); !out.state.inMessage && out.pushed == x.pushed + [m]
  {
    assert (pieces + [Encode(m)])[..|pieces|] == pieces;
    FeedEncode(x.state, m);
  }

  lemma {:induction false} FeedEncodeAll(s: State, ms: seq<Message>, out: Output)
    requires !s.inMessage && (forall m | m in ms :: Short(m)) && out == FeedChunks(s, EncodeAll(ms))
    ensures !out.state.inMessage && out.pushed == ms
  {
    if ms != [] {
      var before, m := ms[..|ms| - 1], ms[|ms| - 1];
      var x := FeedChunks(s, EncodeAll(before));
      FeedEncodeAll(s, before, x);
      FeedNext(s, EncodeAll(before), m, x);
    }
  }

  /**
   Data of at most 255 bytes, mixed with control messages, sent as one stream and received in any pieces, is
   pushed exactly as it was sent.
   */
  lemma FramingRoundTrip(ms: seq<Message>, chunks: seq<seq<Byte>>)
    requires (forall m | m in ms :: Short(m)) && Concat(chunks) == Concat(EncodeAll(ms))
    ensures FeedChunks(START, chunks).pushed == ms
  {
    ChunkingIsInvisible(START, chunks);
    ChunkingIsInvisible(START, EncodeAll(ms));
    FeedEncodeAll(START, ms, FeedChunks(START, EncodeAll(ms)));
  }

  /** A prefix of the stream pushes a prefix of the messages. */
  lemma PushedSoFar(s: State, a: seq<Byte>, b: seq<Byte>)
    ensures FeedAll(s, a).pushed <= FeedAll(s, a + b).pushed
  {
    FeedAppend(s, a, b, FeedAll(s, a));
  }

  lemma FeedCut(s: State, cut: seq<Byte>, rest: seq<Byte>, short: bool)
    requires !s.inMessage && |cut| <= 0xFF
    ensures var pushed := FeedAll(s, Send(cut, short) + rest).pushed;
      |pushed| > 0 && pushed[0] == if short then DataShort(cut) else Data(cut)
  {
    FeedSend(s, cut, short);
    PushedSoFar(s, Send(cut, short), rest);
  }

  lemma SendOversized(data: seq<Byte>, short: bool, size: nat)
    requires 0xFF < |data| < 1000 && size == |data| % 0x100
    ensures Send(data, short) == Send(data[..size], short) + data[size..]
  {
  }

  /**
   A single message comes back exactly when it has at most 255 bytes: the size byte wraps, and from 1000 bytes on
   nothing is sent.
   */
  lemma SendRoundTripIff(data: seq<Byte>, short: bool, pushed: seq<Message>)
    requires pushed == FeedAll(START, Send(data, short)).pushed
    ensures pushed == [if short then DataShort(data) else Data(data)] <==> |data| <= 0xFF
  {
    if |data| <= 0xFF {
      FeedSend(START, data, short);
    } else if |data| < 1000 {
      var size := |data| % 0x100;
      SendOversized(data, short, size);
      FeedCut(START, data[..size], data[size..], short);
      assert pushed[0].data == data[..size] != data;
    }
  }
}
