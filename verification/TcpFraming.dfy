/** Messages over TCP: a length word in front of each, and a socket that delivers in pieces of any size. */
module TcpFraming {
  import opened Bytes
  import opened Collections
  import opened Wire
  import opened LeafCodec
  import opened Codec
  import opened CodecRoundTrip
  import opened CodecLoops
  import opened WireFormat

  /** What the replier puts on the stream for one message; `pack('!H', …)` raises for longer ones. */
  function Frame(data: bytes): bytes
    requires |data| < 0x1_0000
  {
    Pack(|data|, 2) + data
  }

  predicate AllShort(messages: seq<bytes>) { forall data <- messages :: |data| < 0x1_0000 }

  function Framing(messages: seq<bytes>): bytes
    requires AllShort(messages)
  {
    if messages == [] then [] else Frame(messages[0]) + Framing(messages[1..])
  }

  /** A beginning of a frame that does not hold all of it. */
  predicate Unfinished(s: bytes) { |s| < 2 || |s| < 2 + Read(s, 0, 2) }

  /** The complete messages at the start of a stream, and what is left. */
  function Deframe(s: bytes): (r: (seq<bytes>, bytes)) {
    if Unfinished(s) then ([], s)
    else
      var n := Read(s, 0, 2);
      var (messages, rest) := Deframe(s[2 + n..]);
      ([s[2..2 + n]] + messages, rest)
  }

  /** Section 5.1 of RFC 5460: a length of two octets, the high one first, and then the message. */
  lemma FrameIsLengthAndMessage(data: bytes)
    requires |data| < 0x1_0000
    ensures var frame := Frame(data);
            |frame| == |data| + 2 && 256 * frame[0] as int + frame[1] as int == |data| && frame[2..] == data
  {
    PackIsWord(|data|);
    var frame := Frame(data);
    assert frame[0] == (|data| / 256 % 256) as byte && frame[1] == (|data| % 256) as byte;
  }

  /** A frame at the front of a stream is its first message. */
  lemma FrameIsFirst(data: bytes, tail: bytes)
    requires |data| < 0x1_0000
    ensures !Unfinished(Frame(data) + tail)
    ensures Deframe(Frame(data) + tail) == ([data] + Deframe(tail).0, Deframe(tail).1)
  {
    hide Bytes.Pack, Bytes.Unpack;
    var s := Frame(data) + tail;
    TwoOctets();
    assert s[0..2] == Pack(|data|, 2);
    UnpackPack(|data|, 2);
    assert Read(s, 0, 2) == |data|;
    assert s[2..2 + |data|] == data && s[2 + |data|..] == tail;
  }

  /** A stream that does not start with an unfinished frame starts with a whole one. */
  lemma FirstIsFrame(s: bytes)
    requires !Unfinished(s)
    ensures var n := Read(s, 0, 2); n < 0x1_0000 && s == Frame(s[2..2 + n]) + s[2 + n..]
  {
    hide Bytes.Pack, Bytes.Unpack;
    var n := Read(s, 0, 2);
    TwoOctets();
    PackUnpack(s[0..2]);
    assert s == s[0..2] + (s[2..2 + n] + s[2 + n..]);
  }

  /** Deframing undoes framing, whatever unfinished frame follows. */
  lemma {:induction false} DeframeFraming(messages: seq<bytes>, rest: bytes)
    requires AllShort(messages) && Unfinished(rest)
    ensures Deframe(Framing(messages) + rest) == (messages, rest)
  {
    hide Frame, Unfinished;
    if messages == [] {
      assert Framing(messages) + rest == rest;
    } else {
      hide Deframe;
      var first, others := Frame(messages[0]), Framing(messages[1..]);
      DeframeFraming(messages[1..], rest);
      FrameIsFirst(messages[0], others + rest);
      Associative(first, others, rest);
      assert messages == [messages[0]] + messages[1..];
    }
  }

  /** Framing undoes deframing: every stream is the frames of its messages and one unfinished frame. */
  lemma {:induction false} FramingDeframe(s: bytes)
    ensures var (messages, rest) := Deframe(s);
            AllShort(messages) && Unfinished(rest) && s == Framing(messages) + rest
  {
    hide Frame, Bytes.Read;
    if !Unfinished(s) {
      var n := Read(s, 0, 2);
      FirstIsFrame(s);
      FramingDeframe(s[2 + n..]);
      var (messages, rest) := Deframe(s[2 + n..]);
      assert ([s[2..2 + n]] + messages)[1..] == messages;
      assert s == Frame(s[2..2 + n]) + (Framing(messages) + rest);
    } else {
      assert s == [] + s;
    }
  }

  // ---- The connection ---------------------------------------------------------------------------

  /** What `recv_request` comes to: a message, `IncompleteMessage` or `ClosedListener`. */
  datatype Outcome = Packet(data: bytes) | Incomplete | Closed

  /** A connection: octets received but not used, and those of the peer that are still to be received. */
  class Connection {
    var buffer: bytes
    var stream: bytes

    constructor (stream: bytes)
      ensures buffer == [] && this.stream == stream
    {
      buffer := [];
      this.stream := stream;
    }

    /** All that is still to be turned into messages. */
    ghost function Ahead(): bytes
      reads this
    {
      buffer + stream
    }

    /**
     `recv(amount)` delivers at least one octet and at most `amount`; `pieces` stands for how many
     the network has ready. With nothing left the peer has closed, and the result is `ClosedListener`.
     */
    method RecvDataIntoBuffer(amount: nat, pieces: nat) returns (received: nat)
      requires amount > 0
      modifies this
      ensures Ahead() == old(Ahead()) && received <= amount && received <= |old(stream)|
      ensures buffer == old(buffer) + old(stream)[..received] && stream == old(stream)[received..]
      ensures received == 0 <==> old(stream) == []
    {
      var most := if amount <= |stream| then amount else |stream|;
      received := if pieces == 0 then 1 else pieces;
      if received > most {
        received := most;
      }
      buffer := buffer + stream[..received];
      stream := stream[received..];
    }

    method PacketFromBuffer() returns (data: bytes)
      requires !Unfinished(buffer)
      modifies this
      ensures |data| == Read(old(buffer), 0, 2) < 0x1_0000 && old(buffer) == Frame(data) + buffer
      ensures stream == old(stream)
    {
      FirstIsFrame(buffer);
      var n := Read(buffer, 0, 2);
      data := buffer[2..2 + n];
      buffer := buffer[2 + n..];
    }

    /** At most one `recv` for the length and one for the rest: never an octet of a later message. */
    method RecvRequest(pieces: nat, morePieces: nat) returns (r: Outcome)
      requires Unfinished(buffer)
      modifies this
      ensures Unfinished(buffer)
      ensures match r
              case Packet(data) =>
                |data| < 0x1_0000 && old(Ahead()) == Frame(data) + Ahead() && buffer == [] && |stream| < |old(stream)|
              case Incomplete => Ahead() == old(Ahead()) && |stream| < |old(stream)|
              case Closed => Ahead() == old(Ahead()) && stream == []
    {
      hide Bytes.Pack, Bytes.Unpack, Frame;
      var bufferLength := |buffer|;
      if bufferLength < 2 {
        var received := RecvDataIntoBuffer(2 - bufferLength, pieces);
        if received == 0 {
          return Closed;
        }
        bufferLength := bufferLength + received;
      }
      if bufferLength >= 2 {
        var messageLength := Read(buffer, 0, 2);
        var weAlreadyHave := bufferLength - 2;
        if messageLength - weAlreadyHave > 0 {
          ghost var word := buffer[0..2];
          var received := RecvDataIntoBuffer(messageLength - weAlreadyHave, morePieces);
          assert buffer[0..2] == word;
          if received == 0 {
            return Closed;
          }
          bufferLength := bufferLength + received;
        }
        weAlreadyHave := bufferLength - 2;
        if weAlreadyHave >= messageLength {
          ghost var whole := buffer;
          var data := PacketFromBuffer();
          FrameLength(data);
          assert |whole| == 2 + messageLength && |data| == messageLength;
          assert (Frame(data) + buffer) + stream == Frame(data) + (buffer + stream);
          return Packet(data);
        }
      }
      return Incomplete;
    }
  }

  lemma FrameLength(data: bytes)
    requires |data| < 0x1_0000
    ensures |Frame(data)| == 2 + |data|
  {
  }

  /**
   Any number of calls with any pieces, until the peer has closed: the messages delivered are
   those of the octets received so far, and the buffer holds just the unfinished frame.
   */
  method Receive(connection: Connection, pieces: seq<(nat, nat)>) returns (messages: seq<bytes>, closed: bool)
    requires Unfinished(connection.buffer)
    modifies connection
    ensures var all := old(connection.Ahead());
            |connection.stream| <= |all|
            && all == all[..|all| - |connection.stream|] + connection.stream
            && Deframe(all[..|all| - |connection.stream|]) == (messages, connection.buffer)
    ensures closed ==> connection.stream == []
    ensures |pieces| > |old(connection.stream)| ==> closed
  {
    hide Unfinished, Frame, Framing, Deframe;
    ghost var all := connection.Ahead();
    messages, closed := [], false;
    NoMessages(connection.buffer);
    assert all == Framing(messages) + connection.Ahead();
    for i := 0 to |pieces|
      invariant Unfinished(connection.buffer) && AllShort(messages) && all == Framing(messages) + connection.Ahead()
      invariant |connection.stream| + i <= |old(connection.stream)| && !closed
    {
      ghost var ahead := connection.Ahead();
      var outcome := connection.RecvRequest(pieces[i].0, pieces[i].1);
      match outcome {
        case Packet(data) =>
          OneMoreFrame(messages, data, connection.Ahead());
          messages := messages + [data];
        case Incomplete =>
        case Closed =>
          closed := true;
          break;
      }
    }
    DeframeFraming(messages, connection.buffer);
    assert all == (Framing(messages) + connection.buffer) + connection.stream;
    assert all[..|all| - |connection.stream|] == Framing(messages) + connection.buffer;
  }

  lemma NoMessages(rest: bytes)
    ensures Framing([]) + rest == rest
  {
  }

  lemma {:induction false} OneMoreFrame(messages: seq<bytes>, data: bytes, ahead: bytes)
    requires AllShort(messages) && |data| < 0x1_0000
    ensures Framing(messages + [data]) == Framing(messages) + Frame(data)
    ensures Framing(messages) + (Frame(data) + ahead) == Framing(messages + [data]) + ahead
  {
    hide Frame;
    if messages == [] {
      assert [data][1..] == [];
      assert Framing([data]) == Frame(data) + [] == Frame(data);
      assert [] + [data] == [data] && Framing([]) + Frame(data) == Frame(data);
    } else {
      OneMoreFrame(messages[1..], data, ahead);
      assert (messages + [data])[1..] == messages[1..] + [data];
      assert (Frame(messages[0]) + Framing(messages[1..])) + Frame(data)
          == Frame(messages[0]) + (Framing(messages[1..]) + Frame(data));
    }
    assert Framing(messages) + (Frame(data) + ahead) == (Framing(messages) + Frame(data)) + ahead;
  }

  /** However the stream is split: once the peer has closed, its messages in order and nothing else. */
  method ReceiveAll(stream: bytes, pieces: seq<(nat, nat)>) returns (messages: seq<bytes>, rest: bytes)
    requires |pieces| > |stream|
    ensures (messages, rest) == Deframe(stream)
  {
    var connection := new Connection(stream);
    assert connection.Ahead() == stream;
    var closed;
    messages, closed := Receive(connection, pieces);
    assert stream[..|stream|] == stream;
    rest := connection.buffer;
  }

  // ---- The replier --------------------------------------------------------------------------------

  /** Whether `send_reply` gets to the socket: both `save` and the length word can be packed. */
  predicate Sendable(message: Message) {
    EncodableMessage(message) && |SaveMessage(message)| < 0x1_0000
  }

  class Replier {
    var sent: bytes

    constructor ()
      ensures sent == []
    {
      sent := [];
    }

    method SendReply(reply: Message) returns (r: Result<()>)
      modifies this
      ensures r == if Sendable(reply) then Ok(()) else Err(StructError)
      ensures sent == if Sendable(reply) then old(sent) + Frame(SaveMessage(reply)) else old(sent)
    {
      hide Codec.EncodableMessage, Codec.SaveMessage, Bytes.Pack;
      var saved := StoreMessage(reply);
      if saved.Err? {
        return Err(StructError);
      }
      if |saved.value| >= 0x1_0000 {
        return Err(StructError);
      }
      sent := sent + (Pack(|saved.value|, 2) + saved.value);
      return Ok(());
    }
  }

  /** Replies sent over one connection and received at the other end, however they are split, are the same messages. */
  method Converse(replies: seq<Message>, pieces: nat -> (nat, nat)) returns (received: seq<Message>)
    requires forall m <- replies :: ProperMessage(m) && Sendable(m)
    ensures received == replies
  {
    hide Codec.EncodableMessage, Codec.SaveMessage, Codec.ProperMessage, Codec.ParseMessage, Frame, Framing, Deframe;
    var replier := new Replier();
    ghost var saved: seq<bytes> := [];
    NoMessages([]);
    for i := 0 to |replies|
      invariant |saved| == i && AllShort(saved) && replier.sent == Framing(saved)
      invariant forall j | 0 <= j < i :: saved[j] == SaveMessage(replies[j])
    {
      assert ProperMessage(replies[i]) && Sendable(replies[i]);
      var _ := replier.SendReply(replies[i]);
      OneMoreFrame(saved, SaveMessage(replies[i]), []);
      saved := saved + [SaveMessage(replies[i])];
    }
    var data, rest := ReceiveAll(replier.sent, seq(|replier.sent| + 1, pieces));
    DeframeFraming(saved, []);
    assert Framing(saved) + [] == Framing(saved);
    received := [];
    for i := 0 to |data|
      invariant received == replies[..i]
    {
      assert ProperMessage(replies[i]) && Sendable(replies[i]);
      SavedMessageComesBackIffProper(replies[i]);
      var message := LoadMessage(data[i], 0, 0);
      received := received + [message.value];
    }
  }
}
