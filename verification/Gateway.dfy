/** The gateway's WebSocket client: frames over an arbitrarily chunked socket, and the reassembly of
    fragmented messages with control frames in between. */
module Gateway {
  import opened Frames
  import opened Sequences
  import opened WireBytes
  import opened Wrappers

  // ----- what a stream of bytes means -----

  /** recv_event's outcome: a text payload (which the source then decodes as JSON), no event, or an error. */
  datatype Event = Message(payload: Bytes) | NoEvent | Failed(error: WsError)

  /** The event, the payloads answered with a pong, and how many bytes were read. */
  datatype Received = Received(event: Event, pongs: seq<Bytes>, read: nat)

  function Join(parts: seq<Bytes>): Bytes {
    if parts == [] then [] else Join(parts[..|parts| - 1]) + parts[|parts| - 1]
  }

  lemma {:induction false} JoinAppend(parts: seq<Bytes>, part: Bytes)
    ensures Join(parts + [part]) == Join(parts) + part
  {
    assert (parts + [part])[..|parts|] == parts;
  }

  /** What one frame does to a message under way. */
  datatype Move = Finish(event: Event) | Collect(fragments: seq<Bytes>) | Answer

  function Handle(f: Frame, fragments: seq<Bytes>): Move {
    if f.opcode == 0x1 then
      if f.fin then Finish(Message(f.payload)) else Collect([f.payload])
    else if f.opcode == 0x0 then
      if fragments == [] || |Join(fragments + [f.payload])| > MAX_FRAME_BYTES then Finish(Failed(Closed))
      else if f.fin then Finish(Message(Join(fragments + [f.payload])))
      else Collect(fragments + [f.payload])
    else if f.opcode == 0x9 then Answer
    else if f.opcode == 0xA then Finish(NoEvent)
    else Finish(Failed(Closed))
  }

  /** Reads frames of s from position i on; `fragments` holds the text frames of the message so far,
      `pongs` the payloads answered so far. */
  function Receive(s: Bytes, end: End, i: nat, fragments: seq<Bytes>, pongs: seq<Bytes>): (r: Received)
    requires i <= |s|
    ensures i <= r.read <= |s|
    decreases |s| - i
  {
    var p := Parse(s, i, end);
    if p.Err? then Received(Failed(p.error), pongs, i)
    else
      var move := Handle(p.value.frame, fragments);
      if move.Finish? then Received(move.event, pongs, p.value.stop)
      else if move.Collect? then Receive(s, end, p.value.stop, move.fragments, pongs)
      else Receive(s, end, p.value.stop, fragments, pongs + [p.value.frame.payload])
  }

  lemma {:induction false} ReceiveNext(s: Bytes, end: End, i: nat, fragments: seq<Bytes>, pongs: seq<Bytes>)
    requires i <= |s|
    ensures var p := Parse(s, i, end);
            var r := Receive(s, end, i, fragments, pongs);
            if p.Err? then r == Received(Failed(p.error), pongs, i)
            else
              var move := Handle(p.value.frame, fragments);
              if move.Finish? then r == Received(move.event, pongs, p.value.stop)
              else if move.Collect? then r == Receive(s, end, p.value.stop, move.fragments, pongs)
              else r == Receive(s, end, p.value.stop, fragments, pongs + [p.value.frame.payload])
  {
    hide Parse, Handle;
  }

  // ----- the socket -----

  class Socket {
    /** The bytes that arrive before the peer closes or goes quiet, and those handed to the kernel. */
    var incoming: Bytes
    var end: End
    var sent: Bytes

    constructor (incoming: Bytes, end: End)
      ensures this.incoming == incoming && this.end == end && sent == []
    {
      this.incoming, this.end, sent := incoming, end, [];
    }

    /** Between one byte and n bytes, however the network cut them; the end only once nothing is left. */
    method Recv(n: nat) returns (chunk: Result<Bytes, End>)
      requires n > 0
      modifies `incoming
      ensures old(incoming) == [] ==> chunk == Err(end) && incoming == []
      ensures old(incoming) != [] ==>
                chunk.Ok? && 0 < |chunk.value| <= n && chunk.value + incoming == old(incoming)
    {
      if incoming == [] {
        return Err(end);
      }
      var k: nat :| 0 < k <= n && k <= |incoming|;
      chunk := Ok(incoming[..k]);
      incoming := incoming[k..];
    }

    method SendAll(data: Bytes)
      modifies `sent
      ensures sent == old(sent) + data
    {
      sent := sent + data;
    }
  }

  /** The bytes of pong frames for the payloads, each under its own mask. */
  function PongBytes(payloads: seq<Bytes>, masks: seq<MaskKey>): Bytes
    requires |payloads| == |masks|
  {
    if payloads == [] then []
    else
      var n := |payloads| - 1;
      PongBytes(payloads[..n], masks[..n]) + OwnFrame(0xA, masks[n], payloads[n])
  }

  /** A frame as the gateway sends it: final, masked, in the shortest form. */
  function OwnFrame(opcode: byte, mask: MaskKey, payload: Bytes): Bytes {
    var w := WireFrame(true, opcode % 16, Some(mask), MinimalForm(|payload|), payload);
    if w.Valid() then w.Encode() else []
  }

  /** A client over a socket. The tape is everything that arrives before the end: what has been read,
      what waits in the buffer, and what waits in the socket. */
  class GatewayWebSocket {
    const sock: Socket
    var recvBuffer: Bytes
    ghost var read: Bytes
    ghost var tape: Bytes

    ghost predicate Valid()
      reads this, sock
    {
      tape == read + (recvBuffer + sock.incoming)
    }

    /** The handshake leaves some bytes in the buffer and the rest in the socket, split anywhere. */
    constructor (sock: Socket, remainder: Bytes)
      ensures Valid() && this.sock == sock && tape == remainder + sock.incoming && read == []
    {
      this.sock, recvBuffer := sock, remainder;
      tape, read := remainder + sock.incoming, [];
    }

    method ReadExact(length: nat) returns (r: Result<Bytes, End>)
      requires Valid()
      modifies `recvBuffer, `read, sock`incoming
      ensures Valid()
      ensures |old(read)| + length <= |tape| ==>
                && |read| == |old(read)| + length
                && r == Ok(tape[|old(read)|..|read|])
      ensures |old(read)| + length > |tape| ==> r == Err(sock.end) && read == tape
    {
      var take := if length <= |recvBuffer| then length else |recvBuffer|;
      var data := recvBuffer[..take];
      recvBuffer := recvBuffer[take..];
      ghost var before := read;
      assert tape == before + (data + (recvBuffer + sock.incoming));
      while |data| < length
        invariant |data| <= length && tape == before + (data + (recvBuffer + sock.incoming))
        invariant |data| < length ==> recvBuffer == []
        invariant read == before
        modifies `read, sock`incoming
        decreases |sock.incoming|
      {
        var chunk := sock.Recv(length - |data|);
        match chunk {
          case Err(end) =>
            read := before + data;
            return Err(end);
          case Ok(bytes) =>
            Regroup(data, bytes, sock.incoming);
            data := data + bytes;
        }
      }
      read := before + data;
      Taken(tape, before, data, recvBuffer + sock.incoming);
      return Ok(data);
    }

    /** Whatever the split between buffer and socket chunks, the frame that comes next: there is one exactly
        where one stands whole, and it is what its bytes say. */
    method ReadFrame() returns (r: Result<Frame, WsError>)
      requires Valid()
      modifies `recvBuffer, `read, sock`incoming
      ensures Valid()
      ensures var p := Parse(tape, |old(read)|, sock.end);
              if p.Ok? then r == Ok(p.value.frame) && |read| == p.value.stop
              else r == Err(p.error) && (p.error == HeaderTimeout ==> read == tape)
      ensures r.Ok? <==> exists stop :: Whole(tape, |old(read)|, stop)
      ensures r.Ok? ==> Whole(tape, |old(read)|, |read|) && ReadsAs(tape, |old(read)|, |read|, r.value)
    {
      hide ParseBody, LengthAt, Whole, ReadsAs;
      ParseExact(tape, |read|, sock.end);
      var head := ReadExact(2);
      if head.Err? {
        return Err(if head.error.Stall? then HeaderTimeout else Closed);
      }
      var b0, b1 := head.value[0], head.value[1];
      var length := ReadLength(b1 % 0x80);
      if length.Err? {
        return Err(Closed);
      }
      r := ReadBody(b0 >= 0x80, b0 % 16, b1 >= 0x80, length.value);
    }

    method ReadLength(code: nat) returns (r: Result<nat, WsError>)
      requires Valid()
      modifies `recvBuffer, `read, sock`incoming
      ensures Valid()
      ensures var at := |old(read)| + ExtendedWidth(code);
              if at <= |tape| then |read| == at && r == Ok(LengthAt(tape, |old(read)|, code)) else r == Err(Closed)
    {
      if code != 126 && code != 127 {
        return Ok(code);
      }
      var ext := ReadExact(if code == 126 then 2 else 8);
      if ext.Err? {
        return Err(Closed);
      }
      return Ok(Unpack(ext.value));
    }

    method ReadBody(fin: bool, opcode: byte, masked: bool, length: nat) returns (r: Result<Frame, WsError>)
      requires Valid()
      modifies `recvBuffer, `read, sock`incoming
      ensures Valid()
      ensures var p := ParseBody(tape, |old(read)|, fin, opcode, masked, length);
              if p.Ok? then r == Ok(p.value.frame) && |read| == p.value.stop else r == Err(Closed)
    {
      if length > MAX_FRAME_BYTES {
        return Err(Closed);
      }
      var mask: Bytes := [];
      if masked {
        var key := ReadExact(4);
        if key.Err? {
          return Err(Closed);
        }
        mask := key.value;
      }
      var payload: Bytes := [];
      if length > 0 {
        var body := ReadExact(length);
        if body.Err? {
          return Err(Closed);
        }
        payload := body.value;
      }
      assert payload == tape[|read| - length..|read|];
      if masked {
        payload := Masked(payload, mask);
      }
      return Ok(Frame(fin, opcode, payload));
    }

    /** False when the payload is too long for a length field; the random mask is returned as a ghost. */
    method SendFrame(opcode: byte, payload: Bytes) returns (ok: bool, ghost mask: MaskKey)
      modifies sock`sent
      ensures ok <==> |payload| < 0x1_0000_0000_0000_0000
      ensures sock.sent == old(sock.sent) + OwnFrame(opcode, mask, payload)
      ensures ok ==> LaidOut(sock.sent[|old(sock.sent)|..], opcode % 16, mask, payload)
    {
      hide LaidOut;
      var key: MaskKey :| true;
      mask := key;
      var length := |payload|;
      var first := 0x80 + opcode % 16;
      var header: Bytes;
      if length < 126 {
        header := [first, 0x80 + length];
      } else if length < 0x1_0000 {
        header := [first, 0x80 + 126] + BigEndian(length, 2);
      } else if length < 0x1_0000_0000_0000_0000 {
        header := [first, 0x80 + 127] + BigEndian(length, 8);
      } else {
        ok := false;
        assert sock.sent == sock.sent + [];
        return;
      }
      ghost var w := WireFrame(true, opcode % 16, Some(key), MinimalForm(length), payload);
      assert header == w.Head();
      sock.SendAll(header + key + Masked(payload, key));
      ok := true;
      EncodedIsLaidOut(opcode % 16, key, payload);
    }

    /** What a frame does to the message under way. */
    method HandleFrame(f: Frame, fragments: seq<Bytes>) returns (move: Move)
      ensures move == Handle(f, fragments)
    {
      if f.opcode == 0x1 {
        if f.fin {
          return Finish(Message(f.payload));
        }
        return Collect([f.payload]);
      }
      if f.opcode == 0x0 {
        if fragments == [] {
          return Finish(Failed(Closed));
        }
        var more := fragments + [f.payload];
        if |Join(more)| > MAX_FRAME_BYTES {
          return Finish(Failed(Closed));
        }
        if f.fin {
          return Finish(Message(Join(more)));
        }
        return Collect(more);
      }
      if f.opcode == 0x8 {
        return Finish(Failed(Closed));
      }
      if f.opcode == 0x9 {
        return Answer;
      }
      if f.opcode == 0xA {
        return Finish(NoEvent);
      }
      return Finish(Failed(Closed));
    }

    /** Reads frames until a whole text message, a pong, or an error; pings are answered on the way. */
    method RecvEvent() returns (event: Event, ghost pongs: seq<Bytes>, ghost masks: seq<MaskKey>)
      requires Valid()
      modifies `recvBuffer, `read, sock`incoming, sock`sent
      ensures Valid() && |pongs| == |masks|
      ensures var r := Receive(tape, sock.end, |old(read)|, [], []);
              event == r.event && pongs == r.pongs && (!event.Failed? ==> |read| == r.read)
      ensures sock.sent == old(sock.sent) + PongBytes(pongs, masks)
    {
      hide Parse, Handle, Receive, PongBytes, OwnFrame;
      NoPongs();
      var fragments: seq<Bytes> := [];
      pongs, masks := [], [];
      ghost var all := Receive(tape, sock.end, |read|, fragments, pongs);
      while true
        invariant Valid() && |pongs| == |masks|
        invariant all == Receive(tape, sock.end, |read|, fragments, pongs)
        invariant sock.sent == old(sock.sent) + PongBytes(pongs, masks)
        decreases |tape| - |read|
      {
        ReceiveNext(tape, sock.end, |read|, fragments, pongs);
        var r := ReadFrame();
        if r.Err? {
          return Failed(r.error), pongs, masks;
        }
        var move := HandleFrame(r.value, fragments);
        match move {
          case Finish(e) =>
            return e, pongs, masks;
          case Collect(more) =>
            fragments := more;
          case Answer =>
            var _, mask := SendFrame(0xA, r.value.payload);
            AddPong(pongs, masks, r.value.payload, mask);
            pongs, masks := pongs + [r.value.payload], masks + [mask];
        }
      }
    }
  }

  lemma {:induction false} Taken(tape: Bytes, before: Bytes, data: Bytes, rest: Bytes)
    requires tape == before + (data + rest)
    ensures tape[|before|..|before| + |data|] == data && tape == (before + data) + rest
  {
  }

  lemma {:induction false} NoPongs()
    ensures PongBytes([], []) == []
  {
  }

  lemma {:induction false} AddPong(pongs: seq<Bytes>, masks: seq<MaskKey>, payload: Bytes, mask: MaskKey)
    requires |pongs| == |masks|
    ensures PongBytes(pongs + [payload], masks + [mask]) == PongBytes(pongs, masks) + OwnFrame(0xA, mask, payload)
  {
    assert (pongs + [payload])[..|pongs|] == pongs && (masks + [mask])[..|masks|] == masks;
  }
}
