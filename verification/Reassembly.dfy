/** What the client makes of whole messages: fragments, pings and pongs as they stand on the wire. */
module Reassembly {
  import opened Frames
  import opened Gateway
  import opened Sequences
  import opened Wrappers

  lemma {:induction false} Front(e: Bytes, rest: Bytes)
    ensures (e + rest)[0..0 + |e|] == e
  {
  }

  /** Whatever follows it, a frame the gateway sends is read back, and exactly its bytes are used. */
  lemma {:induction false} SentFrameReadsBack(opcode: byte, mask: MaskKey, payload: Bytes, rest: Bytes, end: End)
    requires opcode < 16 && |payload| <= MAX_FRAME_BYTES
    ensures var sent := OwnFrame(opcode, mask, payload);
            Parse(sent + rest, 0, end) == Ok(Parsed(Frame(true, opcode, payload), |sent|))
  {
    hide Parse;
    var w := WireFrame(true, opcode, Some(mask), MinimalForm(|payload|), payload);
    Front(w.Encode(), rest);
    ParseEncoded(w, w.Encode() + rest, 0, end);
  }

  // ----- frames one after another -----

  function Stop(ws: seq<WireFrame>, k: nat, i: nat): (stop: nat)
    requires k <= |ws| && forall w <- ws :: w.Valid()
    decreases |ws| - k
  {
    if k == |ws| then i else Stop(ws, k + 1, i + |ws[k].Encode()|)
  }

  /** The frames ws[k..] stand in s one after another, from position i on. */
  ghost predicate AllStand(ws: seq<WireFrame>, k: nat, s: Bytes, i: nat)
    requires k <= |ws| && forall w <- ws :: w.Valid()
    decreases |ws| - k
  {
    k < |ws| ==> StandsAt(ws[k], s, i) && AllStand(ws, k + 1, s, i + |ws[k].Encode()|)
  }

  /** The frames from k on finish a text message: parts under the right opcodes, the final flag on the
      last frame alone, pings and pongs anywhere in between. */
  ghost predicate Finishes(ws: seq<WireFrame>, k: nat, started: bool)
    decreases |ws| - k
  {
    && k < |ws|
    && if ws[k].opcode == 0x9 || ws[k].opcode == 0xA then
         |ws[k].payload| <= MAX_FRAME_BYTES && Finishes(ws, k + 1, started)
       else
         && ws[k].opcode == (if started then 0x0 else 0x1)
         && if ws[k].fin then k + 1 == |ws| else Finishes(ws, k + 1, true)
  }

  function Text(ws: seq<WireFrame>, k: nat): Bytes
    requires k <= |ws|
    decreases |ws| - k
  {
    if k == |ws| then []
    else (if ws[k].opcode == 0x9 || ws[k].opcode == 0xA then [] else ws[k].payload) + Text(ws, k + 1)
  }

  function Pings(ws: seq<WireFrame>, k: nat): seq<Bytes>
    requires k <= |ws|
    decreases |ws| - k
  {
    if k == |ws| then [] else (if ws[k].opcode == 0x9 then [ws[k].payload] else []) + Pings(ws, k + 1)
  }

  predicate NoPong(ws: seq<WireFrame>, k: nat)
    requires k <= |ws|
    decreases |ws| - k
  {
    k < |ws| ==> ws[k].opcode != 0xA && NoPong(ws, k + 1)
  }

  // ----- one frame further -----

  lemma {:induction false} ReceiveStep(w: WireFrame, s: Bytes, end: End, i: nat, fragments: seq<Bytes>,
                                       pongs: seq<Bytes>)
    requires w.Valid() && StandsAt(w, s, i)
    ensures i <= |s|
    ensures var stop := i + |w.Encode()|;
            var move := Handle(Frame(w.fin, w.opcode, w.payload), fragments);
            Receive(s, end, i, fragments, pongs) ==
            if |w.payload| > MAX_FRAME_BYTES then Received(Failed(Closed), pongs, i)
            else if move.Finish? then Received(move.event, pongs, stop)
            else if move.Collect? then Receive(s, end, stop, move.fragments, pongs)
            else Receive(s, end, stop, fragments, pongs + [w.payload])
  {
    hide Parse, Receive, Handle;
    ParseEncoded(w, s, i, end);
    ReceiveNext(s, end, i, fragments, pongs);
  }

  /** The fragments so far after one more part. */
  function Extended(fragments: seq<Bytes>, w: WireFrame): seq<Bytes> {
    fragments + [w.payload]
  }

  lemma {:induction false} JoinOne(payload: Bytes)
    ensures Join([payload]) == payload
  {
    JoinAppend([], payload);
    assert [] + [payload] == [payload];
  }

  /** What a text part does to the fragments. */
  lemma {:induction false} PartMove(w: WireFrame, fragments: seq<Bytes>)
    requires w.opcode == (if fragments == [] then 0x1 else 0x0)
    ensures Join(Extended(fragments, w)) == Join(fragments) + w.payload
    ensures var whole := Join(fragments) + w.payload;
            Handle(Frame(w.fin, w.opcode, w.payload), fragments) ==
            if fragments != [] && |whole| > MAX_FRAME_BYTES then Finish(Failed(Closed))
            else if w.fin then Finish(Message(whole))
            else Collect(Extended(fragments, w))
  {
    JoinAppend(fragments, w.payload);
    if fragments == [] {
      JoinOne(w.payload);
    }
  }

  /** A close frame, a frame of an unknown kind, or the rest of a message that never began ends the connection. */
  lemma {:induction false} OtherFramesClose(w: WireFrame, s: Bytes, end: End, i: nat, fragments: seq<Bytes>,
                                            pongs: seq<Bytes>)
    requires w.Valid() && StandsAt(w, s, i)
    requires w.opcode !in {0, 1, 9, 10} || (w.opcode == 0 && fragments == [])
    ensures i <= |s| && Receive(s, end, i, fragments, pongs).event == Failed(Closed)
  {
    hide Parse, Receive;
    ReceiveStep(w, s, end, i, fragments, pongs);
  }

  /** A new text frame drops what was collected of another message. */
  lemma {:induction false} TextStartsAnew(w: WireFrame, s: Bytes, end: End, i: nat, fragments: seq<Bytes>,
                                          pongs: seq<Bytes>)
    requires w.Valid() && StandsAt(w, s, i) && w.opcode == 1
    ensures i <= |s| && Receive(s, end, i, fragments, pongs) == Receive(s, end, i, [], pongs)
  {
    hide Parse, Receive;
    ReceiveStep(w, s, end, i, fragments, pongs);
    ReceiveStep(w, s, end, i, [], pongs);
  }

  // ----- pongs -----

  lemma {:induction false} PongsAppend(pongs: seq<Bytes>, masks: seq<MaskKey>)
    requires |pongs| == |masks| > 0
    ensures var n := |pongs| - 1;
            PongBytes(pongs, masks) == PongBytes(pongs[..n], masks[..n]) + OwnFrame(0xA, masks[n], pongs[n])
  {
  }

  lemma {:induction false} StandsBetween(w: WireFrame, before: Bytes, rest: Bytes)
    requires w.Valid()
    ensures StandsAt(w, before + w.Encode() + rest, |before|)
  {
  }

  /** The peer reads the answers to its pings as pong frames with the pings' payloads, in order. */
  lemma {:induction false} PongsReadBack(pongs: seq<Bytes>, masks: seq<MaskKey>, k: nat, rest: Bytes, end: End)
    requires k < |pongs| == |masks| && forall p <- pongs :: |p| <= MAX_FRAME_BYTES
    ensures var at := |PongBytes(pongs[..k], masks[..k])|;
            var s := PongBytes(pongs, masks) + rest;
            && at <= |s|
            && Parse(s, at, end)
               == Ok(Parsed(Frame(true, 10, pongs[k]), |PongBytes(pongs[..k + 1], masks[..k + 1])|))
  {
    hide Parse, PongBytes, WireFrame.Encode;
    var n := |pongs| - 1;
    var w := WireFrame(true, 0xA, Some(masks[n]), MinimalForm(|pongs[n]|), pongs[n]);
    PongsAppend(pongs, masks);
    if k == n {
      var before := PongBytes(pongs[..n], masks[..n]);
      StandsBetween(w, before, rest);
      ParseEncoded(w, before + w.Encode() + rest, |before|, end);
      assert pongs[..n + 1] == pongs && masks[..n + 1] == masks;
    } else {
      PongsReadBack(pongs[..n], masks[..n], k, w.Encode() + rest, end);
      assert pongs[..n][..k] == pongs[..k] && masks[..n][..k] == masks[..k];
      assert pongs[..n][..k + 1] == pongs[..k + 1] && masks[..n][..k + 1] == masks[..k + 1];
      Regroup(PongBytes(pongs[..n], masks[..n]), w.Encode(), rest);
    }
  }

  // ----- whole messages -----

  lemma {:induction false} ControlStep(ws: seq<WireFrame>, k: nat, s: Bytes, end: End, i: nat, fragments: seq<Bytes>,
                                       pongs: seq<Bytes>)
    requires k < |ws| && (forall w <- ws :: w.Valid()) && AllStand(ws, k, s, i)
    requires ws[k].opcode == 0x9 || ws[k].opcode == 0xA
    requires |ws[k].payload| <= MAX_FRAME_BYTES
    ensures Receive(s, end, i, fragments, pongs) ==
              if ws[k].opcode == 0xA then Received(NoEvent, pongs, i + |ws[k].Encode()|)
              else Receive(s, end, i + |ws[k].Encode()|, fragments, pongs + [ws[k].payload])
  {
    hide Parse;
    ReceiveStep(ws[k], s, end, i, fragments, pongs);
  }

  lemma {:induction false} PartStep(ws: seq<WireFrame>, k: nat, s: Bytes, end: End, i: nat, fragments: seq<Bytes>,
                                    pongs: seq<Bytes>)
    requires k < |ws| && (forall w <- ws :: w.Valid()) && AllStand(ws, k, s, i)
    requires ws[k].opcode == (if fragments == [] then 0x1 else 0x0)
    ensures var whole := Join(fragments) + ws[k].payload;
            var stop := i + |ws[k].Encode()|;
            Receive(s, end, i, fragments, pongs) ==
            if |ws[k].payload| > MAX_FRAME_BYTES then Received(Failed(Closed), pongs, i)
            else if |whole| > MAX_FRAME_BYTES then Received(Failed(Closed), pongs, stop)
            else if ws[k].fin then Received(Message(whole), pongs, stop)
            else Receive(s, end, stop, Extended(fragments, ws[k]), pongs)
  {
    hide Parse, Handle;
    ReceiveStep(ws[k], s, end, i, fragments, pongs);
    PartMove(ws[k], fragments);
  }

  ghost predicate Reassembled(r: Received, whole: Bytes, noPong: bool, pongs: seq<Bytes>, stop: nat) {
    && (r.event.Message? <==> noPong && |whole| <= MAX_FRAME_BYTES)
    && (r.event.Message? ==> r == Received(Message(whole), pongs, stop))
    && (noPong && |whole| > MAX_FRAME_BYTES ==> r.event == Failed(Closed))
  }

  lemma {:induction false} PongEnds(ws: seq<WireFrame>, k: nat, s: Bytes, end: End, i: nat, fragments: seq<Bytes>,
                                    pongs: seq<Bytes>)
    requires k < |ws| && (forall w <- ws :: w.Valid()) && AllStand(ws, k, s, i)
    requires ws[k].opcode == 0xA && |ws[k].payload| <= MAX_FRAME_BYTES
    ensures Reassembled(Receive(s, end, i, fragments, pongs), Join(fragments) + Text(ws, k), NoPong(ws, k),
                        pongs + Pings(ws, k), Stop(ws, k, i))
  {
    hide Parse, Handle, Join, StandsAt;
    ControlStep(ws, k, s, end, i, fragments, pongs);
  }

  lemma {:induction false} ControlText(ws: seq<WireFrame>, k: nat, joined: Bytes, pongs: seq<Bytes>)
    requires k < |ws| && ws[k].opcode == 0x9
    ensures joined + Text(ws, k) == joined + Text(ws, k + 1)
    ensures pongs + Pings(ws, k) == (pongs + [ws[k].payload]) + Pings(ws, k + 1)
  {
    assert [] + Text(ws, k + 1) == Text(ws, k + 1);
  }

  lemma {:induction false} PartText(ws: seq<WireFrame>, k: nat, joined: Bytes, pongs: seq<Bytes>)
    requires k < |ws| && ws[k].opcode != 0x9 && ws[k].opcode != 0xA
    ensures joined + Text(ws, k) == (joined + ws[k].payload) + Text(ws, k + 1)
    ensures pongs + Pings(ws, k) == pongs + Pings(ws, k + 1)
  {
    assert [] + Pings(ws, k + 1) == Pings(ws, k + 1);
  }

  /** The last part, or one that takes the message over the limit. */
  lemma {:induction false} LastPart(ws: seq<WireFrame>, k: nat, s: Bytes, end: End, i: nat, fragments: seq<Bytes>,
                                    pongs: seq<Bytes>)
    requires k < |ws| && (forall w <- ws :: w.Valid()) && AllStand(ws, k, s, i)
    requires ws[k].opcode == (if fragments == [] then 0x1 else 0x0)
    requires if ws[k].fin then k + 1 == |ws| else |Join(fragments) + ws[k].payload| > MAX_FRAME_BYTES
    ensures Reassembled(Receive(s, end, i, fragments, pongs), Join(fragments) + Text(ws, k), NoPong(ws, k),
                        pongs + Pings(ws, k), Stop(ws, k, i))
  {
    hide Parse, Receive, Handle, Join, StandsAt;
    PartStep(ws, k, s, end, i, fragments, pongs);
    PartText(ws, k, Join(fragments), pongs);
  }

  /** A text message in any number of parts, each frame masked or not and in any length form, with
      pings in between, is received whole exactly when it is within the limit and no pong stands before
      its last frame; then every ping's payload was answered, in order, and nothing behind the last
      frame was read. Over the limit it is refused. */
  lemma {:induction false} ReassemblyExact(ws: seq<WireFrame>, k: nat, s: Bytes, end: End, i: nat,
                                           fragments: seq<Bytes>, pongs: seq<Bytes>)
    requires k <= |ws| && (forall w <- ws :: w.Valid()) && AllStand(ws, k, s, i)
    requires Finishes(ws, k, fragments != [])
    ensures i <= |s|
    ensures Reassembled(Receive(s, end, i, fragments, pongs), Join(fragments) + Text(ws, k), NoPong(ws, k),
                        pongs + Pings(ws, k), Stop(ws, k, i))
    decreases |ws| - k
  {
    hide Parse, Receive, Handle, Join, Reassembled, Text, Pings;
    if ws[k].opcode == 0x9 {
      ControlStep(ws, k, s, end, i, fragments, pongs);
      ControlText(ws, k, Join(fragments), pongs);
      ReassemblyExact(ws, k + 1, s, end, i + |ws[k].Encode()|, fragments, pongs + [ws[k].payload]);
    } else if ws[k].opcode == 0xA {
      PongEnds(ws, k, s, end, i, fragments, pongs);
    } else if ws[k].fin || |Join(fragments) + ws[k].payload| > MAX_FRAME_BYTES {
      LastPart(ws, k, s, end, i, fragments, pongs);
    } else {
      PartStep(ws, k, s, end, i, fragments, pongs);
      PartMove(ws[k], fragments);
      PartText(ws, k, Join(fragments), pongs);
      ReassemblyExact(ws, k + 1, s, end, i + |ws[k].Encode()|, Extended(fragments, ws[k]), pongs);
    }
  }

  /** The bytes of the frames from k on. */
  function Wire(ws: seq<WireFrame>, k: nat): Bytes
    requires k <= |ws| && forall w <- ws :: w.Valid()
    decreases |ws| - k
  {
    if k == |ws| then [] else ws[k].Encode() + Wire(ws, k + 1)
  }

  lemma {:induction false} WireStands(ws: seq<WireFrame>, k: nat, s: Bytes, i: nat)
    requires k <= |ws| && forall w <- ws :: w.Valid()
    requires i + |Wire(ws, k)| <= |s| && s[i..i + |Wire(ws, k)|] == Wire(ws, k)
    ensures AllStand(ws, k, s, i) && Stop(ws, k, i) == i + |Wire(ws, k)|
    decreases |ws| - k
  {
    hide WireFrame.Valid, WireFrame.Encode;
    if k < |ws| {
      SplitSlice(s, i, ws[k].Encode(), Wire(ws, k + 1));
      WireStands(ws, k + 1, s, i + |ws[k].Encode()|);
    }
  }

  /** The same for a message sent over a fresh connection, whatever bytes follow it. */
  lemma {:induction false} MessageOverTheWire(ws: seq<WireFrame>, rest: Bytes, end: End)
    requires (forall w <- ws :: w.Valid()) && Finishes(ws, 0, false)
    ensures Reassembled(Receive(Wire(ws, 0) + rest, end, 0, [], []), Text(ws, 0), NoPong(ws, 0), Pings(ws, 0),
                        |Wire(ws, 0)|)
  {
    hide Receive, Wire, Text, Pings, Reassembled, AllStand, Stop, Finishes;
    Front(Wire(ws, 0), rest);
    WireStands(ws, 0, Wire(ws, 0) + rest, 0);
    ReassemblyExact(ws, 0, Wire(ws, 0) + rest, end, 0, [], []);
    assert Join([]) + Text(ws, 0) == Text(ws, 0);
    assert [] + Pings(ws, 0) == Pings(ws, 0);
  }
}
