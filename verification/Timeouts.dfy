/** What a poll that times out at a frame header costs: the next call to recv_event starts afresh, without
    the bytes and the fragments the timed-out call had taken. */
module Timeouts {
  import opened Frames
  import opened Gateway
  import opened Reassembly
  import opened Wrappers

  /** The fragments in hand when reading from i on ends in an error. */
  function Held(s: Bytes, end: End, i: nat, fragments: seq<Bytes>): seq<Bytes>
    requires i <= |s|
    decreases |s| - i
  {
    var p := Parse(s, i, end);
    if p.Err? then fragments
    else
      var move := Handle(p.value.frame, fragments);
      if move.Finish? then fragments
      else if move.Collect? then Held(s, end, p.value.stop, move.fragments)
      else Held(s, end, p.value.stop, fragments)
  }

  // ----- frames in a longer stream -----

  lemma {:induction false} SliceShift(a: Bytes, b: Bytes, i: nat, j: nat)
    requires i <= j <= |b|
    ensures (a + b)[|a| + i..|a| + j] == b[i..j]
  {
  }

  lemma {:induction false} SlicePrefix(a: Bytes, b: Bytes, i: nat, j: nat)
    requires i <= j <= |a|
    ensures (a + b)[i..j] == a[i..j]
  {
  }

  predicate Shifted(p: Result<Parsed, WsError>, q: Result<Parsed, WsError>, offset: nat) {
    if p.Err? then q == p else q == Ok(Parsed(p.value.frame, offset + p.value.stop))
  }

  lemma {:induction false} BodyShift(a: Bytes, b: Bytes, at: nat, fin: bool, opcode: byte, masked: bool, length: nat)
    requires at <= |b|
    ensures Shifted(ParseBody(b, at, fin, opcode, masked, length),
                    ParseBody(a + b, |a| + at, fin, opcode, masked, length), |a|)
  {
    var start := if masked then at + 4 else at;
    if start + length <= |b| {
      SliceShift(a, b, at, start);
      SliceShift(a, b, start, start + length);
    }
  }

  lemma {:induction false} ParseShift(a: Bytes, b: Bytes, i: nat, end: End)
    requires i <= |b|
    ensures Shifted(Parse(b, i, end), Parse(a + b, |a| + i, end), |a|)
  {
    hide ParseBody;
    if i + 2 <= |b| {
      assert (a + b)[|a| + i] == b[i] && (a + b)[|a| + i + 1] == b[i + 1];
      var code := b[i + 1] % 0x80;
      var at := i + 2 + ExtendedWidth(code);
      if at <= |b| {
        SliceShift(a, b, i + 2, at);
        assert LengthAt(a + b, |a| + i + 2, code) == LengthAt(b, i + 2, code);
        BodyShift(a, b, at, b[i] >= 0x80, b[i] % 16, b[i + 1] >= 0x80, LengthAt(b, i + 2, code));
      }
    }
  }

  lemma {:induction false} BodyPrefix(a: Bytes, b: Bytes, at: nat, fin: bool, opcode: byte, masked: bool, length: nat)
    requires at <= |a| && ParseBody(a, at, fin, opcode, masked, length).Ok?
    ensures ParseBody(a + b, at, fin, opcode, masked, length) == ParseBody(a, at, fin, opcode, masked, length)
  {
    var start := if masked then at + 4 else at;
    SlicePrefix(a, b, at, start);
    SlicePrefix(a, b, start, start + length);
  }

  lemma {:induction false} ParsePrefix(a: Bytes, b: Bytes, i: nat, end: End)
    requires i <= |a| && Parse(a, i, Stall).Ok?
    ensures Parse(a + b, i, end) == Parse(a, i, Stall)
  {
    hide ParseBody;
    assert (a + b)[i] == a[i] && (a + b)[i + 1] == a[i + 1];
    var code := a[i + 1] % 0x80;
    var at := i + 2 + ExtendedWidth(code);
    SlicePrefix(a, b, i + 2, at);
    assert LengthAt(a + b, i + 2, code) == LengthAt(a, i + 2, code);
    BodyPrefix(a, b, at, a[i] >= 0x80, a[i] % 16, a[i + 1] >= 0x80, LengthAt(a, i + 2, code));
  }

  // ----- calls in a longer stream -----

  lemma {:induction false} ReceiveShift(a: Bytes, b: Bytes, end: End, i: nat, fragments: seq<Bytes>, before: seq<Bytes>,
                                        pongs: seq<Bytes>)
    requires i <= |b|
    ensures var r := Receive(b, end, i, fragments, pongs);
            Receive(a + b, end, |a| + i, fragments, before + pongs) == Received(r.event, before + r.pongs, |a| + r.read)
    decreases |b| - i
  {
    hide Parse, Handle, Receive;
    ParseShift(a, b, i, end);
    ReceiveNext(b, end, i, fragments, pongs);
    ReceiveNext(a + b, end, |a| + i, fragments, before + pongs);
    var p := Parse(b, i, end);
    if p.Ok? {
      var move := Handle(p.value.frame, fragments);
      if move.Collect? {
        ReceiveShift(a, b, end, p.value.stop, move.fragments, before, pongs);
      } else if move.Answer? {
        assert before + pongs + [p.value.frame.payload] == before + (pongs + [p.value.frame.payload]);
        ReceiveShift(a, b, end, p.value.stop, fragments, before, pongs + [p.value.frame.payload]);
      }
    }
  }

  /** A call that timed out at a header had dealt with whole frames only. */
  lemma {:induction false} ReceivePrefix(a: Bytes, b: Bytes, end: End, i: nat, fragments: seq<Bytes>, pongs: seq<Bytes>)
    requires i <= |a| && Receive(a, Stall, i, fragments, pongs).event == Failed(HeaderTimeout)
    ensures var r := Receive(a, Stall, i, fragments, pongs);
            && |a| < r.read + 2
            && Receive(a + b, end, i, fragments, pongs) ==
               Receive(a + b, end, r.read, Held(a, Stall, i, fragments), r.pongs)
    decreases |a| - i
  {
    hide Parse, Handle, Receive;
    ReceiveNext(a, Stall, i, fragments, pongs);
    var p := Parse(a, i, Stall);
    if p.Err? {
      TimeoutAtHeader(a, i);
    } else {
      ParsePrefix(a, b, i, end);
      ReceiveNext(a + b, end, i, fragments, pongs);
      HandleFails(p.value.frame, fragments);
      var move := Handle(p.value.frame, fragments);
      if move.Collect? {
        ReceivePrefix(a, b, end, p.value.stop, move.fragments, pongs);
      } else {
        ReceivePrefix(a, b, end, p.value.stop, fragments, pongs + [p.value.frame.payload]);
      }
    }
  }

  lemma {:induction false} TimeoutAtHeader(s: Bytes, i: nat)
    requires i <= |s| && Parse(s, i, Stall) == Err(HeaderTimeout)
    ensures |s| < i + 2
  {
  }

  lemma {:induction false} HandleFails(f: Frame, fragments: seq<Bytes>)
    ensures Handle(f, fragments) != Finish(Failed(HeaderTimeout))
  {
  }

  /** Fragments in hand are within the limit. */
  lemma {:induction false} HeldFits(s: Bytes, end: End, i: nat, fragments: seq<Bytes>)
    requires i <= |s| && |Join(fragments)| <= MAX_FRAME_BYTES
    ensures |Join(Held(s, end, i, fragments))| <= MAX_FRAME_BYTES
    decreases |s| - i
  {
    hide Parse, Handle, Join;
    var p := Parse(s, i, end);
    if p.Ok? {
      var move := Handle(p.value.frame, fragments);
      if move.Collect? {
        PayloadFits(s, i, end);
        CollectFits(p.value.frame, fragments);
        HeldFits(s, end, p.value.stop, move.fragments);
      } else if move.Answer? {
        HeldFits(s, end, p.value.stop, fragments);
      }
    }
  }

  lemma {:induction false} PayloadFits(s: Bytes, i: nat, end: End)
    requires i <= |s| && Parse(s, i, end).Ok?
    ensures |Parse(s, i, end).value.frame.payload| <= MAX_FRAME_BYTES
  {
  }

  lemma {:induction false} CollectFits(f: Frame, fragments: seq<Bytes>)
    requires |f.payload| <= MAX_FRAME_BYTES && Handle(f, fragments).Collect?
    ensures |Join(Handle(f, fragments).fragments)| <= MAX_FRAME_BYTES
  {
    JoinOne(f.payload);
  }

  // ----- two bytes that tell -----

  /** With one header byte lost, an empty text frame is read as the rest of a longer one. */
  lemma {:induction false} LostByteTells(s: Bytes, i: nat, end: End, fragments: seq<Bytes>, pongs: seq<Bytes>)
    requires |s| == i + 3 && s[i + 1] == 0x81 && s[i + 2] == 0
    ensures Receive(s, end, i, fragments, pongs).event == Failed(Closed)
    ensures Receive([0x81, 0], end, 0, [], []).event == Message([])
  {
    var first: Bytes := [0x81, 0];
    assert Parse(first, 0, end) == Ok(Parsed(Frame(true, 1, []), 2)) by {
      assert first[2..2] == [];
    }
    assert Parse(s, i, end) == Err(Closed);
  }

  /** With fragments lost, their last part is unexpected. */
  lemma {:induction false} LostFragmentTells(s: Bytes, i: nat, end: End, fragments: seq<Bytes>, pongs: seq<Bytes>)
    requires |s| == i + 2 && s[i] == 0x80 && s[i + 1] == 0
    requires fragments != [] && |Join(fragments)| <= MAX_FRAME_BYTES
    ensures Receive(s, end, i, fragments, pongs).event.Message?
    ensures Receive([0x80, 0], end, 0, [], []).event == Failed(Closed)
  {
    var first: Bytes := [0x80, 0];
    assert Parse(first, 0, end) == Ok(Parsed(Frame(true, 0, []), 2)) by {
      assert first[2..2] == [];
    }
    assert Parse(s, i, end) == Ok(Parsed(Frame(true, 0, []), i + 2)) by {
      assert s[i + 2..i + 2] == [];
    }
    JoinAppend(fragments, []);
  }

  /** Reading on in a fresh call gives what one unbroken call would have given, for everything that may
      follow. */
  ghost predicate Transparent(arrived: Bytes) {
    forall later: Bytes, end: End ::
      Receive(later, end, 0, [], []).event == Receive(arrived + later, end, 0, [], []).event
  }

  /** A header timeout goes unnoticed exactly when it took no header byte and held no fragment. */
  lemma {:induction false} ResumeExact(arrived: Bytes)
    requires Receive(arrived, Stall, 0, [], []).event == Failed(HeaderTimeout)
    ensures Transparent(arrived) <==>
              Receive(arrived, Stall, 0, [], []).read == |arrived| && Held(arrived, Stall, 0, []) == []
  {
    hide Receive, Held, Join;
    var r, held := Receive(arrived, Stall, 0, [], []), Held(arrived, Stall, 0, []);
    ReceivePrefix(arrived, [], Stall, 0, [], []);
    if r.read == |arrived| && held == [] {
      forall later: Bytes, end: End
        ensures Receive(later, end, 0, [], []).event == Receive(arrived + later, end, 0, [], []).event
      {
        ReceivePrefix(arrived, later, end, 0, [], []);
        ReceiveShift(arrived, later, end, 0, [], r.pongs, []);
        assert r.pongs + [] == r.pongs;
      }
    } else if r.read < |arrived| {
      var later: Bytes := [0x81, 0];
      ReceivePrefix(arrived, later, Eof, 0, [], []);
      LostByteTells(arrived + later, r.read, Eof, held, r.pongs);
    } else {
      var later: Bytes := [0x80, 0];
      ReceivePrefix(arrived, later, Eof, 0, [], []);
      NothingFits();
      HeldFits(arrived, Stall, 0, []);
      LostFragmentTells(arrived + later, r.read, Eof, held, r.pongs);
    }
  }

  lemma {:induction false} NothingFits()
    ensures |Join([])| <= MAX_FRAME_BYTES
  {
  }
}
