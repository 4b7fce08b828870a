/** The gateway's WebSocket wire codec (sections 5.2 to 5.5 of RFC 6455): frame layout, masking, the
    three length forms, and what a byte stream means frame by frame.

    A byte is an integer below 256; XOR is defined bit by bit. */
module Frames {
  import opened Sequences
  import opened Wrappers

  type byte = b: int | 0 <= b < 256
  type Bytes = seq<byte>

  const MAX_FRAME_BYTES: nat := 16 * 1024 * 1024

  // ----- XOR masking -----

  function Xor(a: nat, b: nat): nat {
    if a == 0 && b == 0 then 0 else 2 * Xor(a / 2, b / 2) + (if a % 2 == b % 2 then 0 else 1)
  }

  lemma {:induction false} XorInvolution(a: nat, m: nat)
    ensures Xor(Xor(a, m), m) == a
  {
    if a != 0 || m != 0 {
      XorInvolution(a / 2, m / 2);
    }
  }

  function Pow2(k: nat): nat {
    if k == 0 then 1 else 2 * Pow2(k - 1)
  }

  lemma {:induction false} XorBound(a: nat, b: nat, k: nat)
    requires a < Pow2(k) && b < Pow2(k)
    ensures Xor(a, b) < Pow2(k)
  {
    if k > 0 && (a != 0 || b != 0) {
      XorBound(a / 2, b / 2, k - 1);
    }
  }

  function XorByte(a: byte, m: byte): (r: byte)
    ensures r == Xor(a, m)
  {
    assert Pow2(8) == 256 by {
      assert Pow2(4) == 16;
    }
    XorBound(a, m, 8);
    Xor(a, m)
  }

  type MaskKey = m: Bytes | |m| == 4 witness [0, 0, 0, 0]

  function Masked(payload: Bytes, mask: MaskKey): (r: Bytes)
    ensures |r| == |payload|
  {
    seq(|payload|, i requires 0 <= i < |payload| => XorByte(payload[i], mask[i % 4]))
  }

  lemma {:induction false} MaskedTwice(payload: Bytes, mask: MaskKey)
    ensures Masked(Masked(payload, mask), mask) == payload
  {
    forall i | 0 <= i < |payload| ensures Masked(Masked(payload, mask), mask)[i] == payload[i] {
      XorInvolution(payload[i], mask[i % 4]);
    }
  }

  // ----- network byte order -----

  function BigEndian(n: nat, width: nat): (r: Bytes)
    ensures |r| == width
  {
    if width == 0 then [] else BigEndian(n / 256, width - 1) + [n % 256]
  }

  function Unpack(bs: Bytes): nat {
    if bs == [] then 0 else 256 * Unpack(bs[..|bs| - 1]) + bs[|bs| - 1]
  }

  function Pow256(k: nat): nat {
    if k == 0 then 1 else 256 * Pow256(k - 1)
  }

  lemma {:induction false} UnpackBigEndian(n: nat, width: nat)
    requires n < Pow256(width)
    ensures Unpack(BigEndian(n, width)) == n
  {
    if width > 0 {
      UnpackBigEndian(n / 256, width - 1);
      assert BigEndian(n, width)[..width - 1] == BigEndian(n / 256, width - 1);
    }
  }

  // ----- frames on the wire -----

  datatype LengthForm = Short | Medium | Long

  function FieldWidth(form: LengthForm): nat {
    match form case Short => 0 case Medium => 2 case Long => 8
  }

  predicate Fits(form: LengthForm, n: nat) {
    match form case Short => n < 126 case Medium => n < 0x1_0000 case Long => n < 0x1_0000_0000_0000_0000
  }

  function MinimalForm(n: nat): LengthForm {
    if n < 126 then Short else if n < 0x1_0000 then Medium else Long
  }

  /** One frame as a sender lays it out. */
  datatype WireFrame = WireFrame(fin: bool, opcode: byte, mask: Option<MaskKey>, form: LengthForm, payload: Bytes)
  {
    predicate Valid() {
      opcode < 16 && Fits(form, |payload|)
    }

    function Flags(): byte
      requires Valid()
    {
      (if fin then 0x80 else 0) + opcode
    }

    function LengthCode(): byte
      requires Valid()
    {
      (if mask.Some? then 0x80 else 0) + match form case Short => |payload| case Medium => 126 case Long => 127
    }

    function Head(): (r: Bytes)
      requires Valid()
      ensures |r| == 2 + FieldWidth(form)
    {
      [Flags(), LengthCode()] + BigEndian(|payload|, FieldWidth(form))
    }

    function Key(): Bytes {
      if mask.Some? then mask.value else []
    }

    function Body(): Bytes {
      if mask.Some? then Masked(payload, mask.value) else payload
    }

    function Encode(): Bytes
      requires Valid()
    {
      Head() + Key() + Body()
    }
  }

  /** How the bytes at hand end: the peer closed, or nothing more arrives before the timeout. */
  datatype End = Eof | Stall

  datatype WsError = HeaderTimeout | Closed

  datatype Frame = Frame(fin: bool, opcode: byte, payload: Bytes)

  /** A frame, and the position after it. */
  datatype Parsed = Parsed(frame: Frame, stop: nat)

  function ExtendedWidth(code: nat): nat {
    if code == 126 then 2 else if code == 127 then 8 else 0
  }

  function LengthAt(s: Bytes, i: nat, code: nat): nat
    requires i + ExtendedWidth(code) <= |s|
  {
    if code == 126 || code == 127 then Unpack(s[i..i + ExtendedWidth(code)]) else code
  }

  /** Mask and payload of a frame whose head ends at `at`. */
  function ParseBody(s: Bytes, at: nat, fin: bool, opcode: byte, masked: bool, length: nat)
    : (r: Result<Parsed, WsError>)
    requires at <= |s|
    ensures if r.Ok? then at <= r.value.stop <= |s| else r == Err(Closed)
  {
    var start := if masked then at + 4 else at;
    if length > MAX_FRAME_BYTES || |s| < start + length then Err(Closed)
    else
      var raw := s[start..start + length];
      Ok(Parsed(Frame(fin, opcode, if masked then Masked(raw, s[at..at + 4]) else raw), start + length))
  }

  /** What a reader makes of the bytes from position i on. */
  function Parse(s: Bytes, i: nat, end: End): (r: Result<Parsed, WsError>)
    requires i <= |s|
    ensures r.Ok? ==> i + 2 <= r.value.stop <= |s|
  {
    if |s| < i + 2 then Err(if end.Stall? then HeaderTimeout else Closed)
    else
      var b0, b1 := s[i], s[i + 1];
      var at := i + 2 + ExtendedWidth(b1 % 0x80);
      if |s| < at then Err(Closed)
      else ParseBody(s, at, b0 >= 0x80, b0 % 16, b1 >= 0x80, LengthAt(s, i + 2, b1 % 0x80))
  }

  lemma {:induction false} WidthIsLarge(form: LengthForm, n: nat)
    requires Fits(form, n) && form != Short
    ensures n < Pow256(FieldWidth(form))
  {
    assert Pow256(2) == 0x1_0000;
    assert Pow256(4) == 0x1_0000_0000;
    assert Pow256(6) == 0x1_0000_0000_0000;
    assert Pow256(8) == 0x1_0000_0000_0000_0000;
  }

  /** w stands in s at position i. */
  ghost predicate StandsAt(w: WireFrame, s: Bytes, i: nat)
    requires w.Valid()
  {
    i + |w.Encode()| <= |s| && s[i..i + |w.Encode()|] == w.Encode()
  }

  lemma {:induction false} Slices(a: Bytes, b: Bytes, c: Bytes)
    ensures var e := a + b + c;
            && |e| == |a| + |b| + |c|
            && e[0..|a|] == a && e[|a|..|a| + |b|] == b && e[|a| + |b|..|e|] == c
  {
  }

  lemma {:induction false} PartsStand(w: WireFrame, s: Bytes, i: nat)
    requires w.Valid() && StandsAt(w, s, i)
    ensures var at := i + |w.Head()|;
            var start := at + |w.Key()|;
            && i + |w.Encode()| == start + |w.Body()| <= |s|
            && s[i..at] == w.Head() && s[at..start] == w.Key() && s[start..start + |w.Body()|] == w.Body()
  {
    var e, h, k := w.Encode(), |w.Head()|, |w.Key()|;
    Slices(w.Head(), w.Key(), w.Body());
    SliceOfSlice(s, i, e, 0, h);
    SliceOfSlice(s, i, e, h, h + k);
    SliceOfSlice(s, i, e, h + k, |e|);
  }

  lemma {:induction false} HeadStands(w: WireFrame, s: Bytes, i: nat)
    requires w.Valid() && i + |w.Head()| <= |s| && s[i..i + |w.Head()|] == w.Head()
    ensures s[i] == w.Flags() && s[i + 1] == w.LengthCode()
    ensures LengthAt(s, i + 2, w.LengthCode() % 0x80) == |w.payload|
  {
    var h := w.Head();
    assert s[i] == h[0] && s[i + 1] == h[1];
    if w.form != Short {
      SliceOfSlice(s, i, h, 2, |h|);
      assert h[2..] == BigEndian(|w.payload|, FieldWidth(w.form));
      WidthIsLarge(w.form, |w.payload|);
      UnpackBigEndian(|w.payload|, FieldWidth(w.form));
    }
  }

  lemma {:induction false} BodyStands(w: WireFrame, s: Bytes, at: nat)
    requires w.Valid() && at + |w.Key()| + |w.Body()| <= |s|
    requires s[at..at + |w.Key()|] == w.Key()
    requires s[at + |w.Key()|..at + |w.Key()| + |w.Body()|] == w.Body()
    ensures ParseBody(s, at, w.fin, w.opcode, w.mask.Some?, |w.payload|) ==
              if |w.payload| > MAX_FRAME_BYTES then Err(Closed)
              else Ok(Parsed(Frame(w.fin, w.opcode, w.payload), at + |w.Key()| + |w.payload|))
  {
    if w.mask.Some? {
      MaskedTwice(w.payload, w.mask.value);
    }
  }

  lemma {:induction false} ParseSplits(s: Bytes, i: nat, end: End, at: nat)
    requires i + 2 <= |s| && at == i + 2 + ExtendedWidth(s[i + 1] % 0x80) <= |s|
    ensures Parse(s, i, end) ==
              ParseBody(s, at, s[i] >= 0x80, s[i] % 16, s[i + 1] >= 0x80, LengthAt(s, i + 2, s[i + 1] % 0x80))
  {
  }

  lemma {:induction false} FlagsRead(w: WireFrame)
    requires w.Valid()
    ensures (w.Flags() >= 0x80 <==> w.fin) && w.Flags() % 16 == w.opcode
    ensures (w.LengthCode() >= 0x80 <==> w.mask.Some?) && ExtendedWidth(w.LengthCode() % 0x80) == FieldWidth(w.form)
  {
  }

  /** Reading inverts writing, for every legal frame: opcode, either end of a message, masked or not,
      any length form that fits; frames above the limit are refused. */
  lemma {:induction false} ParseEncoded(w: WireFrame, s: Bytes, i: nat, end: End)
    requires w.Valid() && StandsAt(w, s, i)
    ensures Parse(s, i, end) ==
              if |w.payload| <= MAX_FRAME_BYTES then Ok(Parsed(Frame(w.fin, w.opcode, w.payload), i + |w.Encode()|))
              else Err(Closed)
  {
    hide Parse, ParseBody, LengthAt, ExtendedWidth;
    PartsStand(w, s, i);
    HeadStands(w, s, i);
    FlagsRead(w);
    ParseSplits(s, i, end, i + |w.Head()|);
    BodyStands(w, s, i + |w.Head()|);
  }

  /** Waiting on after a header timeout loses the byte that had already arrived: the next read sees the
      stream it should exactly when none had. */
  lemma {:induction false} HeaderTimeoutExact(arrived: Bytes)
    requires Parse(arrived, 0, Stall) == Err(HeaderTimeout)
    ensures (forall later: Bytes :: SameFrame(Parse(later, 0, Eof), Parse(arrived + later, 0, Eof))) <==> arrived == []
  {
    if arrived == [] {
      forall later: Bytes ensures arrived + later == later {
      }
    } else {
      var later: Bytes := [0, 1, 7];
      var whole := arrived + later;
      assert whole == [arrived[0], 0, 1, 7];
      assert Parse(whole, 0, Eof).Ok? && Parse(whole, 0, Eof).value.frame.payload == [];
      assert Parse(later, 0, Eof).Ok? && Parse(later, 0, Eof).value.frame.payload == [7];
      assert !SameFrame(Parse(later, 0, Eof), Parse(whole, 0, Eof));
    }
  }

  predicate SameFrame(a: Result<Parsed, WsError>, b: Result<Parsed, WsError>) {
    match (a, b)
    case (Ok(x), Ok(y)) => x.frame == y.frame
    case (Err(_), Err(_)) => true
    case _ => false
  }
}
