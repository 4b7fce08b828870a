/** Frames byte by byte and bit by bit, as sections 5.2 and 5.3 of RFC 6455 lay them out: what stands on the
    wire when a frame is sent, and what a reader makes of what stands there. */
module WireBytes {
  import opened Frames
  import opened Wrappers

  // ----- bits -----

  function Weight(k: nat): nat
    requires k < 8
  {
    [1, 2, 4, 8, 16, 32, 64, 128][k]
  }

  function Bit(b: nat, k: nat): nat
    requires k < 8
  {
    b / Weight(k) % 2
  }

  lemma {:induction false} HalfBit(b: nat, k: nat)
    requires 0 < k < 8
    ensures Bit(b, k) == Bit(b / 2, k - 1)
  {
    assert Weight(k) == 2 * Weight(k - 1);
  }

  lemma {:induction false} XorBits(a: nat, m: nat, k: nat)
    requires k < 8
    ensures Bit(Xor(a, m), k) == (Bit(a, k) + Bit(m, k)) % 2
  {
    XorHalves(a, m);
    hide Xor;
    if k > 0 {
      HalfBit(a, k);
      HalfBit(m, k);
      HalfBit(Xor(a, m), k);
      XorBits(a / 2, m / 2, k - 1);
      hide Bit;
    }
  }

  lemma {:induction false} XorHalves(a: nat, m: nat)
    ensures Xor(a, m) % 2 == (a % 2 + m % 2) % 2 && Xor(a, m) / 2 == Xor(a / 2, m / 2)
  {
  }

  /** Each bit of `to` is the exclusive or of that bit of `from` and of the key's byte for its place. */
  ghost predicate Scrambled(to: Bytes, from: Bytes, key: Bytes) {
    && |to| == |from| && |key| == 4
    && forall i, k: nat | 0 <= i < |from| && k < 8 :: Bit(to[i], k) == (Bit(from[i], k) + Bit(key[i % 4], k)) % 2
  }

  lemma {:induction false} MaskedScrambles(payload: Bytes, mask: MaskKey)
    ensures Scrambled(Masked(payload, mask), payload, mask)
  {
    hide Bit, Xor;
    forall i, k: nat | 0 <= i < |payload| && k < 8
      ensures Bit(Masked(payload, mask)[i], k) == (Bit(payload[i], k) + Bit(mask[i % 4], k)) % 2
    {
      XorBits(payload[i], mask[i % 4], k);
    }
  }

  // ----- lengths -----

  function HeadSize(code: nat): nat {
    if code == 126 then 4 else if code == 127 then 10 else 2
  }

  function Quad(s: Bytes, i: nat): nat
    requires i + 4 <= |s|
  {
    0x100_0000 * (s[i] as int) + 0x1_0000 * (s[i + 1] as int) + 256 * (s[i + 2] as int) + s[i + 3]
  }

  /** The payload length that a frame's head at position i gives. */
  function LengthIn(s: Bytes, i: nat): nat
    requires i + 2 <= |s| && i + HeadSize(s[i + 1] % 128) <= |s|
  {
    var code := s[i + 1] % 128;
    if code == 126 then 256 * (s[i + 2] as int) + s[i + 3]
    else if code == 127 then 0x1_0000_0000 * Quad(s, i + 2) + Quad(s, i + 6)
    else code
  }

  lemma {:induction false} UnpackLast(s: Bytes, i: nat, j: nat)
    requires i < j <= |s|
    ensures Unpack(s[i..j]) == 256 * Unpack(s[i..j - 1]) + s[j - 1]
  {
    assert s[i..j][..j - i - 1] == s[i..j - 1];
  }

  lemma {:induction false} UnpackNone(s: Bytes, i: nat)
    requires i <= |s|
    ensures Unpack(s[i..i]) == 0
  {
  }

  lemma {:induction false} UnpackTwo(s: Bytes, i: nat)
    requires i + 2 <= |s|
    ensures Unpack(s[i..i + 2]) == 256 * (s[i] as int) + s[i + 1]
  {
    hide Unpack;
    UnpackNone(s, i);
    UnpackLast(s, i, i + 1);
    UnpackLast(s, i, i + 2);
  }

  lemma {:induction false} UnpackEight(s: Bytes, i: nat)
    requires i + 8 <= |s|
    ensures Unpack(s[i..i + 8]) == 0x1_0000_0000 * Quad(s, i) + Quad(s, i + 4)
  {
    hide Unpack;
    UnpackTwo(s, i);
    UnpackLast(s, i, i + 3);
    UnpackLast(s, i, i + 4);
    UnpackLast(s, i, i + 5);
    UnpackLast(s, i, i + 6);
    UnpackLast(s, i, i + 7);
    UnpackLast(s, i, i + 8);
  }

  lemma {:induction false} LengthInIsLengthAt(s: Bytes, i: nat)
    requires i + 2 <= |s| && i + HeadSize(s[i + 1] % 128) <= |s|
    ensures ExtendedWidth(s[i + 1] % 0x80) + 2 == HeadSize(s[i + 1] % 128)
    ensures LengthIn(s, i) == LengthAt(s, i + 2, s[i + 1] % 0x80)
  {
    hide Unpack;
    if s[i + 1] % 128 == 126 {
      UnpackTwo(s, i + 2);
    } else if s[i + 1] % 128 == 127 {
      UnpackEight(s, i + 2);
    }
  }

  // ----- reading -----

  function KeySize(s: Bytes, i: nat): nat
    requires i + 2 <= |s|
  {
    if s[i + 1] >= 128 then 4 else 0
  }

  /** From position i on a whole frame of at most 16 MiB stands in s; it ends at `stop`. */
  ghost predicate Whole(s: Bytes, i: nat, stop: nat) {
    && i + 2 <= |s| && i + HeadSize(s[i + 1] % 128) <= |s|
    && LengthIn(s, i) <= 0x100_0000
    && stop == i + HeadSize(s[i + 1] % 128) + KeySize(s, i) + LengthIn(s, i) <= |s|
  }

  /** What that frame is, read off its bytes. */
  ghost predicate ReadsAs(s: Bytes, i: nat, stop: nat, f: Frame)
    requires Whole(s, i, stop)
  {
    var start := stop - LengthIn(s, i);
    && (f.fin <==> s[i] >= 128) && f.opcode == s[i] % 16
    && if s[i + 1] < 128 then f.payload == s[start..stop]
       else Scrambled(f.payload, s[start..stop], s[start - 4..start])
  }

  /** A frame is read exactly where one stands whole, and is what its bytes say. */
  lemma {:induction false} ParseExact(s: Bytes, i: nat, end: End)
    requires i <= |s|
    ensures Parse(s, i, end).Ok? <==> exists stop :: Whole(s, i, stop)
    ensures Parse(s, i, end).Ok? ==>
              var p := Parse(s, i, end).value;
              Whole(s, i, p.stop) && ReadsAs(s, i, p.stop, p.frame)
    ensures Parse(s, i, end) == Err(HeaderTimeout) <==> |s| < i + 2 && end == Stall
  {
    hide LengthIn, LengthAt, Masked, Scrambled;
    if i + 2 <= |s| && i + HeadSize(s[i + 1] % 128) <= |s| {
      LengthInIsLengthAt(s, i);
      var at, n := i + HeadSize(s[i + 1] % 128), LengthIn(s, i);
      if n <= 0x100_0000 && at + KeySize(s, i) + n <= |s| {
        assert Whole(s, i, at + KeySize(s, i) + n);
        if s[i + 1] >= 128 {
          UnmaskedBytes(s, at, n);
        }
      }
    }
  }

  lemma {:induction false} UnmaskedBytes(s: Bytes, at: nat, n: nat)
    requires at + 4 + n <= |s|
    ensures Scrambled(Masked(s[at + 4..at + 4 + n], s[at..at + 4]), s[at + 4..at + 4 + n], s[at..at + 4])
  {
    MaskedScrambles(s[at + 4..at + 4 + n], s[at..at + 4]);
  }

  // ----- sending -----

  /** The bytes of a client's frame: final, masked under this key, its length in the shortest form. */
  ghost predicate LaidOut(s: Bytes, opcode: byte, key: Bytes, payload: Bytes) {
    && |s| >= 2 && |key| == 4
    && s[0] == 128 + opcode % 16 && s[1] >= 128
    && s[1] % 128 == (if |payload| < 126 then |payload| else if |payload| < 65536 then 126 else 127)
    && |s| == HeadSize(s[1] % 128) + 4 + |payload|
    && LengthIn(s, 0) == |payload|
    && s[HeadSize(s[1] % 128)..HeadSize(s[1] % 128) + 4] == key
    && Scrambled(s[HeadSize(s[1] % 128) + 4..], payload, key)
  }

  lemma {:induction false} EncodedIsLaidOut(opcode: byte, mask: MaskKey, payload: Bytes)
    requires opcode < 16 && |payload| < 0x1_0000_0000_0000_0000
    ensures var w := WireFrame(true, opcode, Some(mask), MinimalForm(|payload|), payload);
            w.Valid() && LaidOut(w.Encode(), opcode, mask, payload)
  {
    hide LengthIn, LengthAt, BigEndian, Masked, Scrambled, Unpack;
    var w := WireFrame(true, opcode, Some(mask), MinimalForm(|payload|), payload);
    var s, h := w.Encode(), |w.Head()|;
    Slices(w.Head(), w.Key(), w.Body());
    HeadStands(w, s, 0);
    LengthInIsLengthAt(s, 0);
    MaskedScrambles(payload, mask);
    assert s[h + 4..] == w.Body();
  }

  /** Any legal frame as it stands on the wire: its flag, opcode and mask bit, its length in the form chosen, its
      key if there is one, and its payload. */
  lemma {:induction false} EncodedExact(w: WireFrame)
    requires w.Valid()
    ensures var s := w.Encode();
            && s[0] == (if w.fin then 128 else 0) + w.opcode && (s[1] >= 128 <==> w.mask.Some?)
            && HeadSize(s[1] % 128) == (match w.form case Short => 2 case Medium => 4 case Long => 10)
            && LengthIn(s, 0) == |w.payload| && |s| == HeadSize(s[1] % 128) + KeySize(s, 0) + |w.payload|
            && var start := |s| - |w.payload|;
               if w.mask.None? then s[start..] == w.payload
               else s[start - 4..start] == w.mask.value && Scrambled(s[start..], w.payload, w.mask.value)
  {
    hide LengthIn, LengthAt, BigEndian, Masked, Scrambled, Unpack;
    var s, h := w.Encode(), |w.Head()|;
    Slices(w.Head(), w.Key(), w.Body());
    HeadStands(w, s, 0);
    LengthInIsLengthAt(s, 0);
    if w.mask.Some? {
      MaskedScrambles(w.payload, w.mask.value);
    }
    assert s[h + |w.Key()|..] == w.Body();
  }
}
