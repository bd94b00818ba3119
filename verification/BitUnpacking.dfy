/** Unpacking of samples that are stored as a big-endian bit stream, vw bits each. */
module BitUnpacking {
  import opened Arithmetic
  import opened Bytes

  function Pow2(n: nat): (p: nat)
    ensures p >= 1
  {
    if n == 0 then 1 else 2 * Pow2(n - 1)
  }

  lemma {:induction false} Pow2Sum(m: nat, n: nat)
    ensures Pow2(m + n) == Pow2(m) * Pow2(n)
  {
    if n > 0 {
      Pow2Sum(m, n - 1);
      assert Pow2(m) * (2 * Pow2(n - 1)) == 2 * (Pow2(m) * Pow2(n - 1));
    }
  }

  lemma Pow2Small()
    ensures Pow2(8) == 0x100 && Pow2(16) == 0x1_0000 && Pow2(32) == 0x1_0000_0000
  {
    assert Pow2(8) == 0x100;
    Pow2Sum(8, 8);
    Pow2Sum(16, 16);
  }

  // ---- numbers and bit strings, most significant bit first ----

  function Num(bits: seq<bool>): (x: nat)
    ensures x < Pow2(|bits|)
  {
    if bits == [] then 0
    else 2 * Num(bits[..|bits| - 1]) + if bits[|bits| - 1] then 1 else 0
  }

  function ToBits(x: nat, w: nat): (bits: seq<bool>)
    ensures |bits| == w
  {
    if w == 0 then [] else ToBits(x / 2, w - 1) + [x % 2 == 1]
  }

  lemma {:induction false} NumOfToBits(x: nat, w: nat)
    requires x < Pow2(w)
    ensures Num(ToBits(x, w)) == x
  {
    if w > 0 {
      NumOfToBits(x / 2, w - 1);
      assert ToBits(x, w)[..w - 1] == ToBits(x / 2, w - 1);
    }
  }

  lemma {:induction false} ToBitsOfNum(bits: seq<bool>)
    ensures ToBits(Num(bits), |bits|) == bits
  {
    if bits != [] {
      ToBitsOfNum(bits[..|bits| - 1]);
    }
  }

  lemma DoubleProduct(x: int, p: int)
    ensures 2 * (x * p) == x * (2 * p)
  {
  }

  lemma {:induction false} NumConcat(a: seq<bool>, b: seq<bool>)
    ensures Num(a + b) == Num(a) * Pow2(|b|) + Num(b)
  {
    if b == [] {
      assert a + b == a;
    } else {
      var n := |b| - 1;
      NumConcat(a, b[..n]);
      assert Pow2(n + 1) == 2 * Pow2(n);
      assert Num(b) == 2 * Num(b[..n]) + if b[n] then 1 else 0;
      assert (a + b)[..|a + b| - 1] == a + b[..n];
      DoubleProduct(Num(a), Pow2(n));
      assert Num(a + b) == 2 * Num(a + b[..n]) + if b[n] then 1 else 0;
      hide Num, Pow2;
    }
  }

  // ---- the bit stream of a buffer ----

  function Bits(raw: seq<Byte>): (bits: seq<bool>)
    ensures |bits| == 8 * |raw|
  {
    if raw == [] then [] else ToBits(raw[0], 8) + Bits(raw[1..])
  }

  lemma {:induction false} BitsOfByte(raw: seq<Byte>, c: nat)
    requires c < |raw|
    ensures Bits(raw)[8 * c..8 * c + 8] == ToBits(raw[c], 8)
  {
    if c > 0 {
      BitsOfByte(raw[1..], c - 1);
      assert Bits(raw)[8 * c..8 * c + 8] == Bits(raw[1..])[8 * (c - 1)..8 * (c - 1) + 8];
    }
  }

  /** The first count samples of a bit stream. */
  function Samples(bits: seq<bool>, vw: nat, count: nat): (r: seq<nat>)
    requires count * vw <= |bits|
    ensures |r| == count
    decreases count
  {
    if count == 0 then []
    else
      MulStep(count, vw);
      [Num(bits[..vw])] + Samples(bits[vw..], vw, count - 1)
  }

  // ---- packing, as the independent description of the format ----

  function PackBits(samples: seq<nat>, vw: nat): (bits: seq<bool>)
    ensures |bits| == |samples| * vw
  {
    if samples == [] then []
    else
      MulStep(|samples|, vw);
      ToBits(samples[0], vw) + PackBits(samples[1..], vw)
  }

  function ToBytes(bits: seq<bool>): (raw: seq<Byte>)
    requires |bits| % 8 == 0
    ensures |raw| == |bits| / 8
  {
    if bits == [] then []
    else
      Pow2Small();
      [Num(bits[..8])] + ToBytes(bits[8..])
  }

  lemma {:induction false} BitsOfToBytes(bits: seq<bool>)
    requires |bits| % 8 == 0
    ensures Bits(ToBytes(bits)) == bits
  {
    if bits != [] {
      ToBitsOfNum(bits[..8]);
      BitsOfToBytes(bits[8..]);
      assert bits == bits[..8] + bits[8..];
    }
  }

  /** The number of bytes that hold count samples. */
  function PackedLength(count: nat, vw: nat): nat {
    (count * vw + 7) / 8
  }

  function Zeros(n: nat): (bits: seq<bool>)
    ensures |bits| == n
  {
    seq(n, _ => false)
  }

  /** Pack samples back to back and pad the last byte with zero bits. */
  function Pack(samples: seq<nat>, vw: nat): (raw: seq<Byte>)
    ensures |raw| == PackedLength(|samples|, vw)
  {
    var bits := PackBits(samples, vw);
    ToBytes(bits + Zeros(8 * PackedLength(|samples|, vw) - |bits|))
  }

  lemma SamplesCons(first: seq<bool>, more: seq<bool>, vw: nat, count: nat)
    requires |first| == vw && count * vw <= |more|
    ensures (count + 1) * vw <= |first + more|
    ensures Samples(first + more, vw, count + 1) == [Num(first)] + Samples(more, vw, count)
  {
    MulStep(count + 1, vw);
    assert (first + more)[..vw] == first && (first + more)[vw..] == more;
  }

  lemma PackBitsCons(samples: seq<nat>, vw: nat)
    requires samples != []
    ensures PackBits(samples, vw) == ToBits(samples[0], vw) + PackBits(samples[1..], vw)
  {
  }

  lemma {:induction false} SamplesOfPackBits(samples: seq<nat>, vw: nat, rest: seq<bool>)
    requires forall i :: 0 <= i < |samples| ==> samples[i] < Pow2(vw)
    ensures Samples(PackBits(samples, vw) + rest, vw, |samples|) == samples
  {
    if samples != [] {
      hide Samples, PackBits, ToBits, Num, Pow2;
      var first, tail := ToBits(samples[0], vw), PackBits(samples[1..], vw);
      PackBitsCons(samples, vw);
      NumOfToBits(samples[0], vw);
      SamplesOfPackBits(samples[1..], vw, rest);
      assert first + tail + rest == first + (tail + rest);
      SamplesCons(first, tail + rest, vw, |samples| - 1);
    }
  }

  lemma {:induction false} PackBitsOfSamples(bits: seq<bool>, vw: nat, count: nat)
    requires count * vw <= |bits|
    ensures PackBits(Samples(bits, vw, count), vw) == bits[..count * vw]
  {
    if count > 0 {
      MulStep(count, vw);
      ToBitsOfNum(bits[..vw]);
      PackBitsOfSamples(bits[vw..], vw, count - 1);
      assert Samples(bits, vw, count)[1..] == Samples(bits[vw..], vw, count - 1);
      assert bits[..count * vw] == bits[..vw] + bits[vw..][..(count - 1) * vw];
    }
  }

  lemma PackedFits(n: nat)
    ensures n <= 8 * ((n + 7) / 8)
  {
  }

  /** The bits of a packed buffer are those of the samples, and some padding. */
  lemma BitsOfPack(samples: seq<nat>, vw: nat) returns (pad: seq<bool>)
    ensures Bits(Pack(samples, vw)) == PackBits(samples, vw) + pad
  {
    hide Bits, PackBits, ToBytes, Zeros;
    var bits := PackBits(samples, vw);
    PackedFits(|bits|);
    pad := Zeros(8 * PackedLength(|samples|, vw) - |bits|);
    BitsOfToBytes(bits + pad);
  }

  /** Unpacking inverts packing, for every sample width and every number of samples. */
  lemma UnpackInvertsPack(samples: seq<nat>, vw: nat)
    requires forall i :: 0 <= i < |samples| ==> samples[i] < Pow2(vw)
    ensures |samples| * vw <= 8 * |Pack(samples, vw)|
    ensures Samples(Bits(Pack(samples, vw)), vw, |samples|) == samples
  {
    hide *;
    var pad := BitsOfPack(samples, vw);
    SamplesOfPackBits(samples, vw, pad);
  }

  lemma {:induction false} ToBytesOfBits(raw: seq<Byte>)
    ensures ToBytes(Bits(raw)) == raw
  {
    if raw != [] {
      Pow2Small();
      NumOfToBits(raw[0], 8);
      assert Bits(raw)[..8] == ToBits(raw[0], 8) && Bits(raw)[8..] == Bits(raw[1..]);
      ToBytesOfBits(raw[1..]);
    }
  }

  /** Packing inverts unpacking: no bit of a buffer that holds whole samples only is lost. */
  lemma PackInvertsUnpack(raw: seq<Byte>, vw: nat, count: nat)
    requires count * vw == 8 * |raw|
    ensures Pack(Samples(Bits(raw), vw, count), vw) == raw
  {
    PackBitsOfSamples(Bits(raw), vw, count);
    ToBytesOfBits(raw);
    var bits := PackBits(Samples(Bits(raw), vw, count), vw);
    assert bits == Bits(raw);
    assert bits + Zeros(0) == bits;
  }

  // ---- the two converters ----

  /** The top eight bits of each of the first count samples. */
  function TopBytes(bits: seq<bool>, vw: nat, count: nat): (r: seq<nat>)
    requires count * vw <= |bits| && vw >= 8
    ensures |r| == count
    decreases count
  {
    if count == 0 then []
    else
      MulStep(count, vw);
      [Num(bits[..8])] + TopBytes(bits[vw..], vw, count - 1)
  }

  /** Dropping low bits: the 8-bit samples are the full ones shifted right by vw - 8. */
  lemma {:induction false} TopBytesAreShifted(bits: seq<bool>, vw: nat, count: nat)
    requires count * vw <= |bits| && vw >= 8
    ensures forall i :: 0 <= i < count ==> TopBytes(bits, vw, count)[i] == Samples(bits, vw, count)[i] / Pow2(vw - 8)
  {
    if count > 0 {
      MulStep(count, vw);
      NumPrefix(bits[..vw], 8);
      assert bits[..vw][..8] == bits[..8];
      TopBytesAreShifted(bits[vw..], vw, count - 1);
    }
  }

  lemma NumPrefix(bits: seq<bool>, m: nat)
    requires m <= |bits|
    ensures Num(bits[..m]) == Num(bits) / Pow2(|bits| - m)
    ensures Num(bits[m..]) == Num(bits) % Pow2(|bits| - m)
  {
    assert bits == bits[..m] + bits[m..];
    NumConcat(bits[..m], bits[m..]);
    DivModUnique(Num(bits), Pow2(|bits| - m), Num(bits[..m]), Num(bits[m..]));
  }

  /** x >> n and x & ((1 << n) - 1). */
  function ShiftRight(x: nat, n: nat): nat {
    QuotientNonNegative(x, Pow2(n));
    x / Pow2(n)
  }

  function Mask(x: nat, n: nat): nat { x % Pow2(n) }

  lemma QuotientNonNegative(x: nat, p: nat)
    requires p > 0
    ensures x / p >= 0
  {
    if x / p < 0 {
      MulDistributes(0, x / p, p);
      MulAtLeast(-(x / p), p);
    }
  }

  /** The number written by bits lo to hi of the stream. */
  function NumAt(bits: seq<bool>, lo: nat, hi: nat): nat
    requires lo <= hi <= |bits|
  {
    Num(bits[lo..hi])
  }

  /** The shift register: its low bitsIn bits are the unread bits of the bytes consumed so far.
      Older bits may have been shifted out at the top. */
  ghost predicate Window(bits: seq<bool>, c: nat, buffer: UInt32, bitsIn: nat) {
    && bitsIn <= 8 * c <= |bits| && bitsIn <= 32
    && Mask(buffer, bitsIn) == NumAt(bits, 8 * c - bitsIn, 8 * c)
  }

  /** Shifting in one byte: (buffer << 8) | byte. The low byte is zero after the shift, so OR adds. */
  function ShiftIn(buffer: UInt32, byte: Byte): (r: UInt32)
  {
    buffer * 0x100 % TWO_32 + byte
  }

  lemma ShiftInKeepsWindow(raw: seq<Byte>, c: nat, buffer: UInt32, bitsIn: nat)
    requires c < |raw| && bitsIn <= 24 && Window(Bits(raw), c, buffer, bitsIn)
    ensures Window(Bits(raw), c + 1, ShiftIn(buffer, raw[c]), bitsIn + 8)
  {
    hide NumAt, ShiftIn, Mask, Bits;
    AppendByteBits(raw, c, 8 * c - bitsIn);
    ShiftedRemainder(buffer, raw[c], bitsIn);
    assert 8 * (c + 1) - (bitsIn + 8) == 8 * c - bitsIn;
  }

  lemma NumAtConcat(bits: seq<bool>, lo: nat, mid: nat, hi: nat)
    requires lo <= mid <= hi <= |bits|
    ensures NumAt(bits, lo, hi) == NumAt(bits, lo, mid) * Pow2(hi - mid) + NumAt(bits, mid, hi)
  {
    assert bits[lo..hi] == bits[lo..mid] + bits[mid..hi];
    NumConcat(bits[lo..mid], bits[mid..hi]);
    hide Num, Pow2;
  }

  lemma NumAtByte(raw: seq<Byte>, c: nat)
    requires c < |raw|
    ensures NumAt(Bits(raw), 8 * c, 8 * c + 8) == raw[c]
  {
    BitsOfByte(raw, c);
    Pow2Small();
    NumOfToBits(raw[c], 8);
    hide Num, Bits, ToBits, Pow2;
  }

  lemma AppendByteBits(raw: seq<Byte>, c: nat, lo: nat)
    requires c < |raw| && lo <= 8 * c
    ensures NumAt(Bits(raw), lo, 8 * c + 8) == NumAt(Bits(raw), lo, 8 * c) * 0x100 + raw[c]
  {
    var bits, mid := Bits(raw), 8 * c;
    NumAtByte(raw, c);
    Pow2Small();
    hide NumAt, Bits, Pow2;
    NumAtConcat(bits, lo, mid, mid + 8);
    assert Pow2(mid + 8 - mid) == 0x100;
    assert NumAt(bits, lo, mid + 8) == NumAt(bits, lo, mid) * 0x100 + NumAt(bits, mid, mid + 8);
  }

  lemma ShiftInIsMod(buffer: UInt32, byte: Byte)
    ensures ShiftIn(buffer, byte) == (buffer * 0x100 + byte) % TWO_32
  {
  }

  /** The shift drops the top byte, which the window does not need. */
  lemma ShiftedRemainder(buffer: UInt32, byte: Byte, bitsIn: nat)
    requires bitsIn <= 24
    ensures Mask(ShiftIn(buffer, byte), bitsIn + 8) == Mask(buffer, bitsIn) * 0x100 + byte
  {
    var p, q := Pow2(bitsIn), Pow2(24 - bitsIn);
    Pow2Small();
    Pow2Sum(bitsIn, 8);
    Pow2Sum(24, 8);
    Pow2Sum(24 - bitsIn, bitsIn);
    AssociateByte(q, p);
    ShiftInIsMod(buffer, byte);
    assert q * (p * 0x100) == TWO_32;
    NestedRemainder(buffer * 0x100 + byte, q, p * 0x100);
    AppendByte(buffer, p, byte);
    hide Pow2, ShiftIn;
  }

  lemma AssociateByte(q: int, p: int)
    ensures q * (p * 0x100) == q * p * 0x100
  {
  }

  lemma AppendByte(x: nat, p: nat, byte: Byte)
    requires p > 0
    ensures (x * 0x100 + byte) % (p * 0x100) == x % p * 0x100 + byte
  {
    AssociateByte(x / p, p);
    DivModUnique(x * 0x100 + byte, p * 0x100, x / p, x % p * 0x100 + byte);
  }

  lemma ProductOfSum(h: int, q: int, d: int, p: int)
    ensures (h * q + d) * p == h * (p * q) + d * p
  {
  }

  /** Reading vw bits out of the window leaves the rest of it in place. */
  lemma ReadOut(bits: seq<bool>, c: nat, buffer: UInt32, bitsIn: nat, vw: nat)
    requires vw <= bitsIn && Window(bits, c, buffer, bitsIn)
    ensures var pos := 8 * c - bitsIn; Mask(ShiftRight(buffer, bitsIn - vw), vw) == NumAt(bits, pos, pos + vw)
    ensures Window(bits, c, buffer, bitsIn - vw)
  {
    var w, a, b := bits[8 * c - bitsIn..8 * c], Pow2(vw), Pow2(bitsIn - vw);
    NumPrefix(w, vw);
    assert w[..vw] == bits[8 * c - bitsIn..8 * c - bitsIn + vw];
    assert w[vw..] == bits[8 * c - (bitsIn - vw)..8 * c];
    Pow2Sum(vw, bitsIn - vw);
    NestedRemainder(buffer, a, b);
    hide Pow2, Num;
  }

  lemma NestedRemainder(x: nat, a: nat, b: nat)
    requires a > 0 && b > 0
    ensures a * b > 0 && x % (a * b) / b == x / b % a && x % (a * b) % b == x % b
  {
    var q, r := x / b / a, x / b % a;
    assert x == (q * a + r) * b + x % b;
    assert (q * a + r) * b == q * (a * b) + r * b by { ProductOfSum(q, a, r, b); }
    assert r * b + x % b < a * b by { MulDistributes(a, r, b); MulAtLeast(a - r, b); }
    DivModUnique(x, a * b, q, r * b + x % b);
    DivModUnique(r * b + x % b, b, r, x % b);
  }

  /** One turn of the outer loop: read bytes until the window holds a sample. */
  method Refill(raw: seq<Byte>, consumed: nat, buffer: UInt32, bitsIn: nat, vw: nat)
    returns (consumed': nat, buffer': UInt32, bitsIn': nat)
    requires 1 <= vw <= 16 && bitsIn < 8 && Window(Bits(raw), consumed, buffer, bitsIn)
    requires 8 * consumed - bitsIn + vw <= 8 * |raw|
    ensures vw <= bitsIn' < vw + 8 && 8 * consumed' - bitsIn' == 8 * consumed - bitsIn
    ensures Window(Bits(raw), consumed', buffer', bitsIn')
  {
    hide Bits, ShiftIn, Mask, NumAt;
    consumed', buffer', bitsIn' := consumed, buffer, bitsIn;
    while bitsIn' < vw
      invariant bitsIn' < vw + 8 && 8 * consumed' - bitsIn' == 8 * consumed - bitsIn
      invariant Window(Bits(raw), consumed', buffer', bitsIn')
    {
      ShiftInKeepsWindow(raw, consumed', buffer', bitsIn');
      buffer' := ShiftIn(buffer', raw[consumed']);
      consumed' := consumed' + 1;
      bitsIn' := bitsIn' + 8;
    }
  }

  /** convert_packed_to_16bit. The result is how far the input pointer moved. */
  method ConvertPackedTo16Bit(raw: seq<Byte>, frame: array<Word>, vw: nat, len: nat) returns (consumed: nat)
    requires 1 <= vw <= 16 && len <= frame.Length && len * vw <= 8 * |raw|
    modifies frame
    ensures frame[..len] == Samples(Bits(raw), vw, len) && frame[len..] == old(frame[len..])
    ensures consumed == PackedLength(len, vw)
  {
    hide Bits, NumAt, Samples, Mask, ShiftRight;
    ghost var bits := Bits(raw);
    ghost var pos: nat := 0;
    var buffer: UInt32 := 0;
    var bitsIn: nat := 0;
    consumed := 0;
    var i := 0;
    EmptyWindow(bits);
    while i < len
      invariant 0 <= i <= len && bitsIn < 8 && 8 * consumed == pos + bitsIn && pos == i * vw
      invariant (len - i) * vw <= |bits| - pos
      invariant Window(bits, consumed, buffer, bitsIn)
      invariant frame[..i] + Samples(bits[pos..], vw, len - i) == Samples(bits, vw, len)
      invariant frame[len..] == old(frame[len..])
    {
      TakeSample(bits, pos, vw, len - i);
      consumed, buffer, bitsIn := Refill(raw, consumed, buffer, bitsIn, vw);
      ReadOut(bits, consumed, buffer, bitsIn, vw);
      bitsIn := bitsIn - vw;
      SampleFits(bits, pos, vw);
      frame[i] := Mask(ShiftRight(buffer, bitsIn), vw);
      assert frame[..i + 1] == frame[..i] + [frame[i]];
      pos := pos + vw;
      i := i + 1;
      MulStep(i, vw);
    }
    NoSamples(bits[pos..], vw);
  }

  lemma EmptyWindow(bits: seq<bool>)
    ensures Window(bits, 0, 0, 0)
  {
  }

  lemma NoSamples(bits: seq<bool>, vw: nat)
    ensures Samples(bits, vw, 0) == []
  {
  }

  lemma SampleFits(bits: seq<bool>, pos: nat, vw: nat)
    requires pos + vw <= |bits| && vw <= 16
    ensures NumAt(bits, pos, pos + vw) < 0x1_0000
    ensures vw == 8 ==> NumAt(bits, pos, pos + vw) < 0x100
  {
    Pow2Small();
    Pow2Sum(vw, 16 - vw);
    hide Pow2;
    MulAtLeastLeft(Pow2(vw), Pow2(16 - vw));
  }

  lemma MulAtLeastLeft(b: int, k: int)
    requires k >= 1 && b > 0
    ensures b * k >= b
  {
  }

  lemma TakeSample(bits: seq<bool>, pos: nat, vw: nat, count: nat)
    requires count > 0 && pos <= |bits| && count * vw <= |bits| - pos
    ensures pos + vw <= |bits| && (count - 1) * vw <= |bits| - (pos + vw)
    ensures Samples(bits[pos..], vw, count)
         == [NumAt(bits, pos, pos + vw)] + Samples(bits[pos + vw..], vw, count - 1)
  {
    MulStep(count, vw);
    assert bits[pos..][..vw] == bits[pos..pos + vw] && bits[pos..][vw..] == bits[pos + vw..];
  }

  /** convert_packed_to_8bit: keeps the eight most significant bits of every sample. */
  method ConvertPackedTo8Bit(raw: seq<Byte>, frame: array<Byte>, vw: nat, len: nat) returns (consumed: nat)
    requires 8 <= vw <= 16 && len <= frame.Length && len * vw <= 8 * |raw|
    modifies frame
    ensures frame[..len] == TopBytes(Bits(raw), vw, len) && frame[len..] == old(frame[len..])
    ensures consumed == PackedLength(len, vw)
  {
    hide Bits, NumAt, TopBytes, Mask, ShiftRight;
    ghost var bits := Bits(raw);
    ghost var pos: nat := 0;
    var buffer: UInt32 := 0;
    var bitsIn: nat := 0;
    consumed := 0;
    var i := 0;
    EmptyWindow(bits);
    while i < len
      invariant 0 <= i <= len && bitsIn < 8 && 8 * consumed == pos + bitsIn && pos == i * vw
      invariant (len - i) * vw <= |bits| - pos
      invariant Window(bits, consumed, buffer, bitsIn)
      invariant frame[..i] + TopBytes(bits[pos..], vw, len - i) == TopBytes(bits, vw, len)
      invariant frame[len..] == old(frame[len..])
    {
      TakeTopByte(bits, pos, vw, len - i);
      consumed, buffer, bitsIn := Refill(raw, consumed, buffer, bitsIn, vw);
      ReadOut(bits, consumed, buffer, bitsIn, 8);
      ReadOut(bits, consumed, buffer, bitsIn, vw);
      bitsIn := bitsIn - vw;
      SampleFits(bits, pos, 8);
      frame[i] := Mask(ShiftRight(buffer, bitsIn + vw - 8), 8);
      assert frame[..i + 1] == frame[..i] + [frame[i]];
      pos := pos + vw;
      i := i + 1;
      MulStep(i, vw);
    }
    NoTopBytes(bits[pos..], vw);
  }

  lemma TakeTopByte(bits: seq<bool>, pos: nat, vw: nat, count: nat)
    requires vw >= 8 && count > 0 && pos <= |bits| && count * vw <= |bits| - pos
    ensures pos + vw <= |bits| && (count - 1) * vw <= |bits| - (pos + vw)
    ensures TopBytes(bits[pos..], vw, count)
         == [NumAt(bits, pos, pos + 8)] + TopBytes(bits[pos + vw..], vw, count - 1)
  {
    MulStep(count, vw);
    assert bits[pos..][..8] == bits[pos..pos + 8] && bits[pos..][vw..] == bits[pos + vw..];
  }

  lemma NoTopBytes(bits: seq<bool>, vw: nat)
    requires vw >= 8
    ensures TopBytes(bits, vw, 0) == []
  {
  }
}
