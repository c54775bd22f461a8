/** bits.c: bit fields of a byte buffer. */
module BitExtract {
  import opened Bytes

  lemma WordIsPow()
    ensures Pow2(64) == 0x1_0000_0000_0000_0000
  {
    PowAdd(8, 8);
    PowAdd(16, 16);
    PowAdd(32, 32);
    Pow8();
  }

  predicate InBuffer(buf: seq<byte>, start: nat, width: nat) {
    start + width <= 8 * |buf|
  }

  /** The field asked for. */
  function Slice(buf: seq<byte>, start: nat, width: nat): (s: Bits)
    requires InBuffer(buf, start, width)
    ensures |s| == width
  {
    OfBytes(buf)[start..start + width]
  }

  // ----- ubits

  /** The field as ubits finds it: when it spans nine bytes, its part in the first one is lost. */
  function Field(buf: seq<byte>, start: nat, width: nat): (s: Bits)
    requires InBuffer(buf, start, width)
    ensures |s| <= width
  {
    var s := start % 8;
    if s + width <= 64 then Slice(buf, start, width) else Slice(buf, start + 8 - s, s + width - 8)
  }

  /** Dropping what a word cannot hold before a byte is shifted in, or after, is the same. */
  lemma ShiftIn(x: nat, b: byte)
    ensures (x % 0x1_0000_0000_0000_0000 * 256) % 0x1_0000_0000_0000_0000 + b == (x * 256 + b) % 0x1_0000_0000_0000_0000
  {
    var q, r := x / 0x1_0000_0000_0000_0000, x % 0x1_0000_0000_0000_0000;
    var h, l := r / 0x100_0000_0000_0000, r % 0x100_0000_0000_0000;
    assert x == q * 0x1_0000_0000_0000_0000 + r && r == h * 0x100_0000_0000_0000 + l;
    assert r * 256 == h * 0x1_0000_0000_0000_0000 + l * 256;
    Remainder(h, l * 256);
    assert x * 256 + b == (256 * q + h) * 0x1_0000_0000_0000_0000 + (l * 256 + b);
    Remainder(256 * q + h, l * 256 + b);
  }

  lemma Remainder(q: nat, r: nat)
    requires r < 0x1_0000_0000_0000_0000
    ensures (q * 0x1_0000_0000_0000_0000 + r) % 0x1_0000_0000_0000_0000 == r
  {
  }

  lemma LastEight(s: Bits, lead: nat, width: nat, pad: nat)
    requires |s| == lead + width + pad && |s| % 8 == 0 && lead < 8 && pad < 8 && width <= 63
    ensures var low := LowBits(s, 64);
            && pad <= |low|
            && LowBits(low[..|low| - pad], width) ==
                 if lead + width <= 64 then s[lead..lead + width] else s[8..lead + width]
  {
  }

  lemma SliceOfSlice(bits: Bits, from: nat, to: nat, a: nat, b: nat)
    requires from <= to <= |bits| && a <= b <= to - from
    ensures bits[from..to][a..b] == bits[from + a..from + b]
  {
    forall i | 0 <= i < b - a
      ensures bits[from..to][a..b][i] == bits[from + a..from + b][i]
    {
      assert bits[from..to][a + i] == bits[from + a + i];
    }
  }

  lemma WordMask(s: Bits)
    ensures Num(s) % 0x1_0000_0000_0000_0000 == Num(LowBits(s, 64))
  {
    WordIsPow();
    ShiftAndMaskDivide(Num(s), 64);
    MaskBits(s, 64);
  }

  /** Word arithmetic on a gathered number is slicing of its bits. */
  lemma ShiftAndMask(s: Bits, lead: nat, width: nat, pad: nat)
    requires |s| == lead + width + pad && |s| % 8 == 0 && lead < 8 && pad < 8 && width <= 63
    ensures Low(Shr(Num(s) % 0x1_0000_0000_0000_0000, pad), width) ==
            Num(if lead + width <= 64 then s[lead..lead + width] else s[8..lead + width])
  {
    LastEight(s, lead, width, pad);
    WordMask(s);
    MaskOfShift(LowBits(s, 64), pad, width);
  }

  lemma FieldOf(bits: Bits, part: Bits, lo: nat, hi: nat, lead: nat, width: nat, start: nat)
    requires lo <= hi <= |bits| && part == bits[lo..hi] && lead < 8 && start == lo + lead && start + width <= hi
    ensures bits[start..start + width] == part[lead..lead + width]
    ensures lead + width >= 8 ==> bits[start + 8 - lead..start + width] == part[8..lead + width]
  {
    SliceOfSlice(bits, lo, hi, lead, lead + width);
    if lead + width >= 8 {
      SliceOfSlice(bits, lo, hi, 8, lead + width);
    }
  }

  lemma FieldInBytes(buf: seq<byte>, start: nat, width: nat, to: nat, pad: nat)
    requires width <= 63 && start + width + pad == 8 * to && to <= |buf| && pad < 8
    ensures var s, lead := OfBytes(buf[start / 8..to]), start % 8;
            |s| == lead + width + pad &&
            Field(buf, start, width) == if lead + width <= 64 then s[lead..lead + width] else s[8..lead + width]
  {
    var from, lead := start / 8, start % 8;
    assert start == 8 * from + lead;
    OfBytesSlice(buf, from, to);
    FieldOf(OfBytes(buf), OfBytes(buf[from..to]), 8 * from, 8 * to, lead, width, start);
  }

  lemma ShiftedAndMasked(buf: seq<byte>, start: nat, width: nat, to: nat, pad: nat)
    requires width <= 63 && start + width + pad == 8 * to && to <= |buf| && pad < 8
    ensures Low(Shr(Num(OfBytes(buf[start / 8..to])) % 0x1_0000_0000_0000_0000, pad), width) == Num(Field(buf, start, width))
  {
    FieldInBytes(buf, start, width, to, pad);
    ShiftAndMask(OfBytes(buf[start / 8..to]), start % 8, width, pad);
  }

  lemma NoBytes(buf: seq<byte>, i: nat)
    requires i <= |buf|
    ensures OfBytes(buf[i..i]) == []
  {
  }

  lemma OneMoreByte(buf: seq<byte>, from: nat, i: nat)
    requires from <= i < |buf|
    ensures (Num(OfBytes(buf[from..i])) % 0x1_0000_0000_0000_0000 * 256) % 0x1_0000_0000_0000_0000 + buf[i] == Num(OfBytes(buf[from..i + 1])) % 0x1_0000_0000_0000_0000
  {
    AppendByte(buf[from..i], buf[i]);
    assert buf[from..i] + [buf[i]] == buf[from..i + 1];
    ShiftIn(Num(OfBytes(buf[from..i])), buf[i]);
  }

  /** The bytes that hold the field, as a word. */
  /** What ubits has gathered from bytes from to i. */
  function Gathered(buf: seq<byte>, from: nat, i: nat): nat
    requires from <= i <= |buf|
  {
    Num(OfBytes(buf[from..i])) % 0x1_0000_0000_0000_0000
  }

  lemma GatherNext(buf: seq<byte>, from: nat, i: nat)
    requires from <= i < |buf|
    ensures Gathered(buf, from, i) * 256 % 0x1_0000_0000_0000_0000 + buf[i] == Gathered(buf, from, i + 1)
  {
    OneMoreByte(buf, from, i);
  }

  method Gather(buf: seq<byte>, start: nat, width: nat) returns (fld: nat, ghost to: nat)
    requires InBuffer(buf, start, width)
    ensures to == (start + width + 7) / 8 && start / 8 <= to <= |buf|
    ensures fld == Gathered(buf, start / 8, to)
  {
    fld := 0;
    var i := start / 8;
    NoBytes(buf, i);
    to := (start + width + 7) / 8;
    while i < (start + width + 7) / 8
      invariant start / 8 <= i <= to
      invariant fld == Gathered(buf, start / 8, i)
    {
      GatherNext(buf, start / 8, i);
      fld := fld * 256 % 0x1_0000_0000_0000_0000;
      fld := fld + buf[i];
      i := i + 1;
    }
  }

  /** The low width bits of x, last first. */
  function Reversed(x: nat, width: nat): (r: nat)
    ensures r < Pow2(width)
  {
    if width == 0 then 0 else AddTop(x % 2, Pow2(width - 1), Reversed(x / 2, width - 1))
  }

  function AddTop(b: nat, p: nat, r: nat): (s: nat)
    requires b <= 1 && r < p
    ensures s < 2 * p
  {
    if b == 1 then p + r else r
  }

  lemma ReverseStep(reversed: nat, fld: nat, i: nat)
    requires i > 0
    ensures reversed * Pow2(i) + Reversed(fld, i) ==
            (2 * reversed + fld % 2) * Pow2(i - 1) + Reversed(fld / 2, i - 1)
  {
    var p := Pow2(i - 1);
    Twice(reversed, p);
    assert (2 * reversed + 1) * p == 2 * reversed * p + p;
  }

  method Reverse(x: nat, width: nat) returns (reversed: nat)
    ensures reversed == Reversed(x, width)
  {
    reversed := 0;
    var fld, i := x, width;
    while i > 0
      invariant reversed * Pow2(i) + Reversed(fld, i) == Reversed(x, width)
    {
      ReverseStep(reversed, fld, i);
      reversed := reversed * 2;
      if fld % 2 == 1 {
        reversed := reversed + 1;
      }
      fld := fld / 2;
      i := i - 1;
    }
    assert reversed * Pow2(0) == reversed;
  }

  lemma Padding(end: nat)
    ensures var pad := if end % 8 == 0 then 0 else 8 - end % 8; end + pad == 8 * ((end + 7) / 8)
  {
  }

  method Ubits(buf: seq<byte>, start: nat, width: nat, le: bool) returns (fld: nat)
    requires width <= 63 && InBuffer(buf, start, width)
    ensures fld == if le then Reversed(Num(Field(buf, start, width)), width) else Num(Field(buf, start, width))
  {
    ghost var to;
    fld, to := Gather(buf, start, width);
    var end := (start + width) % 8;
    ghost var pad := if end == 0 then 0 else 8 - end;
    Padding(start + width);
    ShiftedAndMasked(buf, start, width, to, pad);
    if end != 0 {
      fld := Shr(fld, 8 - end);
    }
    fld := Low(fld, width);
    if le {
      fld := Reverse(fld, width);
    }
  }

  lemma SliceSplit(buf: seq<byte>, start: nat, a: nat, b: nat)
    requires InBuffer(buf, start, a + b)
    ensures Slice(buf, start, a + b) == Slice(buf, start, a) + Slice(buf, start + a, b)
  {
  }

  lemma RestOnly(all: Bits, top: Bits, rest: Bits)
    requires all == top + rest
    ensures Num(rest) == Num(all) <==> Num(top) == 0
  {
    TopCounts(top, rest);
  }

  /** ubits yields the number spelled by the field's bits exactly when the field lies in eight bytes, or
      the part of it in the first of nine is all zeros. */
  lemma FieldIsSlice(buf: seq<byte>, start: nat, width: nat)
    requires width <= 63 && InBuffer(buf, start, width)
    ensures var s := start % 8;
            Num(Field(buf, start, width)) == Num(Slice(buf, start, width)) <==>
            s + width <= 64 || Num(Slice(buf, start, 8 - s)) == 0
  {
    var s := start % 8;
    if s + width > 64 {
      SliceSplit(buf, start, 8 - s, s + width - 8);
      RestOnly(Slice(buf, start, width), Slice(buf, start, 8 - s), Field(buf, start, width));
    }
  }

  /** Two fields that meet, each and together within eight bytes, read as one. */
  lemma FieldsJoin(buf: seq<byte>, start: nat, a: nat, b: nat)
    requires start % 8 + a + b <= 64 && (start + a) % 8 + b <= 64 && InBuffer(buf, start, a + b)
    ensures Num(Field(buf, start, a + b)) == Num(Field(buf, start, a)) * Pow2(b) + Num(Field(buf, start + a, b))
  {
    SliceSplit(buf, start, a, b);
    NumConcat(Slice(buf, start, a), Slice(buf, start + a, b));
  }

  lemma LastOfFirst(buf: seq<byte>)
    requires buf != [] && buf[0] == 1
    ensures Slice(buf, 7, 1) == [true]
  {
    assert OfByte(1)[7];
    assert OfBytes(buf)[7] == OfByte(buf[0])[7];
  }

  /** Asked for the 58 bits from bit 7 of nine bytes, ubits drops the first, which is a one here. */
  lemma WideFieldLosesItsTop(buf: seq<byte>)
    requires |buf| == 9 && buf[0] == 1
    ensures Num(Field(buf, 7, 58)) != Num(Slice(buf, 7, 58))
  {
    FieldIsSlice(buf, 7, 58);
    LastOfFirst(buf);
    NumOne(true);
  }

  // ----- little-endian fields

  function Backward(s: Bits): (r: Bits)
    ensures |r| == |s|
  {
    if s == [] then [] else [s[|s| - 1]] + Backward(s[..|s| - 1])
  }

  lemma {:induction false} BackwardAt(s: Bits, i: nat)
    requires i < |s|
    ensures Backward(s)[i] == s[|s| - 1 - i]
  {
    if i > 0 {
      BackwardAt(s[..|s| - 1], i - 1);
    }
  }

  /** The le flag reads the same bits, last first. */
  lemma {:induction false} ReversedIsBackward(s: Bits)
    ensures Reversed(Num(s), |s|) == Num(Backward(s))
  {
    if s != [] {
      var t := s[..|s| - 1];
      ReversedIsBackward(t);
      NumCons(s[|s| - 1], Backward(t));
      assert Num(s) / 2 == Num(t) && Num(s) % 2 == Bin(s[|s| - 1]);
    }
  }

  /** Reversing a field twice gives it back. */
  lemma ReversedTwice(x: nat, width: nat)
    requires x < Pow2(width)
    ensures Reversed(Reversed(x, width), width) == x
  {
    var s := OfNat(x, width);
    NumOfNat(x, width);
    ReversedIsBackward(s);
    ReversedIsBackward(Backward(s));
    forall i | 0 <= i < width
      ensures Backward(Backward(s))[i] == s[i]
    {
      BackwardAt(Backward(s), i);
      BackwardAt(s, width - 1 - i);
    }
    assert Backward(Backward(s)) == s;
  }

  // ----- sbits

  /** A width-bit number read as two's complement. */
  function Signed(x: nat, width: nat): int
    requires width > 0
  {
    if x >= Pow2(width - 1) then x - Pow2(width) else x
  }

  /** A uint64_t handed back as an int64_t. */
  function AsInt64(x: nat): int
    requires x < 0x1_0000_0000_0000_0000
  {
    if x >= 0x8000_0000_0000_0000 then x - 0x1_0000_0000_0000_0000 else x
  }

  lemma TopBit(x: nat, width: nat)
    requires 0 < width && x < Pow2(width)
    ensures Shr(x, width - 1) % 2 == 1 <==> x >= Pow2(width - 1)
    ensures Low(x, width - 1) == if x >= Pow2(width - 1) then x - Pow2(width - 1) else x
  {
    var p := Pow2(width - 1);
    ShiftAndMaskDivide(x, width - 1);
    if x >= p {
      TwoParts(1, p, x - p);
    } else {
      TwoParts(0, p, x);
    }
  }

  lemma HalfWord(width: nat)
    requires width <= 63
    ensures 2 * Pow2(width) <= 0x1_0000_0000_0000_0000
  {
    WordIsPow();
    PowGrows(width + 1, 64);
  }

  method Sbits(buf: seq<byte>, start: nat, width: nat, le: bool) returns (r: int)
    requires 0 < width <= 63 && InBuffer(buf, start, width)
    ensures var f := Num(Field(buf, start, width)); r == Signed(if le then Reversed(f, width) else f, width)
  {
    var fld := Ubits(buf, start, width, le);
    PowGrows(|Field(buf, start, width)|, width);
    TopBit(fld, width);
    HalfWord(width);
    if Shr(fld, width - 1) % 2 == 1 {
      // or in the sign bit and every bit above it
      fld := Low(fld, width - 1) + (0x1_0000_0000_0000_0000 - Pow2(width - 1));
    }
    r := AsInt64(fld);
  }

  lemma HeadCounts(b: bool, x: nat, n: nat)
    requires x < Pow2(n)
    ensures Signed((if b then Pow2(n) else 0) + x, n + 1) == x - if b then Pow2(n) else 0
  {
  }

  /** In two's complement the first bit counts negatively. */
  lemma SignedIs(s: Bits)
    requires s != []
    ensures Signed(Num(s), |s|) == Num(s[1..]) - if s[0] then Pow2(|s| - 1) else 0
  {
    var t := s[1..];
    assert s == [s[0]] + t;
    NumCons(s[0], t);
    HeadCounts(s[0], Num(t), |t|);
  }

  // ----- shiftleft, by less than a byte

  /** All bits moved left places towards the front, zeros entering behind. */
  function Shifted(s: Bits, left: nat): (r: Bits)
    requires left <= |s|
    ensures |r| == |s|
  {
    s[left..] + BitSeq.Zeros(left)
  }

  /** A byte shifted left with the top of the next one moved in; the shift drops what leaves the byte. */
  function ShiftByte(b: byte, next: byte, left: nat): (r: byte)
    requires left < 8
    ensures OfByte(r) == (OfByte(b) + OfByte(next))[left..left + 8]
  {
    ShiftedByteBits(b, next, left);
    Shl(b, left) % 256 + Shr(next, 8 - left)
  }

  lemma ShiftedOut(b: byte, left: nat)
    requires left < 8
    ensures Shl(b, left) % 256 == Num(OfByte(b)[left..] + BitSeq.Zeros(left))
  {
    var s := OfByte(b) + BitSeq.Zeros(left);
    ByteIsItsBits(b);
    PadBits(OfByte(b), left);
    ByteMask(Shl(b, left));
    MaskBits(s, 8);
    assert LowBits(s, 8) == OfByte(b)[left..] + BitSeq.Zeros(left);
  }

  lemma ShiftedIn(next: byte, right: nat, left: nat)
    requires left + right == 8
    ensures Shr(next, right) == Num(OfByte(next)[..left])
  {
    ByteIsItsBits(next);
    ShiftBits(OfByte(next), right);
  }

  lemma ShiftedNumber(b: byte, next: byte, left: nat)
    requires left < 8
    ensures Shl(b, left) % 256 + Shr(next, 8 - left) == Num(OfByte(b)[left..] + OfByte(next)[..left])
  {
    ShiftedIn(next, 8 - left, left);
    ShiftedOut(b, left);
    FillZeros(OfByte(b)[left..], OfByte(next)[..left]);
  }

  lemma AcrossBytes(x: Bits, y: Bits, left: nat)
    requires |x| == |y| == 8 && left < 8
    ensures x[left..] + y[..left] == (x + y)[left..left + 8]
  {
  }

  lemma ByteOfBits(s: Bits)
    requires |s| == 8
    ensures Num(s) < 256 && OfNat(Num(s), 8) == s
  {
    Pow8();
    BitsOfNum(s);
  }

  lemma ShiftedByteBits(b: byte, next: byte, left: nat)
    requires left < 8
    ensures var r := Shl(b, left) % 256 + Shr(next, 8 - left);
            r < 256 && OfNat(r, 8) == (OfByte(b) + OfByte(next))[left..left + 8]
  {
    ShiftedNumber(b, next, left);
    AcrossBytes(OfByte(b), OfByte(next), left);
    ByteOfBits((OfByte(b) + OfByte(next))[left..left + 8]);
  }

  function ShiftBytes(s: seq<byte>, left: nat): (r: seq<byte>)
    requires left < 8
    ensures |r| == |s|
  {
    if s == [] then []
    else [ShiftByte(s[0], if |s| > 1 then s[1] else 0, left)] + ShiftBytes(s[1..], left)
  }

  /** One byte: its own bits moved, and the next byte's top bits. */
  method ShiftOneByte(data: array<byte>, k: nat, size: nat, left: nat)
    requires left < 8 && k < data.Length && size == data.Length - k - 1
    modifies data
    ensures var next: byte := if size > 0 then old(data[k + 1]) else 0;
            data[..] == old(data[..])[k := ShiftByte(old(data[k]), next, left)]
  {
    var bits := if size > 0 then Shr(data[k + 1], 8 - left) else 0;
    NothingShifted(8 - left);
    ShiftedByteBits(data[k], if size > 0 then data[k + 1] else 0, left);
    data[k] := Shl(data[k], left) % 256 + bits;
  }

  lemma Replaced(done: seq<byte>, was: seq<byte>, k: nat, b: byte, rest: seq<byte>)
    requires |done| == k < |was|
    ensures (done + was[k..])[k := b] == (done + [b]) + was[k + 1..]
    ensures done + ([b] + rest) == (done + [b]) + rest
    ensures (done + was[k..])[k] == was[k] && (k + 1 < |was| ==> (done + was[k..])[k + 1] == was[k + 1])
  {
  }

  lemma ShiftOne(s: seq<byte>, k: nat, left: nat)
    requires k < |s| && left < 8
    ensures var next: byte := if k + 1 < |s| then s[k + 1] else 0;
            ShiftBytes(s[k..], left) == [ShiftByte(s[k], next, left)] + ShiftBytes(s[k + 1..], left)
  {
    assert s[k..][1..] == s[k + 1..];
  }

  /** One round: byte k, after those done, with the rest as it was. */
  method ShiftNext(data: array<byte>, k: nat, size: nat, left: nat, ghost was: seq<byte>, ghost done: seq<byte>)
    returns (ghost longer: seq<byte>)
    requires left < 8 && |done| == k < |was| == data.Length && size == data.Length - k - 1
    requires data[..] == done + was[k..]
    modifies data
    ensures |longer| == k + 1 && data[..] == longer + was[k + 1..]
    ensures longer + ShiftBytes(was[k + 1..], left) == done + ShiftBytes(was[k..], left)
  {
    ghost var b := ShiftByte(was[k], if size > 0 then was[k + 1] else 0, left);
    ShiftOne(was, k, left);
    Replaced(done, was, k, b, ShiftBytes(was[k + 1..], left));
    assert data[k] == data[..][k] && (size > 0 ==> data[k + 1] == data[..][k + 1]);
    ShiftOneByte(data, k, size, left);
    longer := done + [b];
  }

  method ShiftLeft(data: array<byte>, left: nat)
    requires left < 8
    modifies data
    ensures data[..] == ShiftBytes(old(data[..]), left)
  {
    var k, size := 0, data.Length;
    ghost var was, done := data[..], [];
    assert was[0..] == was && [] + ShiftBytes(was, left) == ShiftBytes(was, left);
    while size > 0
      modifies data
      invariant 0 <= k <= data.Length && size == data.Length - k
      invariant |done| == k && data[..] == done + was[k..]
      invariant done + ShiftBytes(was[k..], left) == ShiftBytes(was, left)
    {
      size := size - 1;
      done := ShiftNext(data, k, size, left, was, done);
      k := k + 1;
    }
    assert was[k..] == [];
  }

  lemma NothingShifted(n: nat)
    ensures Shr(0, n) == 0
  {
  }

  lemma SplitByte(x: Bits, y: Bits, left: nat)
    requires |x| == 8 && |y| >= 8 && left < 8
    ensures Shifted(x + y, left) == (x + y[..8])[left..left + 8] + Shifted(y, left)
  {
  }

  lemma LastByte(x: Bits, z: Bits, left: nat)
    requires |x| == 8 && left < 8 && z == BitSeq.Zeros(8)
    ensures Shifted(x, left) == (x + z)[left..left + 8]
  {
  }

  lemma ZeroByte()
    ensures OfByte(0) == BitSeq.Zeros(8)
  {
    ZeroBits(8);
  }

  lemma {:induction false} ZeroBits(n: nat)
    ensures OfNat(0, n) == BitSeq.Zeros(n)
  {
    if n > 0 {
      ZeroBits(n - 1);
    }
  }

  /** shiftleft moves the buffer's bit string. */
  lemma {:induction false} ShiftMovesBits(s: seq<byte>, left: nat)
    requires left < 8 && s != []
    ensures OfBytes(ShiftBytes(s, left)) == Shifted(OfBytes(s), left)
  {
    var t := s[1..];
    if t == [] {
      ZeroByte();
      LastByte(OfByte(s[0]), OfByte(0), left);
      assert s == [s[0]] && ShiftBytes(s, left) == [ShiftByte(s[0], 0, left)];
      OfBytesOne(s[0]);
      OfBytesOne(ShiftByte(s[0], 0, left));
    } else {
      ShiftMovesBits(t, left);
      var first := ShiftByte(s[0], s[1], left);
      assert ShiftBytes(s, left)[1..] == ShiftBytes(t, left);
      assert OfBytes(t)[..8] == OfByte(t[0]);
      SplitByte(OfByte(s[0]), OfBytes(t), left);
    }
  }

  lemma NumPadded(s: Bits, left: nat) returns (x: nat)
    requires left <= |s|
    ensures x == Num(s) * Pow2(left) && Low(x, |s|) == Num(Shifted(s, left))
  {
    var z := BitSeq.Zeros(left);
    x := Num(s + z);
    NumOfZeros(z);
    NumConcat(s, z);
    MaskBits(s + z, |s|);
    assert LowBits(s + z, |s|) == Shifted(s, left);
  }

  lemma NumShifted(s: Bits, left: nat)
    requires left <= |s|
    ensures Num(Shifted(s, left)) == Num(s) * Pow2(left) % Pow2(|s|)
  {
    var x := NumPadded(s, left);
    ShiftAndMaskDivide(x, |s|);
  }

  /** It multiplies the number the buffer spells by a power of two, modulo the buffer's size. */
  lemma ShiftMultiplies(s: seq<byte>, left: nat)
    requires left < 8 && s != []
    ensures Num(OfBytes(ShiftBytes(s, left))) == Num(OfBytes(s)) * Pow2(left) % Pow2(8 * |s|)
  {
    ShiftMovesBits(s, left);
    NumShifted(OfBytes(s), left);
  }
}
