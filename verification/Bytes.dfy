/** Byte strings read as strings of bits, and strings of bits as numbers. */
module Bytes {
  import BitSeq

  type byte = x: int | 0 <= x < 256

  type Bits = BitSeq.Bits

  // ----- arithmetic

  function Pow2(n: nat): (p: nat)
    ensures p > 0
  {
    if n == 0 then 1 else 2 * Pow2(n - 1)
  }

  lemma Twice(x: int, p: int)
    ensures 2 * (x * p) == x * (2 * p) == 2 * x * p
  {
  }

  lemma Grows(k: int, p: nat)
    requires k >= 1
    ensures k * p >= p
  {
    assert (k - 1) * p >= 0;
    assert k * p == (k - 1) * p + p;
  }

  lemma GrowsWith(a: int, b: int, c: nat)
    requires a >= b
    ensures a * c >= b * c
  {
    assert a * c - b * c == (a - b) * c;
  }

  lemma {:induction false} PowAdd(m: nat, n: nat)
    ensures Pow2(m + n) == Pow2(m) * Pow2(n)
  {
    if m > 0 {
      PowAdd(m - 1, n);
      Twice(Pow2(m - 1), Pow2(n));
    }
  }

  lemma PowGrows(m: nat, n: nat)
    requires m <= n
    ensures Pow2(m) <= Pow2(n)
  {
    PowAdd(n - m, m);
    Grows(Pow2(n - m), Pow2(m));
  }

  lemma Pow8()
    ensures Pow2(8) == 256
  {
    assert Pow2(4) == 16;
  }

  /** Dividing off the low part of a two-part number, and keeping only it. */
  lemma TwoParts(hi: nat, p: nat, lo: nat)
    requires lo < p
    ensures (hi * p + lo) / p == hi && (hi * p + lo) % p == lo
  {
    var x := hi * p + lo;
    var q, r := x / p, x % p;
    assert x == q * p + r;
    assert (hi + 1) * p == hi * p + p && (q + 1) * p == q * p + p;
    if q > hi {
      GrowsWith(q, hi + 1, p);
    } else if q < hi {
      GrowsWith(hi, q + 1, p);
    }
  }

  // ----- bits

  function Bin(b: bool): (n: nat)
    ensures n <= 1
  {
    if b then 1 else 0
  }

  /** The low n bits of x. */
  function OfNat(x: nat, n: nat): (s: Bits)
    ensures |s| == n
  {
    if n == 0 then [] else OfNat(x / 2, n - 1) + [x % 2 == 1]
  }

  function OfByte(b: byte): (s: Bits)
    ensures |s| == 8
  {
    OfNat(b, 8)
  }

  function OfBytes(buf: seq<byte>): (s: Bits)
    ensures |s| == 8 * |buf|
  {
    if buf == [] then [] else OfByte(buf[0]) + OfBytes(buf[1..])
  }

  lemma {:induction false} OfBytesConcat(a: seq<byte>, b: seq<byte>)
    ensures OfBytes(a + b) == OfBytes(a) + OfBytes(b)
  {
    if a == [] {
      assert a + b == b;
    } else {
      OfBytesConcat(a[1..], b);
      assert (a + b)[1..] == a[1..] + b && (a + b)[0] == a[0];
      assert OfByte(a[0]) + (OfBytes(a[1..]) + OfBytes(b)) == OfByte(a[0]) + OfBytes(a[1..]) + OfBytes(b);
    }
  }

  lemma Middle(a: Bits, b: Bits, c: Bits)
    ensures (a + (b + c))[|a|..|a| + |b|] == b
  {
  }

  lemma OfBytesMiddle(a: seq<byte>, b: seq<byte>, c: seq<byte>)
    ensures OfBytes(a + (b + c))[8 * |a|..8 * |a| + 8 * |b|] == OfBytes(b)
  {
    OfBytesConcat(a, b + c);
    OfBytesConcat(b, c);
    Middle(OfBytes(a), OfBytes(b), OfBytes(c));
  }

  lemma ThreeParts(buf: seq<byte>, i: nat, j: nat)
    requires i <= j <= |buf|
    ensures buf == buf[..i] + (buf[i..j] + buf[j..])
  {
  }

  lemma OfBytesSlice(buf: seq<byte>, i: nat, j: nat)
    requires i <= j <= |buf|
    ensures OfBytes(buf)[8 * i..8 * j] == OfBytes(buf[i..j])
  {
    ThreeParts(buf, i, j);
    OfBytesMiddle(buf[..i], buf[i..j], buf[j..]);
  }

  /** The number a string of bits spells. */
  function Num(s: Bits): (n: nat)
    ensures n < Pow2(|s|)
  {
    if s == [] then 0 else 2 * Num(s[..|s| - 1]) + Bin(s[|s| - 1])
  }

  lemma NumSnoc(s: Bits, b: bool)
    ensures Num(s + [b]) == 2 * Num(s) + Bin(b)
  {
    assert (s + [b])[..|s|] == s;
  }

  lemma DoubleBoth(x: int, y: int, p: int, z: int)
    requires x == y * p + z
    ensures 2 * x == y * (2 * p) + 2 * z
  {
    Twice(y, p);
  }

  lemma {:induction false} NumConcat(a: Bits, b: Bits)
    ensures Num(a + b) == Num(a) * Pow2(|b|) + Num(b)
    decreases |b|
  {
    if b == [] {
      assert a + b == a;
    } else {
      var c, d := b[..|b| - 1], b[|b| - 1];
      NumConcat(a, c);
      assert a + b == a + c + [d] && b == c + [d];
      NumSnoc(a + c, d);
      NumSnoc(c, d);
      DoubleBoth(Num(a + c), Num(a), Pow2(|c|), Num(c));
    }
  }

  lemma NumOne(b: bool)
    ensures Num([b]) == Bin(b)
  {
    assert [b][..0] == [];
  }

  lemma NumCons(b: bool, t: Bits)
    ensures Num([b] + t) == (if b then Pow2(|t|) else 0) + Num(t)
  {
    NumOne(b);
    NumConcat([b], t);
  }

  /** A leading part counts exactly when one of its bits is set. */
  lemma TopCounts(a: Bits, b: Bits)
    ensures Num(a + b) == Num(b) <==> Num(a) == 0
  {
    NumConcat(a, b);
    if Num(a) > 0 {
      Grows(Num(a), Pow2(|b|));
    }
  }

  lemma {:induction false} NumOfNat(x: nat, n: nat)
    requires x < Pow2(n)
    ensures Num(OfNat(x, n)) == x
  {
    if n > 0 {
      NumOfNat(x / 2, n - 1);
      NumSnoc(OfNat(x / 2, n - 1), x % 2 == 1);
    }
  }

  lemma ByteIsItsBits(b: byte)
    ensures Num(OfByte(b)) == b
  {
    Pow8();
    NumOfNat(b, 8);
  }

  lemma {:induction false} BitsOfNum(s: Bits)
    ensures OfNat(Num(s), |s|) == s
  {
    if s != [] {
      BitsOfNum(s[..|s| - 1]);
    }
  }

  lemma {:induction false} NumOfZeros(s: Bits)
    requires forall i :: 0 <= i < |s| ==> !s[i]
    ensures Num(s) == 0
  {
    if s != [] {
      NumOfZeros(s[..|s| - 1]);
    }
  }

  function LowBits(s: Bits, n: nat): Bits {
    if |s| <= n then s else s[|s| - n..]
  }

  /** x shifted right n places. */
  function Shr(x: nat, n: nat): nat {
    if n == 0 then x else Shr(x / 2, n - 1)
  }

  /** x shifted left n places. */
  function Shl(x: nat, n: nat): nat
    decreases n
  {
    if n == 0 then x else Shl(2 * x, n - 1)
  }

  /** x masked to its low n bits. */
  function Low(x: nat, n: nat): nat {
    if n == 0 then 0 else 2 * Low(x / 2, n - 1) + x % 2
  }

  lemma ShiftAndMaskDivide(x: nat, n: nat)
    ensures x == Shr(x, n) * Pow2(n) + Low(x, n) && Low(x, n) < Pow2(n)
    ensures Shr(x, n) == x / Pow2(n) && Low(x, n) == x % Pow2(n)
  {
    ShiftAndMaskSplit(x, n);
    TwoParts(Shr(x, n), Pow2(n), Low(x, n));
  }

  lemma {:induction false} ShiftAndMaskSplit(x: nat, n: nat)
    ensures x == Shr(x, n) * Pow2(n) + Low(x, n) && Low(x, n) < Pow2(n)
  {
    if n > 0 {
      ShiftAndMaskSplit(x / 2, n - 1);
      DoubleBoth(x / 2, Shr(x, n), Pow2(n - 1), Low(x / 2, n - 1));
    }
  }

  /** Masking keeps the low bits; shifting right drops them. */
  lemma {:induction false} MaskBits(s: Bits, n: nat)
    ensures Low(Num(s), n) == Num(LowBits(s, n))
    decreases n
  {
    if n > 0 && s != [] {
      var t := s[..|s| - 1];
      assert Num(s) / 2 == Num(t);
      MaskBits(t, n - 1);
      assert LowBits(s, n)[..|LowBits(s, n)| - 1] == LowBits(t, n - 1);
    } else if n > 0 {
      MaskBits([], n - 1);
    }
  }

  lemma {:induction false} ShiftBits(s: Bits, n: nat)
    requires n <= |s|
    ensures Shr(Num(s), n) == Num(s[..|s| - n])
  {
    if n > 0 {
      var t := s[..|s| - 1];
      assert Num(s) / 2 == Num(t);
      ShiftBits(t, n - 1);
      assert t[..|t| - (n - 1)] == s[..|s| - n];
    } else {
      assert s[..|s|] == s;
    }
  }

  /** A shift and then a mask. */
  lemma MaskOfShift(s: Bits, n: nat, width: nat)
    requires n <= |s|
    ensures Low(Shr(Num(s), n), width) == Num(LowBits(s[..|s| - n], width))
  {
    ShiftBits(s, n);
    MaskBits(s[..|s| - n], width);
  }

  lemma {:induction false} PadBits(s: Bits, n: nat)
    ensures Num(s + BitSeq.Zeros(n)) == Shl(Num(s), n)
    decreases n
  {
    if n > 0 {
      NumSnoc(s, false);
      PadBits(s + [false], n - 1);
      assert s + [false] + BitSeq.Zeros(n - 1) == s + BitSeq.Zeros(n);
    } else {
      assert s + BitSeq.Zeros(0) == s;
    }
  }

  /** Or-ing bits into zeros. */
  lemma {:induction false} FillZeros(a: Bits, c: Bits)
    ensures Num(a + BitSeq.Zeros(|c|)) + Num(c) == Num(a + c)
    decreases |c|
  {
    if c == [] {
      assert a + BitSeq.Zeros(0) == a + c;
    } else {
      var d := c[..|c| - 1];
      FillZeros(a, d);
      NumSnoc(a + BitSeq.Zeros(|d|), false);
      NumSnoc(a + d, c[|d|]);
      assert a + BitSeq.Zeros(|d|) + [false] == a + BitSeq.Zeros(|c|) && a + d + [c[|d|]] == a + c;
    }
  }

  lemma ByteMask(x: nat)
    ensures x % 256 == Low(x, 8)
  {
    Pow8();
    ShiftAndMaskDivide(x, 8);
  }

  lemma OfBytesOne(b: byte)
    ensures OfBytes([b]) == OfByte(b)
  {
    assert [b][1..] == [] && OfByte(b) + [] == OfByte(b);
  }

  lemma AppendByte(s: seq<byte>, b: byte)
    ensures Num(OfBytes(s + [b])) == Num(OfBytes(s)) * 256 + b
  {
    OfBytesConcat(s, [b]);
    OfBytesOne(b);
    NumConcat(OfBytes(s), OfByte(b));
    ByteIsItsBits(b);
    Pow8();
  }
}
