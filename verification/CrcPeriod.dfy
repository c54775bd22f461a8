/** The powers of x modulo the CRC-24Q generator repeat with period 2^23 - 1 and no sooner. */
module CrcPeriod {
  import opened BitSeq
  import opened Gf2
  import opened Squaring
  import opened Words
  import opened Crc24qTable
  import opened Crc24q

  const ONE: Residue := Zeros(23) + [true]

  function Pow(n: nat): Residue { Shift(n, ONE) }

  // ----- the same on machine words

  /** w stands for the residue r. */
  ghost predicate Stands(w: bv32, r: Residue) {
    OfWord(w) == Zeros(8) + r
  }

  function TimesWord(w: bv32): bv32 {
    if w & 0x800000 != 0 then (w << 1) ^ 0x1864CFB else w << 1
  }

  lemma LeadingCoefficient(w: bv32, r: Residue)
    requires Stands(w, r)
    ensures r[0] == (w & 0x800000 != 0)
  {
    assert OfWord(w)[8] == Has32(w, 8);
    assert Mask32(8) == 0x800000;
  }

  lemma GeneratorWord()
    ensures OfWord(0x1864CFB) == Zeros(7) + GENERATOR
  {
    OfWordBytes(0x1864CFB);
    assert OfByte(1) == Zeros(7) + [true];
  }

  lemma ShiftedWord(w: bv32, r: Residue)
    requires Stands(w, r)
    ensures OfWord(w << 1) == Zeros(7) + (r + [false])
  {
    OfWordShift1(w);
    assert OfByte(0)[..1] == [false];
  }

  lemma ReducedWord(r: Residue)
    ensures if r[0] then Xor(Zeros(7) + (r + [false]), Zeros(7) + GENERATOR) == Zeros(8) + Times(r)
            else Zeros(7) + (r + [false]) == Zeros(8) + Times(r)
  {
    var t := if r[0] then TAIL else Zeros(24);
    assert forall i :: 0 <= i < 23 ==> Times(r)[i] == (r[i + 1] != t[i]);
    assert Times(r)[23] == t[23];
  }

  lemma TimesStands(w: bv32, r: Residue)
    requires Stands(w, r)
    ensures Stands(TimesWord(w), Times(r))
  {
    LeadingCoefficient(w, r);
    ShiftedWord(w, r);
    ReducedWord(r);
    if w & 0x800000 != 0 {
      OfWordXor(w << 1, 0x1864CFB);
      GeneratorWord();
    }
  }

  lemma WordOne()
    ensures Stands(0, Zeros(24)) && Stands(1, ONE)
  {
    OfWordBytes(0);
    OfWordBytes(1);
    assert OfByte(0) == Zeros(8);
    assert OfByte(1) == Zeros(7) + [true];
    assert OfWord(0) == Zeros(8) + Zeros(24);
    assert OfWord(1) == Zeros(8) + ONE;
  }

  lemma XorStands(v: bv32, r: Residue, w: bv32, s: Residue)
    requires Stands(v, r) && Stands(w, s)
    ensures Stands(v ^ w, Xor(r, s))
  {
    OfWordXor(v, w);
    XorConcat(Zeros(8), Zeros(8), r, s);
  }

  function ByteBits(b: bv8): (s: Bits)
    ensures |s| == 8
  {
    [b & 0x80 != 0, b & 0x40 != 0, b & 0x20 != 0, b & 0x10 != 0,
     b & 0x08 != 0, b & 0x04 != 0, b & 0x02 != 0, b & 0x01 != 0]
  }

  function HighEight(w: bv32): (s: Bits)
    ensures |s| == 8
  {
    [w & 0x800000 != 0, w & 0x400000 != 0, w & 0x200000 != 0, w & 0x100000 != 0,
     w & 0x080000 != 0, w & 0x040000 != 0, w & 0x020000 != 0, w & 0x010000 != 0]
  }

  function MiddleEight(w: bv32): (s: Bits)
    ensures |s| == 8
  {
    [w & 0x008000 != 0, w & 0x004000 != 0, w & 0x002000 != 0, w & 0x001000 != 0,
     w & 0x000800 != 0, w & 0x000400 != 0, w & 0x000200 != 0, w & 0x000100 != 0]
  }

  function LowEight(w: bv32): (s: Bits)
    ensures |s| == 8
  {
    [w & 0x000080 != 0, w & 0x000040 != 0, w & 0x000020 != 0, w & 0x000010 != 0,
     w & 0x000008 != 0, w & 0x000004 != 0, w & 0x000002 != 0, w & 0x000001 != 0]
  }

  /** The low 24 bits of a word, spelled out. */
  function BitsOf(w: bv32): (s: Bits)
    ensures |s| == 24
  {
    HighEight(w) + MiddleEight(w) + LowEight(w)
  }

  lemma ByteBitsAre(b: bv8)
    ensures ByteBits(b) == OfByte(b)
  {
  }

  lemma HighSlice(w: bv32)
    ensures HighEight(w) == ByteBits(Hi(w))
  {
  }

  lemma MiddleSlice(w: bv32)
    ensures MiddleEight(w) == ByteBits(Mid(w))
  {
  }

  lemma LowSlice(w: bv32)
    ensures LowEight(w) == ByteBits(Lo(w))
  {
  }

  lemma BitsOfLow(w: bv32)
    ensures BitsOf(w) == Low(w)
  {
    OfWordBytes(w);
    ByteBitsAre(Hi(w));
    ByteBitsAre(Mid(w));
    ByteBitsAre(Lo(w));
    HighSlice(w);
    MiddleSlice(w);
    LowSlice(w);
  }

  // ----- squaring doubles the exponent

  /** w is the word of x^n. */
  ghost predicate IsPow(w: bv32, n: nat) {
    Stands(w, Pow(n))
  }

  lemma Next(w: bv32, n: nat, v: bv32)
    requires IsPow(w, n) && TimesWord(w) == v
    ensures IsPow(v, n + 1)
  {
    TimesStands(w, Pow(n));
  }

  /** Multiplied by x, r is its product reduced and, where it overflows, the generator. */
  lemma Overflow(r: Residue) returns (g: Bits)
    ensures g == (if r[0] then GENERATOR else Zeros(25)) && |g| == 25
    ensures r + [false] == Xor([false] + Times(r), g)
  {
    g := if r[0] then GENERATOR else Zeros(25);
    ReducedWord(r);
    assert Zeros(7) + ([false] + Times(r)) == Zeros(8) + Times(r);
    forall i | 0 <= i < 25
      ensures (r + [false])[i] == Xor([false] + Times(r), g)[i]
    {
      assert (Zeros(7) + (r + [false]))[7 + i] == (r + [false])[i];
      assert (Zeros(8) + Times(r))[7 + i] == ([false] + Times(r))[i];
    }
  }

  lemma SquareStep(r: Residue)
    requires Square(GENERATOR) == Zeros(24)
    ensures Square(Times(r)) == Times(Times(Square(r)))
  {
    var g := Overflow(r);
    SquareXor([false] + Times(r), g);
    SquareLeadingZero(Times(r));
    SquareSnoc(r, false);
    SquareOfZeros(25);
    assert Const(false) == Zeros(24);
    assert Xor(Times(Times(Square(r))), Zeros(24)) == Times(Times(Square(r)));
    assert Xor(Square(Times(r)), Zeros(24)) == Square(Times(r));
  }

  lemma {:induction false} SquareOfZeros(n: nat)
    ensures Square(Zeros(n)) == Zeros(24)
  {
    if n == 0 {
      assert Spread(Zeros(0)) == [];
    } else {
      SquareOfZeros(n - 1);
      assert Zeros(n) == Zeros(n - 1) + [false];
      SquareSnoc(Zeros(n - 1), false);
      TimesZero(Zeros(24));
      assert Xor(Zeros(24), Const(false)) == Zeros(24);
    }
  }

  function Times6(w: bv32): bv32 {
    TimesWord(TimesWord(TimesWord(TimesWord(TimesWord(TimesWord(w))))))
  }

  lemma Next6(w: bv32, n: nat, v: bv32)
    requires IsPow(w, n) && Times6(w) == v
    ensures IsPow(v, n + 6)
  {
    var w1 := TimesWord(w);
    var w2 := TimesWord(w1);
    var w3 := TimesWord(w2);
    var w4 := TimesWord(w3);
    var w5 := TimesWord(w4);
    Next(w, n, w1);
    Next(w1, n + 1, w2);
    Next(w2, n + 2, w3);
    Next(w3, n + 3, w4);
    Next(w4, n + 4, w5);
    Next(w5, n + 5, v);
  }

  lemma Pow24()
    ensures Stands(0x864cfb, TAIL) && IsPow(0x864cfb, 24)
  {
    ShiftOne();
    HiBits(0x864cfb);
    MidBits(0x864cfb);
    LoBits(0x864cfb);
    TopBits(0x864cfb);
    var s := OfWord(0x864cfb);
    assert OfByte(0) == Zeros(8);
    assert s == s[0..8] + (s[8..16] + s[16..24] + s[24..32]);
  }

  lemma Pow30()
    ensures IsPow(0x19a3d2, 30)
  {
    Pow24();
    Next6(0x864cfb, 24, 0x19a3d2);
  }

  lemma Pow36()
    ensures IsPow(0x71c76c, 36)
  {
    Pow30();
    Next6(0x19a3d2, 30, 0x71c76c);
  }

  lemma Pow42()
    ensures IsPow(0x86f251, 42)
  {
    Pow36();
    Next6(0x71c76c, 36, 0x86f251);
  }

  lemma Pow48()
    ensures IsPow(0x360952, 48)
  {
    Pow42();
    Next6(0x86f251, 42, 0x360952);
  }
}
