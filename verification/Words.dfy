/** The bits of 32-bit words and of their bytes. */
module Words {
  import opened BitSeq

  function Top(w: bv32): bv8 { (w >> 24) as bv8 }

  function Hi(w: bv32): bv8 { ((w >> 16) & 0xFF) as bv8 }

  function Mid(w: bv32): bv8 { ((w >> 8) & 0xFF) as bv8 }

  function Lo(w: bv32): bv8 { (w & 0xFF) as bv8 }

  function Mask32(i: nat): bv32
    requires i < 32
  {
    if i < 8 then (Mask(i) as bv32) << 24
    else if i < 16 then (Mask(i - 8) as bv32) << 16
    else if i < 24 then (Mask(i - 16) as bv32) << 8
    else Mask(i - 24) as bv32
  }

  predicate Has32(w: bv32, i: nat)
    requires i < 32
  {
    w & Mask32(i) != 0
  }

  /** The 32 bits of a word. */
  function OfWord(w: bv32): (s: Bits)
    ensures |s| == 32
  {
    seq(32, i requires 0 <= i < 32 => Has32(w, i))
  }

  lemma TopMask(w: bv32, m: bv8)
    ensures (Top(w) & m != 0) == (w & ((m as bv32) << 24) != 0)
  {
  }

  lemma TopBits(w: bv32)
    ensures OfWord(w)[0..8] == OfByte(Top(w))
  {
    forall i | 0 <= i < 8
      ensures Has32(w, 0 + i) == Has(Top(w), i)
    {
      TopMask(w, Mask(i));
    }
  }

  lemma HiMask(w: bv32, m: bv8)
    ensures (Hi(w) & m != 0) == (w & ((m as bv32) << 16) != 0)
  {
  }

  lemma HiBits(w: bv32)
    ensures OfWord(w)[8..16] == OfByte(Hi(w))
  {
    forall i | 0 <= i < 8
      ensures Has32(w, 8 + i) == Has(Hi(w), i)
    {
      HiMask(w, Mask(i));
    }
  }

  lemma MidMask(w: bv32, m: bv8)
    ensures (Mid(w) & m != 0) == (w & ((m as bv32) << 8) != 0)
  {
  }

  lemma MidBits(w: bv32)
    ensures OfWord(w)[16..24] == OfByte(Mid(w))
  {
    forall i | 0 <= i < 8
      ensures Has32(w, 16 + i) == Has(Mid(w), i)
    {
      MidMask(w, Mask(i));
    }
  }

  lemma LoMask(w: bv32, m: bv8)
    ensures (Lo(w) & m != 0) == (w & ((m as bv32)) != 0)
  {
  }

  lemma LoBits(w: bv32)
    ensures OfWord(w)[24..32] == OfByte(Lo(w))
  {
    forall i | 0 <= i < 8
      ensures Has32(w, 24 + i) == Has(Lo(w), i)
    {
      LoMask(w, Mask(i));
    }
  }

  lemma OfWordBytes(w: bv32)
    ensures OfWord(w) == OfByte(Top(w)) + OfByte(Hi(w)) + OfByte(Mid(w)) + OfByte(Lo(w))
  {
    TopBits(w);
    HiBits(w);
    MidBits(w);
    LoBits(w);
    var s := OfWord(w);
    assert s == s[0..8] + s[8..16] + s[16..24] + s[24..32];
  }

  lemma MaskXor32(a: bv32, b: bv32, m: bv32)
    requires m & (m - 1) == 0
    ensures ((a ^ b) & m != 0) == ((a & m != 0) != (b & m != 0))
  {
  }

  lemma OneBit(i: nat)
    requires i < 32
    ensures Mask32(i) & (Mask32(i) - 1) == 0
  {
    assert Mask(i % 8) & (Mask(i % 8) - 1) == 0;
  }

  lemma OfWordXor(a: bv32, b: bv32)
    ensures OfWord(a ^ b) == Xor(OfWord(a), OfWord(b))
  {
    forall i | 0 <= i < 32
      ensures Has32(a ^ b, i) == (Has32(a, i) != Has32(b, i))
    {
      OneBit(i);
      MaskXor32(a, b, Mask32(i));
    }
  }

  lemma BytesShift8(w: bv32)
    ensures Top(w << 8) == Hi(w) && Hi(w << 8) == Mid(w) && Mid(w << 8) == Lo(w) && Lo(w << 8) == 0
  {
  }

  lemma OfWordShift8(w: bv32)
    ensures OfWord(w << 8) == OfWord(w)[8..] + Zeros(8)
  {
    BytesShift8(w);
    OfWordBytes(w);
    OfWordBytes(w << 8);
    assert OfByte(0) == Zeros(8);
  }

  lemma BytesLow(w: bv32)
    ensures Top(w & 0xFFFFFF) == 0 && Hi(w & 0xFFFFFF) == Hi(w) &&
            Mid(w & 0xFFFFFF) == Mid(w) && Lo(w & 0xFFFFFF) == Lo(w)
  {
  }

  lemma OfWordLow(w: bv32)
    ensures OfWord(w & 0xFFFFFF) == Zeros(8) + OfWord(w)[8..]
  {
    BytesLow(w);
    OfWordBytes(w);
    OfWordBytes(w & 0xFFFFFF);
    assert OfByte(0) == Zeros(8);
  }

  lemma ByteShift1(h: bv8, l: bv8, i: nat)
    requires i < 8
    ensures Has((h << 1) | (l >> 7), i) == if i < 7 then Has(h, i + 1) else Has(l, 0)
  {
  }

  lemma OfByteShift1(h: bv8, l: bv8)
    ensures OfByte((h << 1) | (l >> 7)) == OfByte(h)[1..] + OfByte(l)[..1]
  {
    forall i | 0 <= i < 8
      ensures OfByte((h << 1) | (l >> 7))[i] == (OfByte(h)[1..] + OfByte(l)[..1])[i]
    {
      ByteShift1(h, l, i);
    }
  }

  lemma TopShift1(w: bv32)
    ensures OfByte(Top(w << 1)) == OfByte(Top(w))[1..] + OfByte(Hi(w))[..1]
  {
    var h, l := Top(w), Hi(w);
    OfByteShift1(h, l);
    assert Top(w << 1) == (h << 1) | (l >> 7);
  }

  lemma HiShift1(w: bv32)
    ensures OfByte(Hi(w << 1)) == OfByte(Hi(w))[1..] + OfByte(Mid(w))[..1]
  {
    var h, l := Hi(w), Mid(w);
    OfByteShift1(h, l);
    assert Hi(w << 1) == (h << 1) | (l >> 7);
  }

  lemma MidShift1(w: bv32)
    ensures OfByte(Mid(w << 1)) == OfByte(Mid(w))[1..] + OfByte(Lo(w))[..1]
  {
    var h, l := Mid(w), Lo(w);
    OfByteShift1(h, l);
    assert Mid(w << 1) == (h << 1) | (l >> 7);
  }

  lemma LoShift1(w: bv32)
    ensures OfByte(Lo(w << 1)) == OfByte(Lo(w))[1..] + OfByte(0)[..1]
  {
    OfByteShift1(Lo(w), 0);
    assert Lo(w << 1) == (Lo(w) << 1) | ((0 as bv8) >> 7);
  }

  lemma Glue(a: Bits, b: Bits, c: Bits, d: Bits, e: Bits)
    requires |a| == |b| == |c| == |d| == |e| == 8
    ensures (a[1..] + b[..1]) + (b[1..] + c[..1]) + (c[1..] + d[..1]) + (d[1..] + e[..1])
         == (a + b + c + d)[1..] + e[..1]
  {
  }

  lemma OfWordShift1(w: bv32)
    ensures OfWord(w << 1) == OfWord(w)[1..] + OfByte(0)[..1]
  {
    OfWordBytes(w);
    OfWordBytes(w << 1);
    TopShift1(w);
    HiShift1(w);
    MidShift1(w);
    LoShift1(w);
    Glue(OfByte(Top(w)), OfByte(Hi(w)), OfByte(Mid(w)), OfByte(Lo(w)), OfByte(0));
  }
}
