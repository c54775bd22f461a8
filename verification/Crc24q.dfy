/** crc24q.c: the table-driven checksum, its table generator, sign and check,
    against remainders of binary polynomials. */
module Crc24q {
  import opened BitSeq
  import opened Gf2
  import opened Words
  import opened DoublingTable
  import opened Crc24qTable

  /** The checksum of a message: the remainder of message * x^24. */
  function Crc(message: seq<bv8>): Residue {
    Rem(OfBytes(message) + Zeros(24))
  }

  // ----- the table

  /** Entry b of the table is the multiple of the generator whose top byte is b. */
  predicate IsEntry(w: bv32, b: bv8) {
    Top(w) == b && Rem(OfWord(w)) == Zeros(24)
  }

  lemma XorSelf(s: Bits)
    ensures Xor(s, s) == Zeros(|s|)
  {
  }

  lemma EntryXorEntry(v: bv32, a: bv8, w: bv32, b: bv8)
    requires IsEntry(v, a) && IsEntry(w, b)
    ensures IsEntry(v ^ w, a ^ b)
  {
    OfWordXor(v, w);
    RemXor(OfWord(v), OfWord(w));
    XorSelf(Zeros(24));
  }

  lemma RemLeadingZeros(n: nat, t: Bits)
    ensures Rem(Zeros(n) + t) == Rem(t)
  {
    RemConcat(Zeros(n), t);
    RemZeros(n);
    ShiftZero(|t|, Zeros(24));
    assert Xor(Zeros(24), Rem(t)) == Rem(t);
  }

  lemma RemLowWord(d: bv32)
    requires Top(d) == 0
    ensures OfWord(d) == Zeros(8) + Rem(OfWord(d))
  {
    var t := OfWord(d)[8..];
    TopBits(d);
    assert OfByte(0) == Zeros(8);
    assert OfWord(d) == Zeros(8) + t;
    RemLeadingZeros(8, t);
    RemShort(t);
    assert Zeros(0) + t == t;
  }

  lemma ZeroWord(d: bv32)
    requires OfWord(d) == Zeros(32)
    ensures d == 0
  {
    assert OfByte(0) == Zeros(8);
    TopBits(d);
    HiBits(d);
    MidBits(d);
    LoBits(d);
    OfByteInjective(Top(d), 0);
    OfByteInjective(Hi(d), 0);
    OfByteInjective(Mid(d), 0);
    OfByteInjective(Lo(d), 0);
  }

  lemma EntryUnique(v: bv32, w: bv32, b: bv8)
    requires IsEntry(v, b) && IsEntry(w, b)
    ensures v == w
  {
    EntryXorEntry(v, b, w, b);
    RemLowWord(v ^ w);
    assert Zeros(8) + Zeros(24) == Zeros(32);
    ZeroWord(v ^ w);
  }

  lemma EntryZero()
    ensures IsEntry(0, 0)
  {
    OfWordBytes(0);
    assert OfByte(0) == Zeros(8);
    assert OfWord(0) == Zeros(32);
    RemZeros(32);
  }

  lemma EntryOne()
    ensures IsEntry(CRCPOLY, 1)
  {
    OfWordBytes(CRCPOLY);
    assert OfByte(1) == Zeros(7) + [true];
    assert OfWord(CRCPOLY) == Zeros(7) + GENERATOR;
    RemShiftedGenerator(7);
  }

  lemma DoubledTop(h: bv32)
    requires Top(h) < 0x80
    ensures Top(h << 1) == if (h << 1) & 0x1000000 != 0 then (Top(h) << 1) ^ 1 else Top(h) << 1
  {
  }

  lemma ShiftedOut(h: bv32)
    requires Top(h) < 0x80
    ensures OfWord(h) == Zeros(1) + OfWord(h)[1..] && OfWord(h << 1) == OfWord(h)[1..] + [false]
  {
    OfWordShift1(h);
    assert !Has32(h, 0);
    assert OfByte(0)[..1] == [false];
  }

  lemma MultipleDoubled(h: bv32)
    requires Top(h) < 0x80 && Rem(OfWord(h)) == Zeros(24)
    ensures Rem(OfWord(h << 1)) == Zeros(24)
  {
    var s := OfWord(h)[1..];
    ShiftedOut(h);
    RemLeadingZeros(1, s);
    RemSnoc(s, false);
    ZeroFacts();
  }

  lemma EntryOff(w: bv32, b: bv8)
    requires IsEntry(w, b ^ 1)
    ensures IsEntry(w ^ CRCPOLY, b)
  {
    EntryOne();
    EntryXorEntry(w, b ^ 1, CRCPOLY, 1);
  }

  lemma EntryReduced(w: bv32, b: bv8)
    requires IsEntry(w, if w & 0x1000000 != 0 then b ^ 1 else b)
    ensures IsEntry(Reduced(w), b)
  {
    if w & 0x1000000 != 0 {
      EntryOff(w, b);
    }
  }

  lemma EntryDoubled(h: bv32, b: bv8)
    requires IsEntry(h, b) && b < 0x80
    ensures IsEntry(Reduced(h << 1), b << 1)
  {
    DoubledTop(h);
    MultipleDoubled(h);
    EntryReduced(h << 1, b << 1);
  }

  // ----- the literal table

  ghost predicate Correct(t: seq<bv32>, n: nat, b: bv8) {
    n < |t| && b as int == n && IsEntry(t[n], b)
  }

  lemma CorrectDouble(t: seq<bv32>, n: nat, b: bv8)
    requires Correct(t, n, b) && DoubleAt(CRC24, t, n) && b < 0x80
    ensures Correct(t, 2 * n, b << 1)
  {
    EntryDoubled(t[n], b);
    assert (b << 1) as int == 2 * (b as int);
  }

  lemma {:induction false} CorrectPower(t: seq<bv32>, p: bv8)
    requires IsTable(CRC24, t) && p in {1, 2, 4, 8, 16, 32, 64, 128}
    ensures Correct(t, p as int, p)
    decreases p as int
  {
    if p == 1 {
      EntryOne();
    } else {
      var h := p >> 1;
      assert h in {1, 2, 4, 8, 16, 32, 64} && h as int in {1, 2, 4, 8, 16, 32, 64};
      CorrectPower(t, h);
      CorrectDouble(t, h as int, h);
      assert h << 1 == p && 2 * (h as int) == p as int;
    }
  }

  lemma SumBits(a: bv8, b: bv8)
    requires a & b == 0
    ensures (a ^ b) as int == a as int + b as int && a ^ b == b ^ a
  {
  }

  lemma CorrectSum(t: seq<bv32>, m: nat, a: bv8, n: nat, b: bv8)
    requires Correct(t, m, a) && Correct(t, n, b) && a & b == 0 && SumAt(CRC24, t, m, n)
    ensures Correct(t, m + n, a ^ b)
  {
    EntryXorEntry(t[n], b, t[m], a);
    SumBits(a, b);
  }

  lemma SplitByte(b: bv8) returns (p: bv8, q: bv8)
    requires b > 1
    ensures p in {2, 4, 8, 16, 32, 64, 128} && p as int in {2, 4, 8, 16, 32, 64, 128}
    ensures q as int < p as int && p as int + q as int == b as int && p & q == 0 && p ^ q == b
  {
    p := if b < 4 then 2 else if b < 8 then 4 else if b < 16 then 8 else if b < 32 then 16
         else if b < 64 then 32 else if b < 128 then 64 else 128;
    q := b ^ p;
    SumBits(p, q);
  }

  lemma TableSum(t: seq<bv32>, p: nat, q: nat)
    requires IsTable(CRC24, t) && p in {2, 4, 8, 16, 32, 64, 128} && q < p
    ensures SumAt(CRC24, t, p, q)
  {
  }

  lemma CorrectParts(t: seq<bv32>, p: bv8, q: bv8, b: bv8)
    requires IsTable(CRC24, t) && Correct(t, p as int, p) && Correct(t, q as int, q)
    requires p as int in {2, 4, 8, 16, 32, 64, 128} && q as int < p as int && p & q == 0
    requires p ^ q == b && p as int + q as int == b as int
    ensures Correct(t, b as int, b)
  {
    TableSum(t, p as int, q as int);
    CorrectSum(t, p as int, p, q as int, q);
  }

  lemma {:induction false} TableIsCorrect(t: seq<bv32>, b: bv8)
    requires IsTable(CRC24, t)
    ensures Correct(t, b as int, b)
    decreases b as int
  {
    if b == 0 {
      EntryZero();
    } else if b == 1 {
      CorrectPower(t, 1);
    } else {
      var p, q := SplitByte(b);
      TableIsCorrect(t, q);
      CorrectPower(t, p);
      CorrectParts(t, p, q, b);
    }
  }

  lemma LiteralEntry(b: bv8)
    ensures b as int < |CRC24Q| && IsEntry(CRC24Q[b as int], b)
  {
    LiteralIsTable();
    TableIsCorrect(CRC24Q, b);
  }

  /** Entry b of the literal table is the one word that is a multiple of the generator and has b on top. */
  lemma LiteralIsCorrect(b: bv8, w: bv32)
    ensures b as int < |CRC24Q| && (IsEntry(w, b) <==> w == CRC24Q[b as int])
  {
    LiteralEntry(b);
    if IsEntry(w, b) {
      EntryUnique(w, CRC24Q[b as int], b);
    }
  }

  // ----- the checksum loop

  /** Low 24 bits of the running word. */
  function Low(w: bv32): Residue {
    OfWord(w)[8..]
  }

  lemma RemThenZeros(s: Bits, n: nat)
    ensures Rem(s + Zeros(n)) == Shift(n, Rem(s))
  {
    RemConcat(s, Zeros(n));
    RemZeros(n);
    assert Xor(Shift(n, Rem(s)), Zeros(24)) == Shift(n, Rem(s));
  }

  /** Appending a byte to a message: eight more places for the old remainder, and the byte on top. */
  lemma CrcSnoc(m: Bits, d: Bits)
    requires |d| == 8
    ensures Rem((m + d) + Zeros(24)) == Xor(Shift(8, Rem(m + Zeros(24))), Rem(d + Zeros(24)))
  {
    var a, b := (m + Zeros(24)) + Zeros(8), Zeros(|m|) + (d + Zeros(24));
    assert (m + d) + Zeros(24) == Xor(a, b);
    RemXor(a, b);
    RemThenZeros(m + Zeros(24), 8);
    RemLeadingZeros(|m|, d + Zeros(24));
  }

  lemma StepRemainder(h: Residue, t: Bits)
    requires |t| == 32 && Rem(t) == Zeros(24)
    ensures Rem(Xor(h + Zeros(8), t)) == Shift(8, h)
  {
    RemXor(h + Zeros(8), t);
    RemThenZeros(h, 8);
    RemShort(h);
    assert Zeros(0) + h == h;
    assert Xor(Shift(8, h), Zeros(24)) == Shift(8, h);
  }

  lemma ByteAndTail(d: Bits, l: Residue)
    requires |d| == 8
    ensures Rem(d + l) == Xor(Rem(d + Zeros(24)), l)
  {
    assert d + l == Xor(d + Zeros(24), Zeros(8) + l);
    RemXor(d + Zeros(24), Zeros(8) + l);
    RemLeadingZeros(8, l);
    RemShort(l);
    assert Zeros(0) + l == l;
  }

  /** One pass of the loop, on bits. */
  lemma TableStep(h: Residue, d: Bits, t: Bits, w: Bits)
    requires |d| == 8 && |t| == 32 && Rem(t) == Zeros(24) && t[..8] == Xor(d, h[..8])
    requires w == Xor(h + Zeros(8), t)
    ensures w[8..] == Xor(Shift(8, h), Rem(d + Zeros(24)))
  {
    StepRemainder(h, t);
    forall i | 0 <= i < 8
      ensures w[i] == d[i]
    {
      assert t[i] == t[..8][i] == (d[i] != h[..8][i]);
    }
    assert w == d + w[8..];
    ByteAndTail(d, w[8..]);
    XorCancel(Rem(d + Zeros(24)), w[8..], Shift(8, h));
  }

  lemma XorCancel(a: Bits, b: Bits, c: Bits)
    requires |a| == |b| == |c| && Xor(a, b) == c
    ensures b == Xor(c, a)
  {
    forall i | 0 <= i < |a|
      ensures b[i] == Xor(c, a)[i]
    {
      assert c[i] == Xor(a, b)[i];
    }
  }

  lemma EntryTop(crc: bv32, d: bv8, e: bv32)
    requires IsEntry(e, d ^ Hi(crc))
    ensures OfWord(e)[..8] == Xor(OfByte(d), Low(crc)[..8])
  {
    TopBits(e);
    OfByteXor(d, Hi(crc));
    HiBits(crc);
    assert Low(crc)[..8] == OfWord(crc)[8..16];
  }

  lemma NextWord(crc: bv32, e: bv32)
    ensures OfWord((crc << 8) ^ e) == Xor(Low(crc) + Zeros(8), OfWord(e))
  {
    OfWordXor(crc << 8, e);
    OfWordShift8(crc);
  }

  lemma HashStep(crc: bv32, d: bv8, e: bv32)
    requires IsEntry(e, d ^ Hi(crc))
    ensures Low((crc << 8) ^ e) == Xor(Shift(8, Low(crc)), Rem(OfByte(d) + Zeros(24)))
  {
    EntryTop(crc, d, e);
    NextWord(crc, e);
    TableStep(Low(crc), OfByte(d), OfWord(e), OfWord((crc << 8) ^ e));
  }

  lemma HashPass(crc: bv32, m: seq<bv8>, d: bv8, e: bv32)
    requires IsEntry(e, d ^ Hi(crc)) && Low(crc) == Crc(m)
    ensures Low((crc << 8) ^ e) == Crc(m + [d])
  {
    HashStep(crc, d, e);
    OfBytesSnoc(m, d);
    CrcSnoc(OfBytes(m), OfByte(d));
  }

  lemma HashStart()
    ensures Low(0) == Crc([])
  {
    OfWordBytes(0);
    assert OfByte(0) == Zeros(8);
    assert OfBytes([]) + Zeros(24) == Zeros(24);
    RemZeros(24);
  }

  /** crc24q_hash computes the remainder of message * x^24. */
  method Crc24qHash(data: array<bv8>, len: nat) returns (crc: bv32)
    requires len <= data.Length
    ensures OfWord(crc) == Zeros(8) + Crc(data[..len])
  {
    crc := 0;
    HashStart();
    var i := 0;
    while i < len
      invariant 0 <= i <= len
      invariant Low(crc) == Crc(data[..i])
    {
      var index := data[i] ^ Hi(crc);
      LiteralEntry(index);
      var entry := CRC24Q[index as int];
      HashPass(crc, data[..i], data[i], entry);
      assert data[..i] + [data[i]] == data[..i + 1];
      crc := (crc << 8) ^ entry;
      i := i + 1;
    }
    OfWordLow(crc);
    crc := crc & 0x00FFFFFF;
  }

  // ----- sign and check

  /** The last three bytes are the checksum of the others. */
  ghost predicate Accepts(d: seq<bv8>) {
    |d| >= 3 && OfBytes(d[|d|-3..]) == Crc(d[..|d|-3])
  }

  lemma TrailerBits(crc: bv32, t: seq<bv8>)
    requires |t| == 3 && t[0] == Hi(crc) && t[1] == Mid(crc) && t[2] == Lo(crc)
    ensures OfBytes(t) == Low(crc)
  {
    OfWordBytes(crc);
    assert t[..2][..1] == t[..1];
    assert t[..1][..0] == [];
    assert OfBytes(t[..1]) == OfByte(t[0]);
    assert OfBytes(t[..2]) == OfBytes(t[..1]) + OfByte(t[1]);
    assert OfBytes(t) == OfBytes(t[..2]) + OfByte(t[2]);
  }

  lemma {:induction false} OfBytesInjective(d: seq<bv8>, e: seq<bv8>)
    requires |d| == |e| && OfBytes(d) == OfBytes(e)
    ensures d == e
  {
    if d != [] {
      var n := |d| - 1;
      assert OfBytes(d)[..8 * n] == OfBytes(d[..n]) && OfBytes(e)[..8 * n] == OfBytes(e[..n]);
      assert OfBytes(d)[8 * n..] == OfByte(d[n]) && OfBytes(e)[8 * n..] == OfByte(e[n]);
      OfBytesInjective(d[..n], e[..n]);
      OfByteInjective(d[n], e[n]);
    }
  }

  /** crc24q_check accepts exactly the messages that end in their checksum. */
  method Crc24qCheck(data: array<bv8>, len: nat) returns (ok: bool)
    requires 3 <= len <= data.Length
    ensures ok <==> Accepts(data[..len])
  {
    var crc := Crc24qHash(data, len - 3);
    ok := data[len - 3] == Hi(crc) && data[len - 2] == Mid(crc) && data[len - 1] == Lo(crc);
    assert data[..len][..len - 3] == data[..len - 3];
    ghost var t := data[..len][len - 3..];
    TrailerBits(crc, [Hi(crc), Mid(crc), Lo(crc)]);
    if OfBytes(t) == Low(crc) {
      OfBytesInjective(t, [Hi(crc), Mid(crc), Lo(crc)]);
    }
    assert ok <==> t == [Hi(crc), Mid(crc), Lo(crc)];
  }

  /** crc24q_sign appends the checksum. */
  method Crc24qSign(data: array<bv8>, len: nat)
    requires len + 3 <= data.Length
    modifies data
    ensures Accepts(data[..len + 3])
    ensures data[..len] == old(data[..len]) && data[len + 3..] == old(data[len + 3..])
  {
    var crc := Crc24qHash(data, len);
    data[len] := Hi(crc);
    data[len + 1] := Mid(crc);
    data[len + 2] := Lo(crc);
    assert data[..len + 3][..len] == data[..len] == old(data[..len]);
    TrailerBits(crc, data[..len + 3][len..]);
  }

  /** A buffer is accepted exactly when its bits are a multiple of the generator. */
  lemma AcceptsMultiples(d: seq<bv8>)
    requires |d| >= 3
    ensures Accepts(d) <==> Rem(OfBytes(d)) == Zeros(24)
    ensures Accepts(d) <==> exists q: Bits :: |q| == 8 * |d| - 24 && OfBytes(d) == Product(q)
  {
    var m, t := d[..|d|-3], d[|d|-3..];
    assert d == m + t;
    OfBytesConcat(m, t);
    RemConcat(OfBytes(m), OfBytes(t));
    RemThenZeros(OfBytes(m), 24);
    RemShort(OfBytes(t));
    assert Zeros(0) + OfBytes(t) == OfBytes(t);
    XorZeroIffEqual(Crc(m), OfBytes(t));
    RemZeroIsMultiple(OfBytes(d));
  }

  lemma XorZeroIffEqual(a: Bits, b: Bits)
    requires |a| == |b|
    ensures Xor(a, b) == Zeros(|a|) <==> a == b
  {
    if Xor(a, b) == Zeros(|a|) {
      forall i | 0 <= i < |a|
        ensures a[i] == b[i]
      {
        assert !Xor(a, b)[i];
      }
    }
  }

  // ----- algebra of the checksum

  lemma CrcOfXor(a: seq<bv8>, b: seq<bv8>)
    requires |a| == |b|
    ensures Crc(XorBytes(a, b)) == Xor(Crc(a), Crc(b))
  {
    OfBytesXor(a, b);
    RemXor(OfBytes(a) + Zeros(24), OfBytes(b) + Zeros(24));
    XorConcat(OfBytes(a), OfBytes(b), Zeros(24), Zeros(24));
    XorSelf(Zeros(24));
  }

  lemma CrcIgnoresLeadingZeros(z: seq<bv8>, m: seq<bv8>)
    requires forall i :: 0 <= i < |z| ==> z[i] == 0
    ensures Crc(z + m) == Crc(m)
  {
    OfBytesConcat(z, m);
    OfBytesOfZeros(z);
    assert OfBytes(z + m) + Zeros(24) == Zeros(8 * |z|) + (OfBytes(m) + Zeros(24));
    RemLeadingZeros(8 * |z|, OfBytes(m) + Zeros(24));
  }

  /** A signed message has checksum zero, and nothing else does. */
  lemma CrcOfSigned(d: seq<bv8>)
    requires |d| >= 3
    ensures Crc(d) == Zeros(24) <==> Accepts(d)
  {
    AcceptsMultiples(d);
    RemThenZeros(OfBytes(d), 24);
    ShiftZero(24, Rem(OfBytes(d)));
  }
}
