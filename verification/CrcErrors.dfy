/** What crc24q_check detects: the claims in the header of crc24q.c. */
module CrcErrors {
  import opened BitSeq
  import opened Gf2
  import opened Crc24q

  /** The bits by which a received buffer differs from a sent one. */
  function Difference(d: seq<bv8>, e: seq<bv8>): (s: Bits)
    requires |d| == |e|
    ensures |s| == 8 * |d|
  {
    Xor(OfBytes(d), OfBytes(e))
  }

  /** Whether damage goes unnoticed depends on the damage alone. */
  lemma UndetectedIffMultiple(d: seq<bv8>, e: seq<bv8>)
    requires Accepts(d) && |e| == |d|
    ensures Accepts(e) <==> Rem(Difference(d, e)) == Zeros(24)
  {
    AcceptsMultiples(d);
    AcceptsMultiples(e);
    RemXor(OfBytes(d), OfBytes(e));
    XorZeroIffEqual(Rem(OfBytes(d)), Rem(OfBytes(e)));
  }

  // ----- bursts

  /** Every set bit of s lies in the n places from i on. */
  ghost predicate Within(s: Bits, i: nat, n: nat) {
    i + n <= |s| && forall j :: 0 <= j < |s| && s[j] ==> i <= j < i + n
  }

  lemma RemOfWindow(s: Bits, i: nat, n: nat)
    requires Within(s, i, n)
    ensures Rem(s) == Zeros(24) <==> Rem(s[i..i + n]) == Zeros(24)
  {
    var b, c := s[i..i + n], |s| - i - n;
    assert s == Zeros(i) + (b + Zeros(c));
    RemLeadingZeros(i, b + Zeros(c));
    RemThenZeros(b, c);
    ShiftZero(c, Rem(b));
  }

  lemma NoBits(b: Bits)
    requires |b| <= 24 && Zeros(24 - |b|) + b == Zeros(24)
    ensures b == Zeros(|b|)
  {
    assert b == (Zeros(24 - |b|) + b)[24 - |b|..];
  }

  lemma ShortBurst(s: Bits, i: nat, n: nat)
    requires n <= 24 && Within(s, i, n) && Rem(s) == Zeros(24)
    ensures s == Zeros(|s|)
  {
    var b := s[i..i + n];
    RemOfWindow(s, i, n);
    RemShort(b);
    NoBits(b);
    forall j | 0 <= j < |s|
      ensures !s[j]
    {
      if i <= j < i + n {
        assert s[j] == b[j - i];
      }
    }
  }

  /** Claim 4: a burst of at most 24 bits anywhere, checksum included, is detected. */
  lemma BurstIsDetected(d: seq<bv8>, e: seq<bv8>, i: nat, n: nat)
    requires Accepts(d) && |e| == |d| && e != d
    requires n <= 24 && Within(Difference(d, e), i, n)
    ensures !Accepts(e)
  {
    UndetectedIffMultiple(d, e);
    if Accepts(e) {
      ShortBurst(Difference(d, e), i, n);
      XorZeroIffEqual(OfBytes(d), OfBytes(e));
      OfBytesInjective(d, e);
    }
  }

  lemma XorZeros(g: Bits)
    ensures Xor(Zeros(|g|), g) == g
  {
  }

  lemma ProductOfOne(q: Bits)
    requires |q| == 1
    ensures Product(q) == if q[0] then GENERATOR else Zeros(25)
  {
    assert q[..0] == [];
    assert Zeros(24) + [false] == Zeros(25);
    assert Zeros(0) + GENERATOR == GENERATOR;
    XorZeros(GENERATOR);
    XorZeros(Zeros(25));
  }

  lemma FirstMultiple(b: Bits)
    requires |b| == 25 && b[0]
    ensures Rem(b) == Zeros(24) <==> b == GENERATOR
  {
    RemGenerator();
    RemZeroIsMultiple(b);
    if Rem(b) == Zeros(24) {
      var q: Bits :| |q| == 1 && b == Product(q);
      ProductOfOne(q);
    }
  }

  /** Of the bursts that span exactly 25 bits, one escapes: the generator itself. */
  lemma BurstOf25(d: seq<bv8>, e: seq<bv8>, i: nat)
    requires Accepts(d) && |e| == |d| && Within(Difference(d, e), i, 25) && Difference(d, e)[i]
    ensures Accepts(e) <==> Difference(d, e)[i..i + 25] == GENERATOR
  {
    UndetectedIffMultiple(d, e);
    RemOfWindow(Difference(d, e), i, 25);
    FirstMultiple(Difference(d, e)[i..i + 25]);
  }

  // ----- odd numbers of errors

  lemma OnesSnoc(s: Bits, b: bool)
    ensures Ones(s + [b]) == Ones(s) + (if b then 1 else 0)
  {
    assert (s + [b])[..|s|] == s;
  }

  lemma {:induction false} OnesConcat(s: Bits, t: Bits)
    ensures Ones(s + t) == Ones(s) + Ones(t)
  {
    if t == [] {
      assert s + t == s;
    } else {
      var t', b := t[..|t|-1], t[|t|-1];
      assert s + t == (s + t') + [b];
      OnesConcat(s, t');
      OnesSnoc(s + t', b);
    }
  }

  lemma {:induction false} OnesXor(s: Bits, t: Bits) returns (both: nat)
    requires |s| == |t|
    ensures Ones(Xor(s, t)) + 2 * both == Ones(s) + Ones(t)
  {
    if s == [] {
      both := 0;
    } else {
      var n := |s| - 1;
      assert Xor(s, t)[..n] == Xor(s[..n], t[..n]);
      both := OnesXor(s[..n], t[..n]);
      both := both + (if s[n] && t[n] then 1 else 0);
    }
  }

  lemma OnesOfTail()
    ensures Ones(TAIL) == 13
  {
    OnesConcat(OfByte(0x86) + OfByte(0x4C), OfByte(0xFB));
    OnesConcat(OfByte(0x86), OfByte(0x4C));
    assert OfByte(0x86) == [true, false, false, false, false, true, true, false];
    assert OfByte(0x4C) == [false, true, false, false, true, true, false, false];
    assert OfByte(0xFB) == [true, true, true, true, true, false, true, true];
    Ones8(true, false, false, false, false, true, true, false);
    Ones8(false, true, false, false, true, true, false, false);
    Ones8(true, true, true, true, true, false, true, true);
  }

  function One(b: bool): nat { if b then 1 else 0 }

  lemma OnesOfTwo(s: Bits, a: bool, b: bool)
    ensures Ones(s + [a, b]) == Ones(s) + One(a) + One(b)
  {
    OnesSnoc(s, a);
    OnesSnoc(s + [a], b);
    assert s + [a, b] == s + [a] + [b];
  }

  lemma OnesOfFour(s: Bits, a: bool, b: bool, c: bool, d: bool)
    ensures Ones(s + [a, b, c, d]) == Ones(s) + One(a) + One(b) + One(c) + One(d)
  {
    OnesOfTwo(s, a, b);
    OnesOfTwo(s + [a, b], c, d);
    assert s + [a, b, c, d] == s + [a, b] + [c, d];
  }

  lemma Ones8(a: bool, b: bool, c: bool, d: bool, e: bool, f: bool, g: bool, h: bool)
    ensures Ones([a, b, c, d, e, f, g, h]) == One(a) + One(b) + One(c) + One(d) + One(e) + One(f) + One(g) + One(h)
  {
    OnesOfFour([], a, b, c, d);
    OnesOfFour([a, b, c, d], e, f, g, h);
    assert [] + [a, b, c, d] == [a, b, c, d];
    assert [a, b, c, d] + [e, f, g, h] == [a, b, c, d, e, f, g, h];
  }

  /** The generator has an even number of terms, so multiplying by x keeps the parity. */
  lemma TimesParity(r: Residue)
    ensures Ones(Times(r)) % 2 == Ones(r) % 2
  {
    var t := if r[0] then TAIL else Zeros(24);
    assert r == [r[0]] + r[1..];
    OnesConcat([r[0]], r[1..]);
    OnesSnoc([], r[0]);
    OnesSnoc(r[1..], false);
    var both := OnesXor(r[1..] + [false], t);
    OnesOfTail();
    OnesOfZeros(24);
  }

  lemma ConstParity(r: Residue, b: bool)
    ensures Ones(Xor(r, Const(b))) % 2 == (Ones(r) + One(b)) % 2
  {
    var both := OnesXor(r, Const(b));
    OnesSnoc(Zeros(23), b);
    OnesOfZeros(23);
  }

  lemma {:induction false} RemParity(s: Bits)
    ensures Ones(Rem(s)) % 2 == Ones(s) % 2
  {
    if s == [] {
      OnesOfZeros(24);
    } else {
      var n := |s| - 1;
      RemParity(s[..n]);
      ConstParity(Times(Rem(s[..n])), s[n]);
      TimesParity(Rem(s[..n]));
    }
  }

  /** Claim 3: any odd number of wrong bits is detected. */
  lemma OddErrorsAreDetected(d: seq<bv8>, e: seq<bv8>)
    requires Accepts(d) && |e| == |d| && Ones(Difference(d, e)) % 2 == 1
    ensures !Accepts(e)
  {
    UndetectedIffMultiple(d, e);
    RemParity(Difference(d, e));
    OnesOfZeros(24);
  }
}
