/** Remainders of binary polynomials modulo the CRC-24Q generator 0x1864CFB.
    A polynomial is the string of its coefficients, highest power first. */
module Gf2 {
  import opened BitSeq

  /** A polynomial of degree below 24. */
  type Residue = s: Bits | |s| == 24 witness Zeros(24)

  /** The generator without its leading x^24. */
  const TAIL: Residue := OfByte(0x86) + OfByte(0x4C) + OfByte(0xFB)

  const GENERATOR: Bits := [true] + TAIL

  function Const(b: bool): (r: Residue) {
    Zeros(23) + [b]
  }

  /** Multiplication by x modulo the generator. */
  function Times(r: Residue): (t: Residue) {
    Xor(r[1..] + [false], if r[0] then TAIL else Zeros(24))
  }

  /** Multiplication by x^n modulo the generator. */
  function Shift(n: nat, r: Residue): (t: Residue) {
    if n == 0 then r else Times(Shift(n - 1, r))
  }

  /** The remainder of a polynomial. */
  function Rem(s: Bits): (r: Residue) {
    if s == [] then Zeros(24) else Xor(Times(Rem(s[..|s|-1])), Const(s[|s|-1]))
  }

  lemma TimesXor(a: Residue, b: Residue)
    ensures Times(Xor(a, b)) == Xor(Times(a), Times(b))
  {
  }

  lemma TimesZero(a: Residue)
    ensures Times(a) == Zeros(24) <==> a == Zeros(24)
  {
    if Times(a) == Zeros(24) {
      assert TAIL[23];
      assert Times(a)[23] == a[0];
      assert forall i :: 0 <= i < 23 ==> Times(a)[i] == a[i + 1];
      assert forall i :: 1 <= i < 24 ==> a[i] == Times(a)[i - 1];
    }
  }

  lemma TimesInjective(a: Residue, b: Residue)
    requires Times(a) == Times(b)
    ensures a == b
  {
    TimesXor(a, b);
    assert Xor(Times(a), Times(b)) == Zeros(24);
    TimesZero(Xor(a, b));
    forall i | 0 <= i < 24
      ensures a[i] == b[i]
    {
      assert !Xor(a, b)[i];
    }
  }

  lemma {:induction false} ShiftZero(n: nat, a: Residue)
    ensures Shift(n, a) == Zeros(24) <==> a == Zeros(24)
  {
    if n > 0 {
      ShiftZero(n - 1, a);
      TimesZero(Shift(n - 1, a));
    }
  }

  lemma {:induction false} ShiftShift(m: nat, n: nat, a: Residue)
    ensures Shift(m, Shift(n, a)) == Shift(m + n, a)
  {
    if m > 0 {
      ShiftShift(m - 1, n, a);
    }
  }

  lemma RemSnoc(s: Bits, b: bool)
    ensures Rem(s + [b]) == Xor(Times(Rem(s)), Const(b))
  {
    assert (s + [b])[..|s|] == s;
  }

  lemma {:induction false} RemConcat(s: Bits, t: Bits)
    ensures Rem(s + t) == Xor(Shift(|t|, Rem(s)), Rem(t))
  {
    if t == [] {
      assert s + t == s;
      assert Xor(Rem(s), Zeros(24)) == Rem(s);
    } else {
      var t', b := t[..|t|-1], t[|t|-1];
      assert s + t == (s + t') + [b];
      RemSnoc(s + t', b);
      RemConcat(s, t');
      TimesXor(Shift(|t'|, Rem(s)), Rem(t'));
      XorAssoc(Shift(|t|, Rem(s)), Times(Rem(t')), Const(b));
    }
  }

  lemma {:induction false} RemZeros(n: nat)
    ensures Rem(Zeros(n)) == Zeros(24)
  {
    if n > 0 {
      assert Zeros(n)[..n-1] == Zeros(n-1);
      RemZeros(n - 1);
      TimesZero(Zeros(24));
      assert Xor(Zeros(24), Const(false)) == Zeros(24);
    }
  }

  lemma {:induction false} RemXor(s: Bits, t: Bits)
    requires |s| == |t|
    ensures Rem(Xor(s, t)) == Xor(Rem(s), Rem(t))
  {
    if s == [] {
      assert Xor(Zeros(24), Zeros(24)) == Zeros(24);
    } else {
      var n := |s| - 1;
      assert Xor(s, t)[..n] == Xor(s[..n], t[..n]);
      RemXor(s[..n], t[..n]);
      TimesXor(Rem(s[..n]), Rem(t[..n]));
      XorExchange(Times(Rem(s[..n])), Times(Rem(t[..n])), Const(s[n]), Const(t[n]));
      assert Const(s[n] != t[n]) == Xor(Const(s[n]), Const(t[n]));
    }
  }

  lemma TimesPush(s: Bits, b: bool)
    requires |s| < 24
    ensures Xor(Times(Zeros(24 - |s|) + s), Const(b)) == Zeros(23 - |s|) + (s + [b])
  {
    var r := Zeros(24 - |s|) + s;
    assert !r[0];
    assert Times(r) == r[1..] + [false];
  }

  /** A polynomial of degree below 24 is its own remainder. */
  lemma {:induction false} RemShort(s: Bits)
    requires |s| <= 24
    ensures Rem(s) == Zeros(24 - |s|) + s
  {
    if s == [] {
      assert Zeros(24) + s == Zeros(24);
    } else {
      var s', b := s[..|s|-1], s[|s|-1];
      RemShort(s');
      assert s == s' + [b];
      RemSnoc(s', b);
      TimesPush(s', b);
    }
  }

  // ----- the multiples of the generator

  /** The product of q and the generator: one shifted copy of the generator per set bit of q. */
  function Product(q: Bits): (p: Bits)
    ensures |p| == |q| + 24
  {
    if q == [] then Zeros(24)
    else
      var q' := q[..|q|-1];
      Xor(Product(q') + [false], if q[|q|-1] then Zeros(|q'|) + GENERATOR else Zeros(|q| + 24))
  }

  lemma RemGenerator()
    ensures Rem(GENERATOR) == Zeros(24)
  {
    RemShort([true]);
    RemConcat([true], TAIL);
    RemShort(TAIL);
    assert Zeros(0) + TAIL == TAIL;
    ShiftOne();
    assert Xor(TAIL, TAIL) == Zeros(24);
  }

  /** x^24 leaves the generator's tail. */
  lemma ShiftOne()
    ensures Shift(24, Zeros(23) + [true]) == TAIL
  {
    ShiftSmall(23, [true]);
    assert [true] + Zeros(23) == (Zeros(0) + [true]) + Zeros(23);
    assert Shift(24, Zeros(23) + [true]) == Times([true] + Zeros(23));
    assert Xor(Zeros(24), TAIL) == TAIL;
  }

  /** Multiplying by x^n moves the coefficients of a short polynomial n places. */
  lemma {:induction false} ShiftSmall(n: nat, s: Bits)
    requires n + |s| <= 24
    ensures Shift(n, Zeros(24 - |s|) + s) == Zeros(24 - n - |s|) + s + Zeros(n)
  {
    if n == 0 {
      assert Zeros(24 - |s|) + s + Zeros(0) == Zeros(24 - |s|) + s;
    } else {
      ShiftSmall(n - 1, s);
      var t := Zeros(25 - n - |s|) + s + Zeros(n - 1);
      assert Times(t) == Zeros(24 - n - |s|) + s + Zeros(n);
    }
  }

  lemma RemShiftedGenerator(n: nat)
    ensures Rem(Zeros(n) + GENERATOR) == Zeros(24)
  {
    RemConcat(Zeros(n), GENERATOR);
    RemZeros(n);
    ShiftZero(25, Zeros(24));
    RemGenerator();
    assert Xor(Zeros(24), Zeros(24)) == Zeros(24);
  }

  lemma ZeroFacts()
    ensures Times(Zeros(24)) == Zeros(24) && Xor(Zeros(24), Const(false)) == Zeros(24)
    ensures Xor(Zeros(24), Zeros(24)) == Zeros(24)
  {
    TimesZero(Zeros(24));
  }

  lemma RemAdded(p: Bits, g: Bits)
    requires |g| == |p| + 1 && Rem(p) == Zeros(24) && Rem(g) == Zeros(24)
    ensures Rem(Xor(p + [false], g)) == Zeros(24)
  {
    RemSnoc(p, false);
    ZeroFacts();
    RemXor(p + [false], g);
  }

  lemma {:induction false} RemProduct(q: Bits)
    ensures Rem(Product(q)) == Zeros(24)
  {
    if q == [] {
      RemZeros(24);
    } else {
      var n := |q| - 1;
      RemProduct(q[..n]);
      if q[n] {
        RemShiftedGenerator(n);
        RemAdded(Product(q[..n]), Zeros(n) + GENERATOR);
      } else {
        RemZeros(n + 25);
        RemAdded(Product(q[..n]), Zeros(n + 25));
      }
    }
  }

  lemma DivisionStep(p: Bits, n: nat, r: Residue, b: bool)
    requires |p| == n + 24
    ensures Xor(p, Zeros(n) + r) + [b] ==
            Xor(Xor(p + [false], if r[0] then Zeros(n) + GENERATOR else Zeros(n + 25)),
                Zeros(n + 1) + Xor(Times(r), Const(b)))
  {
    var t := Xor(Times(r), Const(b));
    assert forall i :: 0 <= i < 23 ==> t[i] == (r[i + 1] != (if r[0] then TAIL[i] else false));
    assert t[23] == ((if r[0] then TAIL[23] else false) != b);
  }

  lemma NoDivision(s: Bits)
    requires |s| == 24
    ensures s == Xor(Product([]), Zeros(0) + Rem(s))
  {
    RemShort(s);
    assert Zeros(0) + s == s;
    assert s == Xor(Zeros(24), s);
  }

  /** Long division: every polynomial is a multiple of the generator plus its remainder. */
  lemma {:induction false} Division(s: Bits) returns (q: Bits)
    requires |s| >= 24
    ensures |q| == |s| - 24
    ensures s == Xor(Product(q), Zeros(|q|) + Rem(s))
  {
    if |s| == 24 {
      q := [];
      NoDivision(s);
    } else {
      var s', b := s[..|s|-1], s[|s|-1];
      var q' := Division(s');
      q := q' + [Rem(s')[0]];
      assert q[..|q|-1] == q';
      assert s == s' + [b];
      DivisionStep(Product(q'), |q'|, Rem(s'), b);
    }
  }

  lemma AddedZeros(p: Bits, n: nat)
    requires |p| == n + 24
    ensures Xor(p, Zeros(n) + Zeros(24)) == p
  {
  }

  /** Remainder zero means exactly: a multiple of the generator. */
  lemma RemZeroIsMultiple(s: Bits)
    requires |s| >= 24
    ensures Rem(s) == Zeros(24) <==> exists q: Bits :: |q| == |s| - 24 && s == Product(q)
  {
    if Rem(s) == Zeros(24) {
      var q := Division(s);
      AddedZeros(Product(q), |q|);
    }
    if q: Bits :| |q| == |s| - 24 && s == Product(q) {
      RemProduct(q);
    }
  }
}
