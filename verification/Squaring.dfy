/** Squares of binary polynomials modulo the CRC-24Q generator. */
module Squaring {
  import opened BitSeq
  import opened Gf2

  /** The square of a polynomial: a zero between any two coefficients. */
  function Spread(s: Bits): Bits {
    if s == [] then [] else Spread(s[..|s|-1]) + [false, s[|s|-1]]
  }

  function Square(s: Bits): Residue { Rem(Spread(s)) }

  lemma SpreadSnoc(s: Bits, b: bool)
    ensures Spread(s + [b]) == Spread(s) + [false] + [b]
  {
    assert (s + [b])[..|s|] == s;
  }

  lemma SquareSnoc(s: Bits, b: bool)
    ensures Square(s + [b]) == Xor(Times(Times(Square(s))), Const(b))
  {
    SpreadSnoc(s, b);
    RemSnoc(Spread(s) + [false], b);
    RemSnoc(Spread(s), false);
    assert Const(false) == Zeros(24);
    assert Xor(Times(Square(s)), Zeros(24)) == Times(Square(s));
  }

  lemma {:induction false} SpreadXor(s: Bits, t: Bits)
    requires |s| == |t|
    ensures |Spread(s)| == |Spread(t)| == 2 * |s| && |Spread(Xor(s, t))| == 2 * |s|
    ensures Spread(Xor(s, t)) == Xor(Spread(s), Spread(t))
  {
    if s != [] {
      var n := |s| - 1;
      assert Xor(s, t)[..n] == Xor(s[..n], t[..n]);
      SpreadXor(s[..n], t[..n]);
    }
  }

  lemma SquareXor(s: Bits, t: Bits)
    requires |s| == |t|
    ensures Square(Xor(s, t)) == Xor(Square(s), Square(t))
  {
    SpreadXor(s, t);
    RemXor(Spread(s), Spread(t));
  }

  lemma {:induction false} SquareLeadingZero(s: Bits)
    ensures Square([false] + s) == Square(s)
  {
    if s == [] {
      SpreadSnoc([], false);
      assert [false] + s == [] + [false];
      assert Spread([]) + [false] + [false] == Zeros(2);
      RemZeros(2);
    } else {
      var s', b := s[..|s|-1], s[|s|-1];
      SquareLeadingZero(s');
      assert s == s' + [b] && [false] + s == ([false] + s') + [b];
      SquareSnoc(s', b);
      SquareSnoc([false] + s', b);
    }
  }
}
