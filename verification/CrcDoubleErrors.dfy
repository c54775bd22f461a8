/** Claim 2 in the header of crc24q.c, all double bit errors: exactly when it is true. */
module CrcDoubleErrors {
  import opened BitSeq
  import opened Gf2
  import opened Words
  import opened Crc24q
  import opened CrcErrors
  import opened CrcPeriod
  import opened CrcSquares
  import opened CrcPowers
  import opened Periods

  // ----- the powers of x that equal one

  lemma FirstPow()
    ensures IsPow(2, 1)
  {
    WordOne();
    assert Pow(0) == ONE;
    Next(1, 0, 2);
  }

  /** x^(n+1) = x only when x^n = 1. */
  lemma BackToOne(n: nat)
    requires IsPow(2, n + 1)
    ensures Pow(n) == ONE
  {
    FirstPow();
    SameWord(2, Pow(n + 1), Pow(1));
    assert Pow(1) == Times(Pow(0)) && Pow(0) == ONE;
    TimesInjective(Pow(n), ONE);
  }

  lemma NotOne(w: bv32, n: nat)
    requires IsPow(w, n) && w & 0x80 != 0
    ensures Pow(n) != ONE
  {
    assert OfWord(w)[24] == Has32(w, 24);
    assert (Zeros(8) + Pow(n))[24] == Pow(n)[16];
    assert !ONE[16];
  }

  /** What c knows of the powers that p names. */
  ghost predicate Tells(p: (bv32, nat) -> bool, c: nat -> bool) {
    && (forall n: nat {:trigger c(n)} :: p(2, n + 1) ==> c(n))
    && (forall w: bv32, n: nat {:trigger p(w, n)} :: p(w, n) && w & 0x80 != 0 ==> !c(n))
  }

  lemma PeriodOf(f: bv32 -> bv32, p: (bv32, nat) -> bool, c: nat -> bool, n: nat)
    requires IsSquare(f) && Climbs(f, p) && p(2, 1) && Tells(p, c) && Closed(c)
    ensures c(n) <==> n % 8388607 == 0
  {
    Reach8388608(f, p);
    Reach47(f, p);
    Reach178481(f, p);
    assert c(8388607) by { assert p(2, 8388607 + 1); }
    CycleLength(c, n);
  }

  lemma ClimbsIsPow(f: bv32 -> bv32, p: (bv32, nat) -> bool)
    requires IsSquare(f) && forall w: bv32, n: nat {:trigger p(w, n)} :: p(w, n) <==> IsPow(w, n)
    ensures Climbs(f, p)
  {
    forall w: bv32, n: nat | p(w, n)
      ensures p(f(w), 2 * n)
    {
      PowSquared(f, w, n);
    }
    forall w: bv32, n: nat | p(w, n)
      ensures p(TimesWord(w), n + 1)
    {
      Next(w, n, TimesWord(w));
    }
  }

  lemma ClosedPow(c: nat -> bool)
    requires forall n: nat {:trigger c(n)} :: c(n) <==> Pow(n) == ONE
    ensures Closed(c)
  {
    assert Pow(0) == ONE;
    forall a: nat, b: nat
      ensures SumIn(c, a, b)
    {
      ShiftShift(a, b, ONE);
    }
    forall a: nat, b: nat
      ensures DifferenceIn(c, a, b)
    {
      if c(a) && a <= b {
        ShiftShift(b - a, a, ONE);
      }
    }
  }

  lemma TellsPow(p: (bv32, nat) -> bool, c: nat -> bool)
    requires forall w: bv32, n: nat {:trigger p(w, n)} :: p(w, n) <==> IsPow(w, n)
    requires forall n: nat {:trigger c(n)} :: c(n) <==> Pow(n) == ONE
    ensures Tells(p, c)
  {
    forall n: nat | p(2, n + 1)
      ensures c(n)
    {
      BackToOne(n);
    }
    forall w: bv32, n: nat | p(w, n) && w & 0x80 != 0
      ensures !c(n)
    {
      NotOne(w, n);
    }
  }

  /** The powers of x return to one exactly at the multiples of 2^23 - 1. */
  lemma PowPeriod(n: nat)
    ensures Pow(n) == ONE <==> n % 8388607 == 0
  {
    var f := SquareExists();
    var p := (w: bv32, n: nat) => IsPow(w, n);
    var c := (n: nat) => Pow(n) == ONE;
    ClimbsIsPow(f, p);
    ClosedPow(c);
    TellsPow(p, c);
    FirstPow();
    PeriodOf(f, p, c, n);
    assert c(n) <==> Pow(n) == ONE;
  }

  // ----- two wrong bits

  lemma RemOfPair(m: nat)
    ensures Rem(([true] + Zeros(m)) + [true]) == Xor(Pow(m + 1), ONE)
  {
    RemSnoc([true] + Zeros(m), true);
    RemThenZeros([true], m);
    RemShort([true]);
    assert Const(true) == ONE;
    assert Times(Pow(m)) == Pow(m + 1);
  }

  ghost predicate OnlyBits(s: Bits, i: nat, j: nat) {
    forall k :: 0 <= k < |s| ==> (s[k] <==> k == i || k == j)
  }

  lemma Pair(b: Bits)
    requires |b| >= 2 && OnlyBits(b, 0, |b| - 1)
    ensures b == ([true] + Zeros(|b| - 2)) + [true]
  {
  }

  lemma PairIsZero(b: Bits, n: nat)
    requires |b| == n + 1 && n > 0 && OnlyBits(b, 0, n)
    ensures Rem(b) == Zeros(24) <==> Pow(n) == ONE
  {
    Pair(b);
    RemOfPair(n - 1);
    XorZeroIffEqual(Pow(n), ONE);
  }

  lemma PairWindow(s: Bits, i: nat, n: nat)
    requires i + n < |s| && OnlyBits(s, i, i + n)
    ensures Within(s, i, n + 1) && OnlyBits(s[i..i + (n + 1)], 0, n)
  {
    var w := s[i..i + (n + 1)];
    forall k | 0 <= k < |w|
      ensures w[k] <==> k == 0 || k == n
    {
      assert w[k] == s[i + k];
    }
  }

  lemma RemOfPairWindow(s: Bits, i: nat, n: nat) returns (b: Bits)
    requires i + n < |s| && OnlyBits(s, i, i + n)
    ensures |b| == n + 1 && OnlyBits(b, 0, n)
    ensures Rem(s) == Zeros(24) <==> Rem(b) == Zeros(24)
  {
    b := s[i..i + (n + 1)];
    PairWindow(s, i, n);
    RemOfWindow(s, i, n + 1);
  }

  lemma TwoBits(s: Bits, i: nat, n: nat)
    requires 0 < n && i + n < |s| && OnlyBits(s, i, i + n)
    ensures Rem(s) == Zeros(24) <==> Pow(n) == ONE
  {
    var b := RemOfPairWindow(s, i, n);
    PairIsZero(b, n);
  }

  /** Claim 2: two wrong bits are detected unless they are a multiple of 8388607 bits apart. */
  lemma DoubleErrorsAreDetected(d: seq<bv8>, e: seq<bv8>, i: nat, j: nat)
    requires Accepts(d) && |e| == |d| && i < j < 8 * |d|
    requires OnlyBits(Difference(d, e), i, j)
    ensures Accepts(e) <==> (j - i) % 8388607 == 0
  {
    UndetectedIffMultiple(d, e);
    TwoBits(Difference(d, e), i, j - i);
    PowPeriod(j - i);
  }

  lemma {:induction false} OfBytesAt(d: seq<bv8>, k: nat)
    requires k < 8 * |d|
    ensures OfBytes(d)[k] == Has(d[k / 8], k % 8)
  {
    var n := |d| - 1;
    if k < 8 * n {
      OfBytesAt(d[..n], k);
    }
  }

  /** A megabyte of zeros is accepted, and so is the same with its first and last bits set. */
  lemma DoubleErrorEscapes()
    ensures exists d: seq<bv8>, e: seq<bv8> :: |d| == |e| && Accepts(d) && Accepts(e) && Ones(Difference(d, e)) == 2
  {
    var d: seq<bv8> := seq(1048576, i => 0);
    var e := seq(1048576, i => if i == 0 then 0x80 else if i == 1048575 then 0x01 else 0);
    assert Accepts(d) by {
      OfBytesOfZeros(d);
      RemZeros(8 * 1048576);
      AcceptsMultiples(d);
    }
    var s := Difference(d, e);
    forall k | 0 <= k < |s|
      ensures s[k] <==> k == 0 || k == 8388607
    {
      OfBytesAt(d, k);
      OfBytesAt(e, k);
      OneBitBytes(k % 8);
    }
    DoubleErrorsAreDetected(d, e, 0, 8388607);
    OnesOfPair(s, 8388607);
  }

  lemma OneBitBytes(i: nat)
    requires i < 8
    ensures !Has(0, i) && (Has(0x80, i) <==> i == 0) && (Has(0x01, i) <==> i == 7)
  {
  }

  lemma OnesOfPair(s: Bits, j: nat)
    requires 0 < j < |s| && forall k :: 0 <= k < |s| ==> (s[k] <==> k == 0 || k == j)
    ensures Ones(s) == 2
  {
    var m, c := j - 1, |s| - j - 1;
    Pair(s[..j + 1]);
    assert s[j + 1..] == Zeros(c);
    assert s == s[..j + 1] + s[j + 1..];
    OnesConcat(([true] + Zeros(m)) + [true], Zeros(c));
    OnesConcat([true] + Zeros(m), [true]);
    OnesConcat([true], Zeros(m));
    OnesSnoc([], true);
    assert [] + [true] == [true];
    OnesOfZeros(m);
    OnesOfZeros(c);
  }
}
