/** Squaring modulo the CRC-24Q generator, on machine words, doubles the exponent of a power of x. */
module CrcSquares {
  import opened BitSeq
  import opened Gf2
  import opened Squaring
  import opened Crc24q
  import opened CrcPeriod

  // ----- squaring a word: its coefficients, each moved to twice its place and reduced

  lemma TwiceNext(w: bv32, n: nat, u: bv32, v: bv32)
    requires IsPow(w, n) && TimesWord(w) == u && TimesWord(u) == v
    ensures IsPow(v, n + 2)
  {
    Next(w, n, u);
    Next(u, n + 1, v);
  }

  lemma EvenPowers0()
    ensures IsPow(0x000001, 0) && IsPow(0x000004, 2) && IsPow(0x000010, 4) && IsPow(0x000040, 6)
  {
    WordOne();
    assert Pow(0) == ONE;
    TwiceNext(0x000001, 0, 0x000002, 0x000004);
    TwiceNext(0x000004, 2, 0x000008, 0x000010);
    TwiceNext(0x000010, 4, 0x000020, 0x000040);
  }

  lemma EvenPowers1()
    ensures IsPow(0x000100, 8) && IsPow(0x000400, 10) && IsPow(0x001000, 12) && IsPow(0x004000, 14)
  {
    EvenPowers0();
    TwiceNext(0x000040, 6, 0x000080, 0x000100);
    TwiceNext(0x000100, 8, 0x000200, 0x000400);
    TwiceNext(0x000400, 10, 0x000800, 0x001000);
    TwiceNext(0x001000, 12, 0x002000, 0x004000);
  }

  lemma EvenPowers2()
    ensures IsPow(0x010000, 16) && IsPow(0x040000, 18) && IsPow(0x100000, 20) && IsPow(0x400000, 22)
  {
    EvenPowers1();
    TwiceNext(0x004000, 14, 0x008000, 0x010000);
    TwiceNext(0x010000, 16, 0x020000, 0x040000);
    TwiceNext(0x040000, 18, 0x080000, 0x100000);
    TwiceNext(0x100000, 20, 0x200000, 0x400000);
  }

  lemma EvenPowers3()
    ensures IsPow(0x864cfb, 24) && IsPow(0x93e6e1, 26) && IsPow(0xc54e89, 28) && IsPow(0x19a3d2, 30)
  {
    EvenPowers2();
    TwiceNext(0x400000, 22, 0x800000, 0x864cfb);
    TwiceNext(0x864cfb, 24, 0x8ad50d, 0x93e6e1);
    TwiceNext(0x93e6e1, 26, 0xa18139, 0xc54e89);
    TwiceNext(0xc54e89, 28, 0x0cd1e9, 0x19a3d2);
  }

  lemma EvenPowers4()
    ensures IsPow(0x668f48, 32) && IsPow(0x1c71db, 34) && IsPow(0x71c76c, 36) && IsPow(0x41514b, 38)
  {
    EvenPowers3();
    TwiceNext(0x19a3d2, 30, 0x3347a4, 0x668f48);
    TwiceNext(0x668f48, 32, 0xcd1e90, 0x1c71db);
    TwiceNext(0x1c71db, 34, 0x38e3b6, 0x71c76c);
    TwiceNext(0x71c76c, 36, 0xe38ed8, 0x41514b);
  }

  lemma EvenPowers5()
    ensures IsPow(0x8309d7, 40) && IsPow(0x86f251, 42) && IsPow(0x911c49, 44) && IsPow(0xcea429, 46)
  {
    EvenPowers4();
    TwiceNext(0x41514b, 38, 0x82a296, 0x8309d7);
    TwiceNext(0x8309d7, 40, 0x805f55, 0x86f251);
    TwiceNext(0x86f251, 42, 0x8ba859, 0x911c49);
    TwiceNext(0x911c49, 44, 0xa47469, 0xcea429);
  }

  /** The first k coefficients of r, and zeros. */
  function Front(r: Residue, k: nat): Residue
    requires k <= 24
  {
    r[..k] + Zeros(24 - k)
  }

  lemma SquareOfUnit(k: nat)
    requires k < 24
    ensures Square(Zeros(k) + [true] + Zeros(23 - k)) == Pow(2 * (23 - k))
  {
    SquareLeadingZeros(k, [true] + Zeros(23 - k));
    SquareOfMonomial(23 - k);
    assert Zeros(k) + [true] + Zeros(23 - k) == Zeros(k) + ([true] + Zeros(23 - k));
  }

  lemma NextFront(r: Residue, k: nat)
    requires k < 24
    ensures Front(r, k + 1) == if r[k] then Xor(Front(r, k), Zeros(k) + [true] + Zeros(23 - k)) else Front(r, k)
  {
  }

  /** v stands for the square of r's first k coefficients. */
  ghost predicate Squared<W>(stands: (W, Residue) -> bool, v: W, r: Residue, k: nat) {
    k <= 24 && stands(v, Square(Front(r, k)))
  }

  /** A sum of words that stands for the sum of polynomials. */
  ghost predicate Sums<W(!new)>(plus: (W, W) -> W, zero: W, stands: (W, Residue) -> bool) {
    && stands(zero, Zeros(24))
    && forall v: W, r: Residue, w: W, s: Residue {:trigger stands(plus(v, w), Xor(r, s))} ::
         stands(v, r) && stands(w, s) ==> stands(plus(v, w), Xor(r, s))
  }

  lemma AddTerm<W(!new)>(plus: (W, W) -> W, zero: W, stands: (W, Residue) -> bool, v: W, r: Residue, k: nat, c: W)
    requires Sums(plus, zero, stands) && k < 24 && Squared(stands, v, r, k) && stands(c, Pow(2 * (23 - k)))
    ensures Squared(stands, plus(v, if r[k] then c else zero), r, k + 1)
  {
    NextFront(r, k);
    var q := Square(Front(r, k));
    if r[k] {
      SquareOfUnit(k);
      SquareXor(Front(r, k), Zeros(k) + [true] + Zeros(23 - k));
      assert stands(plus(v, c), Xor(q, Pow(2 * (23 - k))));
    } else {
      assert Xor(q, Zeros(24)) == q;
      assert stands(plus(v, zero), Xor(q, Zeros(24)));
    }
  }

  function AddFour<W>(plus: (W, W) -> W, zero: W, v: W, b0: bool, b1: bool, b2: bool, b3: bool,
                      c0: W, c1: W, c2: W, c3: W): W
  {
    plus(plus(plus(plus(v, if b0 then c0 else zero), if b1 then c1 else zero),
              if b2 then c2 else zero), if b3 then c3 else zero)
  }

  lemma AddFourSquared<W(!new)>(plus: (W, W) -> W, zero: W, stands: (W, Residue) -> bool, v: W, r: Residue, k: nat,
                                c0: W, c1: W, c2: W, c3: W)
    requires Sums(plus, zero, stands) && k + 4 <= 24 && Squared(stands, v, r, k)
    requires stands(c0, Pow(2 * (23 - k))) && stands(c1, Pow(2 * (22 - k)))
    requires stands(c2, Pow(2 * (21 - k))) && stands(c3, Pow(2 * (20 - k)))
    ensures Squared(stands, AddFour(plus, zero, v, r[k], r[k + 1], r[k + 2], r[k + 3], c0, c1, c2, c3), r, k + 4)
  {
    AddTerm(plus, zero, stands, v, r, k, c0);
    var v1 := plus(v, if r[k] then c0 else zero);
    AddTerm(plus, zero, stands, v1, r, k + 1, c1);
    var v2 := plus(v1, if r[k + 1] then c1 else zero);
    AddTerm(plus, zero, stands, v2, r, k + 2, c2);
    var v3 := plus(v2, if r[k + 2] then c2 else zero);
    AddTerm(plus, zero, stands, v3, r, k + 3, c3);
  }

  function XorWords(v: bv32, w: bv32): bv32 { v ^ w }

  lemma XorWordsSum()
    ensures Sums(XorWords, 0, Stands)
  {
    WordOne();
    forall v: bv32, r: Residue, w: bv32, s: Residue | Stands(v, r) && Stands(w, s)
      ensures Stands(XorWords(v, w), Xor(r, s))
    {
      XorStands(v, r, w, s);
    }
  }

  lemma ThirdsOf(w: bv32, k: nat)
    requires k < 8
    ensures BitsOf(w)[k] == HighEight(w)[k] && BitsOf(w)[8 + k] == MiddleEight(w)[k] && BitsOf(w)[16 + k] == LowEight(w)[k]
  {
  }

  function Four0(v: bv32, w: bv32): bv32 {
    XorWords(XorWords(XorWords(XorWords(v, if w & 0x800000 != 0 then 0xcea429 else 0), if w & 0x400000 != 0 then 0x911c49 else 0),
                      if w & 0x200000 != 0 then 0x86f251 else 0), if w & 0x100000 != 0 then 0x8309d7 else 0)
  }

  lemma Flags0(w: bv32)
    ensures (w & 0x800000 != 0) == BitsOf(w)[0] && (w & 0x400000 != 0) == BitsOf(w)[1]
    ensures (w & 0x200000 != 0) == BitsOf(w)[2] && (w & 0x100000 != 0) == BitsOf(w)[3]
  {
    ThirdsOf(w, 0);
    ThirdsOf(w, 1);
    ThirdsOf(w, 2);
    ThirdsOf(w, 3);
  }

  lemma Four0Is(v: bv32, w: bv32)
    ensures Four0(v, w) ==
            AddFour(XorWords, 0, v, w & 0x800000 != 0, w & 0x400000 != 0, w & 0x200000 != 0, w & 0x100000 != 0,
                    0xcea429, 0x911c49, 0x86f251, 0x8309d7)
  {
  }

  lemma Four0On(v: bv32, w: bv32, s: Bits)
    requires |s| == 24 && Squared(Stands, v, s, 0)
    requires (w & 0x800000 != 0) == s[0] && (w & 0x400000 != 0) == s[1]
    requires (w & 0x200000 != 0) == s[2] && (w & 0x100000 != 0) == s[3]
    ensures Squared(Stands, Four0(v, w), s, 4)
  {
    XorWordsSum();
    EvenPowers5();
    AddFourSquared(XorWords, 0, Stands, v, s, 0, 0xcea429, 0x911c49, 0x86f251, 0x8309d7);
    Four0Is(v, w);
  }

  lemma Four0Squared(v: bv32, w: bv32)
    requires Squared(Stands, v, BitsOf(w), 0)
    ensures Squared(Stands, Four0(v, w), BitsOf(w), 4)
  {
    Flags0(w);
    Four0On(v, w, BitsOf(w));
  }

  function Four1(v: bv32, w: bv32): bv32 {
    XorWords(XorWords(XorWords(XorWords(v, if w & 0x080000 != 0 then 0x41514b else 0), if w & 0x040000 != 0 then 0x71c76c else 0),
                      if w & 0x020000 != 0 then 0x1c71db else 0), if w & 0x010000 != 0 then 0x668f48 else 0)
  }

  lemma Flags1(w: bv32)
    ensures (w & 0x080000 != 0) == BitsOf(w)[4] && (w & 0x040000 != 0) == BitsOf(w)[5]
    ensures (w & 0x020000 != 0) == BitsOf(w)[6] && (w & 0x010000 != 0) == BitsOf(w)[7]
  {
    ThirdsOf(w, 4);
    ThirdsOf(w, 5);
    ThirdsOf(w, 6);
    ThirdsOf(w, 7);
  }

  lemma Four1Is(v: bv32, w: bv32)
    ensures Four1(v, w) ==
            AddFour(XorWords, 0, v, w & 0x080000 != 0, w & 0x040000 != 0, w & 0x020000 != 0, w & 0x010000 != 0,
                    0x41514b, 0x71c76c, 0x1c71db, 0x668f48)
  {
  }

  lemma Four1On(v: bv32, w: bv32, s: Bits)
    requires |s| == 24 && Squared(Stands, v, s, 4)
    requires (w & 0x080000 != 0) == s[4] && (w & 0x040000 != 0) == s[5]
    requires (w & 0x020000 != 0) == s[6] && (w & 0x010000 != 0) == s[7]
    ensures Squared(Stands, Four1(v, w), s, 8)
  {
    XorWordsSum();
    EvenPowers4();
    AddFourSquared(XorWords, 0, Stands, v, s, 4, 0x41514b, 0x71c76c, 0x1c71db, 0x668f48);
    Four1Is(v, w);
  }

  lemma Four1Squared(v: bv32, w: bv32)
    requires Squared(Stands, v, BitsOf(w), 4)
    ensures Squared(Stands, Four1(v, w), BitsOf(w), 8)
  {
    Flags1(w);
    Four1On(v, w, BitsOf(w));
  }

  function Four2(v: bv32, w: bv32): bv32 {
    XorWords(XorWords(XorWords(XorWords(v, if w & 0x008000 != 0 then 0x19a3d2 else 0), if w & 0x004000 != 0 then 0xc54e89 else 0),
                      if w & 0x002000 != 0 then 0x93e6e1 else 0), if w & 0x001000 != 0 then 0x864cfb else 0)
  }

  lemma Flags2(w: bv32)
    ensures (w & 0x008000 != 0) == BitsOf(w)[8] && (w & 0x004000 != 0) == BitsOf(w)[9]
    ensures (w & 0x002000 != 0) == BitsOf(w)[10] && (w & 0x001000 != 0) == BitsOf(w)[11]
  {
    ThirdsOf(w, 0);
    ThirdsOf(w, 1);
    ThirdsOf(w, 2);
    ThirdsOf(w, 3);
  }

  lemma Four2Is(v: bv32, w: bv32)
    ensures Four2(v, w) ==
            AddFour(XorWords, 0, v, w & 0x008000 != 0, w & 0x004000 != 0, w & 0x002000 != 0, w & 0x001000 != 0,
                    0x19a3d2, 0xc54e89, 0x93e6e1, 0x864cfb)
  {
  }

  lemma Four2On(v: bv32, w: bv32, s: Bits)
    requires |s| == 24 && Squared(Stands, v, s, 8)
    requires (w & 0x008000 != 0) == s[8] && (w & 0x004000 != 0) == s[9]
    requires (w & 0x002000 != 0) == s[10] && (w & 0x001000 != 0) == s[11]
    ensures Squared(Stands, Four2(v, w), s, 12)
  {
    XorWordsSum();
    EvenPowers3();
    AddFourSquared(XorWords, 0, Stands, v, s, 8, 0x19a3d2, 0xc54e89, 0x93e6e1, 0x864cfb);
    Four2Is(v, w);
  }

  lemma Four2Squared(v: bv32, w: bv32)
    requires Squared(Stands, v, BitsOf(w), 8)
    ensures Squared(Stands, Four2(v, w), BitsOf(w), 12)
  {
    Flags2(w);
    Four2On(v, w, BitsOf(w));
  }

  function Four3(v: bv32, w: bv32): bv32 {
    XorWords(XorWords(XorWords(XorWords(v, if w & 0x000800 != 0 then 0x400000 else 0), if w & 0x000400 != 0 then 0x100000 else 0),
                      if w & 0x000200 != 0 then 0x040000 else 0), if w & 0x000100 != 0 then 0x010000 else 0)
  }

  lemma Flags3(w: bv32)
    ensures (w & 0x000800 != 0) == BitsOf(w)[12] && (w & 0x000400 != 0) == BitsOf(w)[13]
    ensures (w & 0x000200 != 0) == BitsOf(w)[14] && (w & 0x000100 != 0) == BitsOf(w)[15]
  {
    ThirdsOf(w, 4);
    ThirdsOf(w, 5);
    ThirdsOf(w, 6);
    ThirdsOf(w, 7);
  }

  lemma Four3Is(v: bv32, w: bv32)
    ensures Four3(v, w) ==
            AddFour(XorWords, 0, v, w & 0x000800 != 0, w & 0x000400 != 0, w & 0x000200 != 0, w & 0x000100 != 0,
                    0x400000, 0x100000, 0x040000, 0x010000)
  {
  }

  lemma Four3On(v: bv32, w: bv32, s: Bits)
    requires |s| == 24 && Squared(Stands, v, s, 12)
    requires (w & 0x000800 != 0) == s[12] && (w & 0x000400 != 0) == s[13]
    requires (w & 0x000200 != 0) == s[14] && (w & 0x000100 != 0) == s[15]
    ensures Squared(Stands, Four3(v, w), s, 16)
  {
    XorWordsSum();
    EvenPowers2();
    AddFourSquared(XorWords, 0, Stands, v, s, 12, 0x400000, 0x100000, 0x040000, 0x010000);
    Four3Is(v, w);
  }

  lemma Four3Squared(v: bv32, w: bv32)
    requires Squared(Stands, v, BitsOf(w), 12)
    ensures Squared(Stands, Four3(v, w), BitsOf(w), 16)
  {
    Flags3(w);
    Four3On(v, w, BitsOf(w));
  }

  function Four4(v: bv32, w: bv32): bv32 {
    XorWords(XorWords(XorWords(XorWords(v, if w & 0x000080 != 0 then 0x004000 else 0), if w & 0x000040 != 0 then 0x001000 else 0),
                      if w & 0x000020 != 0 then 0x000400 else 0), if w & 0x000010 != 0 then 0x000100 else 0)
  }

  lemma Flags4(w: bv32)
    ensures (w & 0x000080 != 0) == BitsOf(w)[16] && (w & 0x000040 != 0) == BitsOf(w)[17]
    ensures (w & 0x000020 != 0) == BitsOf(w)[18] && (w & 0x000010 != 0) == BitsOf(w)[19]
  {
    ThirdsOf(w, 0);
    ThirdsOf(w, 1);
    ThirdsOf(w, 2);
    ThirdsOf(w, 3);
  }

  lemma Four4Is(v: bv32, w: bv32)
    ensures Four4(v, w) ==
            AddFour(XorWords, 0, v, w & 0x000080 != 0, w & 0x000040 != 0, w & 0x000020 != 0, w & 0x000010 != 0,
                    0x004000, 0x001000, 0x000400, 0x000100)
  {
  }

  lemma Four4On(v: bv32, w: bv32, s: Bits)
    requires |s| == 24 && Squared(Stands, v, s, 16)
    requires (w & 0x000080 != 0) == s[16] && (w & 0x000040 != 0) == s[17]
    requires (w & 0x000020 != 0) == s[18] && (w & 0x000010 != 0) == s[19]
    ensures Squared(Stands, Four4(v, w), s, 20)
  {
    XorWordsSum();
    EvenPowers1();
    AddFourSquared(XorWords, 0, Stands, v, s, 16, 0x004000, 0x001000, 0x000400, 0x000100);
    Four4Is(v, w);
  }

  lemma Four4Squared(v: bv32, w: bv32)
    requires Squared(Stands, v, BitsOf(w), 16)
    ensures Squared(Stands, Four4(v, w), BitsOf(w), 20)
  {
    Flags4(w);
    Four4On(v, w, BitsOf(w));
  }

  function Four5(v: bv32, w: bv32): bv32 {
    XorWords(XorWords(XorWords(XorWords(v, if w & 0x000008 != 0 then 0x000040 else 0), if w & 0x000004 != 0 then 0x000010 else 0),
                      if w & 0x000002 != 0 then 0x000004 else 0), if w & 0x000001 != 0 then 0x000001 else 0)
  }

  lemma Flags5(w: bv32)
    ensures (w & 0x000008 != 0) == BitsOf(w)[20] && (w & 0x000004 != 0) == BitsOf(w)[21]
    ensures (w & 0x000002 != 0) == BitsOf(w)[22] && (w & 0x000001 != 0) == BitsOf(w)[23]
  {
    ThirdsOf(w, 4);
    ThirdsOf(w, 5);
    ThirdsOf(w, 6);
    ThirdsOf(w, 7);
  }

  lemma Four5Is(v: bv32, w: bv32)
    ensures Four5(v, w) ==
            AddFour(XorWords, 0, v, w & 0x000008 != 0, w & 0x000004 != 0, w & 0x000002 != 0, w & 0x000001 != 0,
                    0x000040, 0x000010, 0x000004, 0x000001)
  {
  }

  lemma Four5On(v: bv32, w: bv32, s: Bits)
    requires |s| == 24 && Squared(Stands, v, s, 20)
    requires (w & 0x000008 != 0) == s[20] && (w & 0x000004 != 0) == s[21]
    requires (w & 0x000002 != 0) == s[22] && (w & 0x000001 != 0) == s[23]
    ensures Squared(Stands, Four5(v, w), s, 24)
  {
    XorWordsSum();
    EvenPowers0();
    AddFourSquared(XorWords, 0, Stands, v, s, 20, 0x000040, 0x000010, 0x000004, 0x000001);
    Four5Is(v, w);
  }

  lemma Four5Squared(v: bv32, w: bv32)
    requires Squared(Stands, v, BitsOf(w), 20)
    ensures Squared(Stands, Four5(v, w), BitsOf(w), 24)
  {
    Flags5(w);
    Four5On(v, w, BitsOf(w));
  }

  /** The square of the polynomial in w's low 24 bits. */
  function SquareWord(w: bv32): bv32 {
    Four5(Four4(Four3(Four2(Four1(Four0(0, w), w), w), w), w), w)
  }

  lemma NoneSquared(r: Residue)
    ensures Squared(Stands, 0, r, 0)
  {
    SquareOfZeros(24);
    WordOne();
    assert Front(r, 0) == Zeros(24);
  }

  lemma SquareWordStands(w: bv32)
    ensures Stands(SquareWord(w), Square(BitsOf(w)))
  {
    NoneSquared(BitsOf(w));
    Four0Squared(0, w);
    var v1 := Four0(0, w);
    Four1Squared(v1, w);
    var v2 := Four1(v1, w);
    Four2Squared(v2, w);
    var v3 := Four2(v2, w);
    Four3Squared(v3, w);
    var v4 := Four3(v3, w);
    Four4Squared(v4, w);
    Four5Squared(Four4(v4, w), w);
    assert Front(BitsOf(w), 24) == BitsOf(w);
  }

  ghost predicate Asked(w: bv32) { true }

  /** f squares words; the question is asked word by word. */
  ghost predicate IsSquare(f: bv32 -> bv32) {
    forall w {:trigger Asked(w)} :: f(w) == SquareWord(w)
  }

  lemma SquareExists() returns (f: bv32 -> bv32)
    ensures IsSquare(f)
  {
    f := (w: bv32) => SquareWord(w);
  }

  lemma SquareStands(f: bv32 -> bv32, w: bv32, r: Residue)
    requires IsSquare(f) && Stands(w, r)
    ensures Stands(f(w), Square(r))
  {
    assert Asked(w);
    SquareWordStands(w);
    BitsOfLow(w);
    assert Low(w) == r;
  }

  lemma TailSquared(f: bv32 -> bv32)
    requires IsSquare(f)
    ensures f(0x864cfb) == 0x360952
  {
    assert Asked(0x864cfb);
  }

  lemma SquareOfTail()
    ensures Stands(0x360952, Square(TAIL))
  {
    var f := SquareExists();
    Pow24();
    SquareStands(f, 0x864cfb, TAIL);
    TailSquared(f);
  }

  lemma PowTwoMore(n: nat)
    requires n > 0
    ensures Pow(2 * n) == Times(Times(Pow(2 * (n - 1))))
  {
    assert Pow(2 * n) == Times(Shift(2 * n - 1, ONE));
    assert Shift(2 * n - 1, ONE) == Times(Shift(2 * n - 2, ONE));
  }

  lemma SquareTwoMore(s: Bits)
    ensures Square(s + [false]) == Times(Times(Square(s)))
  {
    SquareSnoc(s, false);
    assert Const(false) == Zeros(24);
    assert Xor(Times(Times(Square(s))), Zeros(24)) == Times(Times(Square(s)));
  }

  lemma SquareOfOne()
    ensures Square([true]) == ONE
  {
    assert [true] == [] + [true];
    SquareSnoc([], true);
    assert Square([]) == Zeros(24);
    TimesZero(Zeros(24));
    assert Xor(Zeros(24), Const(true)) == ONE;
  }

  lemma {:induction false} SquareOfMonomial(n: nat)
    ensures Square([true] + Zeros(n)) == Pow(2 * n)
  {
    if n == 0 {
      assert [true] + Zeros(0) == [true];
      SquareOfOne();
    } else {
      SquareOfMonomial(n - 1);
      assert [true] + Zeros(n) == ([true] + Zeros(n - 1)) + [false];
      SquareTwoMore([true] + Zeros(n - 1));
      PowTwoMore(n);
    }
  }

  lemma SquareOfGenerator()
    ensures Square(GENERATOR) == Zeros(24)
  {
    var a, b := [true] + Zeros(24), [false] + TAIL;
    assert GENERATOR == Xor(a, b);
    SquareXor(a, b);
    SquareOfMonomial(24);
    SquareLeadingZero(TAIL);
    SquareOfTail();
    Pow48();
    SameWord(0x360952, Square(TAIL), Pow(48));
    XorSelf(Pow(48));
  }

  lemma SameWord(w: bv32, r: Residue, s: Residue)
    requires Stands(w, r) && Stands(w, s)
    ensures r == s
  {
    assert (Zeros(8) + r)[8..] == r && (Zeros(8) + s)[8..] == s;
  }

  lemma {:induction false} SquareLeadingZeros(n: nat, s: Bits)
    ensures Square(Zeros(n) + s) == Square(s)
  {
    if n == 0 {
      assert Zeros(0) + s == s;
    } else {
      SquareLeadingZeros(n - 1, s);
      assert Zeros(n) + s == [false] + (Zeros(n - 1) + s);
      SquareLeadingZero(Zeros(n - 1) + s);
    }
  }

  /** Squaring modulo the generator doubles the exponent. */
  lemma {:induction false} PowDouble(n: nat)
    ensures Square(Pow(n)) == Pow(2 * n)
  {
    if n == 0 {
      SquareLeadingZeros(23, [true]);
      SquareOfOne();
    } else {
      PowDouble(n - 1);
      SquareOfGenerator();
      SquareStep(Pow(n - 1));
      PowTwoMore(n);
    }
  }

  lemma PowSquared(f: bv32 -> bv32, w: bv32, n: nat)
    requires IsSquare(f) && IsPow(w, n)
    ensures IsPow(f(w), 2 * n)
  {
    SquareStands(f, w, Pow(n));
    PowDouble(n);
  }
}
