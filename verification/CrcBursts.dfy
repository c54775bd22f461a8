/** How many bursts crc24q_check misses: the last claim in the header of crc24q.c. */
module CrcBursts {
  import opened BitSeq
  import opened Gf2
  import opened Crc24q
  import opened CrcErrors
  import Bytes

  // ----- products and their end bits

  /** What the last bit of a factor adds. */
  function Row(n: nat, b: bool): (g: Bits)
    ensures |g| == n + 25
  {
    if b then Zeros(n) + GENERATOR else Zeros(n + 25)
  }

  lemma RowEnds(n: nat, b: bool)
    ensures Row(n, b)[n + 24] == b
    ensures Row(n, b)[0] == (n == 0 && b)
  {
    assert GENERATOR[0] && GENERATOR[24] == TAIL[23];
    assert TAIL[23] == OfByte(0xFB)[7];
  }

  lemma ProductUnfolds(s: Bits)
    requires s != []
    ensures Product(s) == Xor(Product(s[..|s| - 1]) + [false], Row(|s| - 1, s[|s| - 1]))
  {
  }

  lemma LastOfProduct(q: Bits)
    requires q != []
    ensures Product(q)[|q| + 23] == q[|q| - 1]
  {
    ProductUnfolds(q);
    RowEnds(|q| - 1, q[|q| - 1]);
  }

  lemma {:induction false} FirstOfProduct(q: Bits)
    requires q != []
    ensures Product(q)[0] == q[0]
    decreases |q|
  {
    ProductUnfolds(q);
    RowEnds(|q| - 1, q[|q| - 1]);
    if |q| > 1 {
      FirstOfProduct(q[..|q| - 1]);
    }
  }

  lemma XorSame(p: Bits, q: Bits, g: Bits)
    requires |p| == |q| && |g| == |p| + 1 && Xor(p + [false], g) == Xor(q + [false], g)
    ensures p == q
  {
    forall i | 0 <= i < |p|
      ensures p[i] == q[i]
    {
      assert Xor(p + [false], g)[i] == (p[i] != g[i]);
      assert Xor(q + [false], g)[i] == (q[i] != g[i]);
    }
  }

  lemma {:induction false} ProductInjective(p: Bits, q: Bits)
    requires |p| == |q| && Product(p) == Product(q)
    ensures p == q
    decreases |p|
  {
    if p != [] {
      var n := |p| - 1;
      LastOfProduct(p);
      LastOfProduct(q);
      ProductUnfolds(p);
      ProductUnfolds(q);
      XorSame(Product(p[..n]), Product(q[..n]), Row(n, p[n]));
      ProductInjective(p[..n], q[..n]);
      assert p == p[..n] + [p[n]] && q == q[..n] + [q[n]];
    }
  }

  // ----- counting

  function Image<A, B>(s: set<A>, f: A -> B): set<B> {
    set x | x in s :: f(x)
  }

  ghost predicate Injective<A, B>(s: set<A>, f: A -> B) {
    forall x, y :: x in s && y in s && f(x) == f(y) ==> x == y
  }

  lemma {:induction false} ImageSize<A, B>(s: set<A>, f: A -> B)
    requires Injective(s, f)
    ensures |Image(s, f)| == |s|
    decreases |s|
  {
    if s == {} {
      assert Image(s, f) == {};
    } else {
      var x :| x in s;
      var rest := s - {x};
      ImageSize(rest, f);
      assert Image(s, f) == Image(rest, f) + {f(x)};
    }
  }

  lemma InImage<A, B>(s: set<A>, f: A -> B, x: A)
    requires x in s
    ensures f(x) in Image(s, f)
  {
  }

  function Appending(b: bool): Bits -> Bits {
    (s: Bits) => s + [b]
  }

  /** All strings of k bits. */
  function Strings(k: nat): (all: set<Bits>) {
    if k == 0 then {[]}
    else Image(Strings(k - 1), Appending(false)) + Image(Strings(k - 1), Appending(true))
  }

  lemma AppendInjective(all: set<Bits>, b: bool)
    ensures Injective(all, Appending(b))
  {
    forall x, y | x in all && y in all && Appending(b)(x) == Appending(b)(y)
      ensures x == y
    {
      assert (x + [b])[..|x|] == x && (y + [b])[..|y|] == y;
    }
  }

  lemma {:induction false} StringsAre(k: nat, s: Bits)
    ensures s in Strings(k) <==> |s| == k
  {
    if k == 0 {
      assert |s| == 0 ==> s == [];
    } else if |s| == k {
      var t, b := s[..k - 1], s[k - 1];
      StringsAre(k - 1, t);
      assert s == t + [b];
      InImage(Strings(k - 1), Appending(b), t);
    } else if s in Strings(k) {
      var t, b :| t in Strings(k - 1) && s == Appending(b)(t);
      StringsAre(k - 1, t);
      assert false;
    }
  }

  lemma EndsDiffer(all: set<Bits>)
    ensures Image(all, Appending(false)) !! Image(all, Appending(true))
  {
    forall s: Bits, t: Bits
      ensures s + [false] != t + [true]
    {
      assert (s + [false])[|s + [false]| - 1] != (t + [true])[|t + [true]| - 1];
    }
  }

  lemma BothEndings(all: set<Bits>)
    ensures |Image(all, Appending(false)) + Image(all, Appending(true))| == 2 * |all|
  {
    AppendInjective(all, false);
    AppendInjective(all, true);
    ImageSize(all, Appending(false));
    ImageSize(all, Appending(true));
    EndsDiffer(all);
  }

  lemma {:induction false} StringsCount(k: nat)
    ensures |Strings(k)| == Bytes.Pow2(k)
  {
    if k > 0 {
      StringsCount(k - 1);
      BothEndings(Strings(k - 1));
    }
  }

  /** m between two set bits. */
  function Ended(m: Bits): Bits {
    [true] + m + [true]
  }

  lemma EndedInjective(all: set<Bits>)
    ensures Injective(all, Ended)
  {
    forall x, y | x in all && y in all && Ended(x) == Ended(y)
      ensures x == y
    {
      assert Ended(x)[1..|x| + 1] == x && Ended(y)[1..|y| + 1] == y;
    }
  }

  /** The bursts that span n bits: the first and the last are wrong, any in between. */
  function Bursts(n: nat): set<Bits>
    requires n >= 2
  {
    Image(Strings(n - 2), Ended)
  }

  lemma BurstsAre(n: nat, b: Bits)
    requires n >= 2
    ensures b in Bursts(n) <==> |b| == n && b[0] && b[n - 1]
  {
    if |b| == n && b[0] && b[n - 1] {
      StringsAre(n - 2, b[1..n - 1]);
      assert b == Ended(b[1..n - 1]);
    }
    if b in Bursts(n) {
      var m :| m in Strings(n - 2) && b == Ended(m);
      StringsAre(n - 2, m);
    }
  }

  lemma BurstsCount(n: nat)
    requires n >= 2
    ensures |Bursts(n)| == Bytes.Pow2(n - 2)
  {
    StringsCount(n - 2);
    EndedInjective(Strings(n - 2));
    ImageSize(Strings(n - 2), Ended);
  }

  // ----- the bursts that escape

  /** The factors of bursts: strings of k bits with both ends set. */
  function Factors(k: nat): set<Bits>
    requires k >= 1
  {
    if k == 1 then {[true]} else Bursts(k)
  }

  lemma FactorsAre(k: nat, q: Bits)
    requires k >= 1
    ensures q in Factors(k) <==> |q| == k && q[0] && q[k - 1]
  {
    if k == 1 {
      assert |q| == 1 && q[0] ==> q == [true];
    } else {
      BurstsAre(k, q);
    }
  }

  /** The bursts spanning n bits that are products of the generator. */
  function Escaping(n: nat): set<Bits>
    requires n >= 25
  {
    Image(Factors(n - 24), Product)
  }

  lemma EscapingAre(n: nat, b: Bits)
    requires n >= 25
    ensures b in Escaping(n) <==> b in Bursts(n) && Rem(b) == Zeros(24)
  {
    BurstsAre(n, b);
    if b in Escaping(n) {
      var q :| q in Factors(n - 24) && b == Product(q);
      FactorsAre(n - 24, q);
      FirstOfProduct(q);
      LastOfProduct(q);
      RemProduct(q);
    }
    if b in Bursts(n) && Rem(b) == Zeros(24) {
      RemZeroIsMultiple(b);
      var q :| |q| == n - 24 && b == Product(q);
      FirstOfProduct(q);
      LastOfProduct(q);
      FactorsAre(n - 24, q);
    }
  }

  /** A longer burst goes unnoticed exactly when it is one of the escaping patterns, wherever it strikes. */
  lemma LongBurst(d: seq<bv8>, e: seq<bv8>, i: nat, n: nat)
    requires Accepts(d) && |e| == |d| && n >= 25 && Within(Difference(d, e), i, n)
    requires Difference(d, e)[i] && Difference(d, e)[i + n - 1]
    ensures Difference(d, e)[i..i + n] in Bursts(n)
    ensures Accepts(e) <==> Difference(d, e)[i..i + n] in Escaping(n)
  {
    var b := Difference(d, e)[i..i + n];
    UndetectedIffMultiple(d, e);
    RemOfWindow(Difference(d, e), i, n);
    BurstsAre(n, b);
    EscapingAre(n, b);
  }

  lemma EscapingCount(n: nat)
    requires n >= 25
    ensures |Escaping(n)| == if n == 25 then 1 else Bytes.Pow2(n - 26)
  {
    var qs := Factors(n - 24);
    forall p, q | p in qs && q in qs && Product(p) == Product(q)
      ensures p == q
    {
      FactorsAre(n - 24, p);
      FactorsAre(n - 24, q);
      ProductInjective(p, q);
    }
    assert Injective(qs, Product);
    ImageSize(qs, Product);
    if n > 25 {
      BurstsCount(n - 24);
    }
  }

  lemma EscapingAreBursts(n: nat)
    requires n >= 25
    ensures Escaping(n) <= Bursts(n)
  {
    forall b | b in Escaping(n)
      ensures b in Bursts(n)
    {
      EscapingAre(n, b);
    }
  }

  lemma Pow2Of23(k: nat)
    requires k == 23
    ensures Bytes.Pow2(k) == 8388608
  {
    Bytes.PowAdd(11, 12);
    assert Bytes.Pow2(11) == 2048 && Bytes.Pow2(12) == 4096;
  }

  lemma Pow2Of24(k: nat)
    ensures Bytes.Pow2(k + 24) == 16777216 * Bytes.Pow2(k)
  {
    Pow2Of23(23);
    Bytes.PowAdd(24, k);
    assert Bytes.Pow2(24) == 2 * Bytes.Pow2(23);
  }

  lemma BurstsSize(n: nat, k: nat)
    requires n >= 25 && k == n - 2
    ensures |Bursts(n)| == if n == 25 then 8388608 else 16777216 * Bytes.Pow2(n - 26)
  {
    BurstsCount(n);
    if n == 25 {
      Pow2Of23(k);
    } else {
      Pow2Of24(n - 26);
    }
  }

  /** Claim 5: of the bursts spanning n > 24 bits one in 2^23 escapes, or one in 2^24 when n > 25. */
  lemma EscapesAreRare(n: nat)
    requires n >= 25
    ensures Escaping(n) <= Bursts(n)
    ensures |Bursts(n)| == |Escaping(n)| * if n == 25 then 8388608 else 16777216
  {
    EscapingAreBursts(n);
    BurstsSize(n, n - 2);
    EscapingCount(n);
  }
}
