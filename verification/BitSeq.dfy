/** Strings of bits, most significant bit first, as every decoder of the system reads them. */
module BitSeq {

  type Bits = seq<bool>

  function Zeros(n: nat): (z: Bits)
    ensures |z| == n
  {
    seq(n, i => false)
  }

  /** Bitwise exclusive or of two strings of the same length. */
  function Xor(a: Bits, b: Bits): (c: Bits)
    requires |a| == |b|
    ensures |c| == |a|
  {
    seq(|a|, i requires 0 <= i < |a| => a[i] != b[i])
  }

  lemma XorAssoc(a: Bits, b: Bits, c: Bits)
    requires |a| == |b| == |c|
    ensures Xor(Xor(a, b), c) == Xor(a, Xor(b, c))
  {
  }

  lemma XorConcat(a: Bits, b: Bits, c: Bits, d: Bits)
    requires |a| == |b| && |c| == |d|
    ensures Xor(a + c, b + d) == Xor(a, b) + Xor(c, d)
  {
  }

  lemma XorExchange(a: Bits, b: Bits, c: Bits, d: Bits)
    requires |a| == |b| == |c| == |d|
    ensures Xor(Xor(a, b), Xor(c, d)) == Xor(Xor(a, c), Xor(b, d))
  {
  }

  function Ones(a: Bits): nat {
    if a == [] then 0 else Ones(a[..|a|-1]) + (if a[|a|-1] then 1 else 0)
  }

  lemma {:induction false} OnesOfZeros(n: nat)
    ensures Ones(Zeros(n)) == 0
  {
    if n > 0 {
      assert Zeros(n)[..n-1] == Zeros(n-1);
      OnesOfZeros(n - 1);
    }
  }

  function Mask(i: nat): bv8
    requires i < 8
  {
    if i < 4 then
      if i < 2 then if i == 0 then 0x80 else 0x40 else if i == 2 then 0x20 else 0x10
    else
      if i < 6 then if i == 4 then 0x08 else 0x04 else if i == 6 then 0x02 else 0x01
  }

  predicate Has(b: bv8, i: nat)
    requires i < 8
  {
    b & Mask(i) != 0
  }

  /** The eight bits of a byte. */
  function OfByte(b: bv8): (s: Bits)
    ensures |s| == 8
  {
    seq(8, i requires 0 <= i < 8 => Has(b, i))
  }

  lemma OfByteInjective(a: bv8, b: bv8)
    requires OfByte(a) == OfByte(b)
    ensures a == b
  {
    forall i | 0 <= i < 8
      ensures Has(a, i) == Has(b, i)
    {
      assert OfByte(a)[i] == OfByte(b)[i];
    }
    assert Has(a, 0) == Has(b, 0) && Has(a, 1) == Has(b, 1) && Has(a, 2) == Has(b, 2) && Has(a, 3) == Has(b, 3);
    assert Has(a, 4) == Has(b, 4) && Has(a, 5) == Has(b, 5) && Has(a, 6) == Has(b, 6) && Has(a, 7) == Has(b, 7);
  }

  function OfBytes(d: seq<bv8>): (s: Bits)
    ensures |s| == 8 * |d|
  {
    if d == [] then [] else OfBytes(d[..|d|-1]) + OfByte(d[|d|-1])
  }

  lemma OfBytesSnoc(d: seq<bv8>, b: bv8)
    ensures OfBytes(d + [b]) == OfBytes(d) + OfByte(b)
  {
    assert (d + [b])[..|d|] == d;
  }

  lemma {:induction false} OfBytesConcat(d: seq<bv8>, e: seq<bv8>)
    ensures OfBytes(d + e) == OfBytes(d) + OfBytes(e)
  {
    if e == [] {
      assert d + e == d;
    } else {
      var e', b := e[..|e|-1], e[|e|-1];
      assert d + e == (d + e') + [b];
      OfBytesConcat(d, e');
      OfBytesSnoc(d + e', b);
    }
  }

  lemma {:induction false} OfBytesOfZeros(d: seq<bv8>)
    requires forall i :: 0 <= i < |d| ==> d[i] == 0
    ensures OfBytes(d) == Zeros(8 * |d|)
  {
    if d != [] {
      OfBytesOfZeros(d[..|d|-1]);
    }
  }

  /** Exclusive or of two buffers, byte by byte. */
  function XorBytes(d: seq<bv8>, e: seq<bv8>): (x: seq<bv8>)
    requires |d| == |e|
    ensures |x| == |d|
  {
    seq(|d|, i requires 0 <= i < |d| => d[i] ^ e[i])
  }

  lemma MaskXor(a: bv8, b: bv8, m: bv8)
    requires m & (m - 1) == 0
    ensures ((a ^ b) & m != 0) == ((a & m != 0) != (b & m != 0))
  {
  }

  lemma OfByteXor(a: bv8, b: bv8)
    ensures OfByte(a ^ b) == Xor(OfByte(a), OfByte(b))
  {
    forall i | 0 <= i < 8
      ensures OfByte(a ^ b)[i] == Xor(OfByte(a), OfByte(b))[i]
    {
      assert Mask(i) & (Mask(i) - 1) == 0;
      MaskXor(a, b, Mask(i));
    }
  }

  lemma {:induction false} OfBytesXor(d: seq<bv8>, e: seq<bv8>)
    requires |d| == |e|
    ensures OfBytes(XorBytes(d, e)) == Xor(OfBytes(d), OfBytes(e))
  {
    if d != [] {
      var n := |d| - 1;
      assert XorBytes(d, e)[..n] == XorBytes(d[..n], e[..n]);
      OfBytesXor(d[..n], e[..n]);
      OfByteXor(d[n], e[n]);
      XorConcat(OfBytes(d[..n]), OfBytes(e[..n]), OfByte(d[n]), OfByte(e[n]));
    }
  }
}
