/** bsd_base64.c: the encoding of section 5.2 of RFC 1521. */
module Base64 {
  import opened Bytes
  import opened Options

  /** The alphabet's 64 characters, which stand in four runs. */
  function Letter(v: nat): char
    requires v < 64
  {
    if v < 26 then 'A' + v as char
    else if v < 52 then 'a' + (v - 26) as char
    else if v < 62 then '0' + (v - 52) as char
    else if v == 62 then '+' else '/'
  }

  function ValueOf(c: char): (v: Option<nat>)
    ensures v.Some? <==> exists k: nat :: k < 64 && Letter(k) == c
    ensures v.Some? ==> v.value < 64 && Letter(v.value) == c
  {
    if 'A' <= c <= 'Z' then
      assert Letter((c - 'A') as nat) == c;
      Some((c - 'A') as nat)
    else if 'a' <= c <= 'z' then
      assert Letter((c - 'a') as nat + 26) == c;
      Some((c - 'a') as nat + 26)
    else if '0' <= c <= '9' then
      assert Letter((c - '0') as nat + 52) == c;
      Some((c - '0') as nat + 52)
    else if c == '+' then
      assert Letter(62) == c;
      Some(62)
    else if c == '/' then
      assert Letter(63) == c;
      Some(63)
    else None
  }

  lemma FirstSixteen(v: nat)
    requires v < 16
    ensures Letter(v) == "ABCDEFGHIJKLMNOP"[v]
  {
    match v
    case 0 => case 1 => case 2 => case 3 => case 4 => case 5 => case 6 => case 7 => case 8 =>
    case 9 => case 10 => case 11 => case 12 => case 13 => case 14 => case _ =>
  }

  lemma SecondSixteen(v: nat)
    requires v < 16
    ensures Letter(v + 16) == "QRSTUVWXYZabcdef"[v]
  {
    match v
    case 0 => case 1 => case 2 => case 3 => case 4 => case 5 => case 6 => case 7 => case 8 =>
    case 9 => case 10 => case 11 => case 12 => case 13 => case 14 => case _ =>
  }

  lemma ThirdSixteen(v: nat)
    requires v < 16
    ensures Letter(v + 32) == "ghijklmnopqrstuv"[v]
  {
    match v
    case 0 => case 1 => case 2 => case 3 => case 4 => case 5 => case 6 => case 7 => case 8 =>
    case 9 => case 10 => case 11 => case 12 => case 13 => case 14 => case _ =>
  }

  lemma FourthSixteen(v: nat)
    requires v < 16
    ensures Letter(v + 48) == "wxyz0123456789+/"[v]
  {
    match v
    case 0 => case 1 => case 2 => case 3 => case 4 => case 5 => case 6 => case 7 => case 8 =>
    case 9 => case 10 => case 11 => case 12 => case 13 => case 14 => case _ =>
  }

  /** The alphabet in the order of the standard's table. */
  lemma LetterIs(v: nat)
    requires v < 64
    ensures Letter(v) ==
            if v < 16 then "ABCDEFGHIJKLMNOP"[v] else if v < 32 then "QRSTUVWXYZabcdef"[v - 16]
            else if v < 48 then "ghijklmnopqrstuv"[v - 32] else "wxyz0123456789+/"[v - 48]
  {
    if v < 16 {
      FirstSixteen(v);
    } else if v < 32 {
      SecondSixteen(v - 16);
    } else if v < 48 {
      ThirdSixteen(v - 32);
    } else {
      FourthSixteen(v - 48);
    }
  }

  lemma LetterValue(v: nat)
    requires v < 64
    ensures ValueOf(Letter(v)) == Some(v) && Letter(v) != '='
  {
  }

  type Digits = seq<nat>

  predicate Valid(ds: Digits) {
    forall i :: 0 <= i < |ds| ==> ds[i] < 64
  }

  // ----- the encoder

  /** Three bytes as four six-bit digits. */
  function Quantum(a: byte, b: byte, c: byte): (ds: Digits)
    ensures |ds| == 4 && Valid(ds)
  {
    [a / 4, a % 4 * 16 + b / 16, b % 16 * 4 + c / 64, c % 64]
  }

  function DigitsOf(data: seq<byte>): (ds: Digits)
    ensures Valid(ds) && |ds| == (4 * |data| + 2) / 3
  {
    if |data| >= 3 then Quantum(data[0], data[1], data[2]) + DigitsOf(data[3..])
    else if |data| == 2 then Quantum(data[0], data[1], 0)[..3]
    else if |data| == 1 then Quantum(data[0], 0, 0)[..2]
    else []
  }

  function Letters(ds: Digits): (s: string)
    requires Valid(ds)
    ensures |s| == |ds|
  {
    seq(|ds|, i requires 0 <= i < |ds| => Letter(ds[i]))
  }

  function Padding(n: nat): (s: string)
    ensures |s| == (3 - n % 3) % 3
  {
    if n % 3 == 1 then "==" else if n % 3 == 2 then "=" else ""
  }

  function Encode(data: seq<byte>): (s: string)
    ensures |s| == 4 * ((|data| + 2) / 3)
  {
    Letters(DigitsOf(data)) + Padding(|data|)
  }

  lemma EncodeThree(data: seq<byte>)
    requires |data| >= 3
    ensures Encode(data) == Letters(Quantum(data[0], data[1], data[2])) + Encode(data[3..])
  {
    var quad, rest := Quantum(data[0], data[1], data[2]), data[3..];
    LettersConcat(quad, DigitsOf(rest));
    assert Padding(|data|) == Padding(|rest|);
    Associate(Letters(quad), Letters(DigitsOf(rest)), Padding(|rest|));
  }

  lemma LettersConcat(a: Digits, b: Digits)
    requires Valid(a) && Valid(b)
    ensures Valid(a + b) && Letters(a + b) == Letters(a) + Letters(b)
  {
  }

  lemma Associate(a: string, b: string, c: string)
    ensures a + b + c == a + (b + c)
  {
  }

  method PutLetters(target: array<char>, at: nat, a: nat, b: nat, c: char, d: char)
    requires at + 4 <= target.Length && a < 64 && b < 64
    modifies target
    ensures target[..at + 4] == old(target[..at]) + [Letter(a), Letter(b), c, d]
  {
    target[at] := Letter(a);
    target[at + 1] := Letter(b);
    target[at + 2] := c;
    target[at + 3] := d;
  }

  method PutQuantum(target: array<char>, at: nat, a: byte, b: byte, c: byte)
    requires at + 4 <= target.Length
    modifies target
    ensures target[..at + 4] == old(target[..at]) + Letters(Quantum(a, b, c))
  {
    PutLetters(target, at, a / 4, a % 4 * 16 + b / 16, Letter(b % 16 * 4 + c / 64), Letter(c % 64));
  }

  /** The whole quanta; none left to write when the target is full. */
  method EncodeQuanta(src: seq<byte>, target: array<char>, targsize: nat) returns (ok: bool, at: nat, datalength: nat)
    requires targsize <= target.Length
    modifies target
    ensures ok ==> at <= |src| <= at + 2 && datalength <= targsize
    ensures ok ==> target[..datalength] + Encode(src[at..]) == Encode(src)
    ensures !ok ==> targsize < |Encode(src)|
  {
    ok, at, datalength := true, 0, 0;
    assert target[..0] + Encode(src[0..]) == Encode(src) by {
      assert src[0..] == src;
    }
    while |src| - at > 2
      modifies target
      invariant at <= |src| && datalength <= targsize
      invariant target[..datalength] + Encode(src[at..]) == Encode(src)
    {
      EncodeThree(src[at..]);
      SkipThree(src, at);
      if datalength + 4 > targsize {
        ok := false;
        return;
      }
      ghost var done, quad := target[..datalength], Letters(Quantum(src[at], src[at + 1], src[at + 2]));
      PutQuantum(target, datalength, src[at], src[at + 1], src[at + 2]);
      Associate(done, quad, Encode(src[at + 3..]));
      datalength := datalength + 4;
      at := at + 3;
    }
  }

  lemma SkipThree(src: seq<byte>, at: nat)
    requires at + 3 <= |src|
    ensures src[at..][3..] == src[at + 3..] && src[at..][0] == src[at]
    ensures src[at..][1] == src[at + 1] && src[at..][2] == src[at + 2]
  {
  }

  lemma Remainder(data: seq<byte>)
    requires 1 <= |data| <= 2
    ensures var a, b := data[0], if |data| == 2 then data[1] else 0;
            Encode(data) == [Letter(a / 4), Letter(a % 4 * 16 + b / 16),
                             if |data| == 1 then '=' else Letter(b % 16 * 4 + 0 / 64), '=']
  {
  }

  /** The last quantum, of one or two bytes. */
  method PutRest(src: seq<byte>, at: nat, target: array<char>, datalength: nat)
    requires at < |src| <= at + 2 && datalength + 4 <= target.Length
    modifies target
    ensures target[..datalength + 4] == old(target[..datalength]) + Encode(src[at..])
  {
    var left := |src| - at;
    var a, b := src[at], if left == 2 then src[at + 1] else 0;
    Remainder(src[at..]);
    PutLetters(target, datalength, a / 4, a % 4 * 16 + b / 16, if left == 1 then '=' else Letter(b % 16 * 4 + 0 / 64),
               '=');
  }

  method B64Ntop(src: seq<byte>, target: array<char>, targsize: nat) returns (r: int)
    requires targsize <= target.Length
    modifies target
    ensures r == -1 <==> targsize <= 4 * ((|src| + 2) / 3)
    ensures r != -1 ==> 0 <= r < targsize && target[..r] == Encode(src) && target[r] == '\0'
  {
    var ok, at, datalength := EncodeQuanta(src, target, targsize);
    if !ok {
      return -1;
    }
    var left := |src| - at;
    if left != 0 {
      if datalength + 4 > targsize {
        return -1;
      }
      PutRest(src, at, target, datalength);
      datalength := datalength + 4;
    } else {
      assert Encode(src[at..]) == "";
      assert target[..datalength] + "" == target[..datalength];
    }
    if datalength >= targsize {
      return -1;
    }
    target[datalength] := '\0';
    return datalength;
  }

  // ----- what the digits spell

  function SixBits(ds: Digits): (s: Bits)
    ensures |s| == 6 * |ds|
  {
    if ds == [] then [] else OfNat(ds[0], 6) + SixBits(ds[1..])
  }

  lemma {:induction false} SixBitsConcat(a: Digits, b: Digits)
    ensures SixBits(a + b) == SixBits(a) + SixBits(b)
  {
    if a == [] {
      assert a + b == b;
    } else {
      SixBitsConcat(a[1..], b);
      assert (a + b)[1..] == a[1..] + b && (a + b)[0] == a[0];
    }
  }

  lemma {:induction false} OfNatSplit(x: nat, m: nat, k: nat)
    ensures OfNat(x, m + k) == OfNat(Shr(x, k), m) + OfNat(Low(x, k), k)
    decreases k
  {
    if k == 0 {
      assert OfNat(x, m) + [] == OfNat(x, m);
    } else {
      OfNatSplit(x / 2, m, k - 1);
      assert Low(x, k) / 2 == Low(x / 2, k - 1) && Low(x, k) % 2 == x % 2;
    }
  }

  lemma Div4(x: nat)
    ensures Shr(x, 2) == x / 4 && Low(x, 2) == x % 4
  {
    ShiftAndMaskDivide(x, 2);
    assert Pow2(2) == 4;
  }

  lemma Div16(x: nat)
    ensures Shr(x, 4) == x / 16 && Low(x, 4) == x % 16
  {
    ShiftAndMaskDivide(x, 4);
    assert Pow2(4) == 16;
  }

  lemma Div64(x: nat)
    ensures Shr(x, 6) == x / 64 && Low(x, 6) == x % 64
  {
    ShiftAndMaskDivide(x, 6);
    assert Pow2(6) == 64;
  }

  lemma OfNatParts(y: nat, h: nat, l: nat, m: nat, k: nat)
    requires Shr(y, k) == h && Low(y, k) == l
    ensures OfNat(y, m + k) == OfNat(h, m) + OfNat(l, k)
  {
    OfNatSplit(y, m, k);
  }

  // the last two, four or six bits of a number
  lemma LastTwo(y: nat, h: nat, l: nat, m: nat)
    requires l < 4 && y == 4 * h + l
    ensures OfNat(y, m + 2) == OfNat(h, m) + OfNat(l, 2)
  {
    Div4(y);
    OfNatParts(y, h, l, m, 2);
  }

  lemma LastFour(y: nat, h: nat, l: nat, m: nat)
    requires l < 16 && y == 16 * h + l
    ensures OfNat(y, m + 4) == OfNat(h, m) + OfNat(l, 4)
  {
    Div16(y);
    OfNatParts(y, h, l, m, 4);
  }

  lemma LastSix(y: nat, h: nat, l: nat, m: nat)
    requires l < 64 && y == 64 * h + l
    ensures OfNat(y, m + 6) == OfNat(h, m) + OfNat(l, 6)
  {
    Div64(y);
    OfNatParts(y, h, l, m, 6);
  }

  lemma TwoDigits(a: nat, b: nat)
    ensures SixBits([a, b]) == OfNat(a, 6) + OfNat(b, 6)
  {
    assert [a, b][1..] == [b] && [b][1..] == [];
    assert OfNat(b, 6) + [] == OfNat(b, 6);
  }

  lemma FourDigits(a: nat, b: nat, c: nat, d: nat)
    ensures SixBits([a, b, c, d]) == OfNat(a, 6) + OfNat(b, 6) + OfNat(c, 6) + OfNat(d, 6)
  {
    TwoDigits(a, b);
    TwoDigits(c, d);
    SixBitsConcat([a, b], [c, d]);
    assert [a, b, c, d] == [a, b] + [c, d];
    BitsAssociate(OfNat(a, 6) + OfNat(b, 6), OfNat(c, 6), OfNat(d, 6));
  }

  /** The first two digits of a quantum, and the last two; h and l are the halves of the middle byte. */
  lemma FrontDigits(a: byte, p: nat, a2: nat, h: nat, q: nat)
    requires a2 < 4 && a == 4 * p + a2 && h < 16 && q == 16 * a2 + h
    ensures OfNat(p, 6) + OfNat(q, 6) == OfByte(a) + OfNat(h, 4)
  {
    LastTwo(a, p, a2, 6);
    LastFour(q, a2, h, 2);
    BitsAssociate(OfNat(p, 6), OfNat(a2, 2), OfNat(h, 4));
  }

  lemma BackDigits(l: nat, c: byte, c1: nat, t: nat, r: nat)
    requires c1 < 4 && t < 64 && c == 64 * c1 + t && r == 4 * l + c1
    ensures OfNat(r, 6) + OfNat(t, 6) == OfNat(l, 4) + OfByte(c)
  {
    LastSix(c, c1, t, 2);
    LastTwo(r, l, c1, 4);
    BitsAssociate(OfNat(l, 4), OfNat(c1, 2), OfNat(t, 6));
  }

  lemma Halves(a: Bits, h: Bits, l: Bits, c: Bits, b: Bits, p: Bits, q: Bits, r: Bits, t: Bits)
    requires p + q == a + h && r + t == l + c && b == h + l
    ensures p + q + r + t == a + b + c
  {
    assert p + q + r + t == (p + q) + (r + t);
    assert (a + h) + (l + c) == a + (h + l) + c;
  }

  lemma QuantumOf(a: byte, b: byte, c: byte, p: nat, a2: nat, h: nat, l: nat, c1: nat, t: nat, q: nat, r: nat)
    requires a2 < 4 && a == 4 * p + a2 && h < 16 && q == 16 * a2 + h
    requires l < 16 && b == 16 * h + l
    requires c1 < 4 && t < 64 && c == 64 * c1 + t && r == 4 * l + c1
    ensures SixBits([p, q, r, t]) == OfByte(a) + OfByte(b) + OfByte(c)
  {
    FrontDigits(a, p, a2, h, q);
    BackDigits(l, c, c1, t, r);
    LastFour(b, h, l, 4);
    FourDigits(p, q, r, t);
    Halves(OfByte(a), OfNat(h, 4), OfNat(l, 4), OfByte(c), OfByte(b), OfNat(p, 6), OfNat(q, 6), OfNat(r, 6), OfNat(t, 6));
  }

  /** A quantum's digits spell its bytes. */
  lemma QuantumBits(a: byte, b: byte, c: byte)
    ensures SixBits(Quantum(a, b, c)) == OfByte(a) + OfByte(b) + OfByte(c)
  {
    QuantumOf(a, b, c, a / 4, a % 4, b / 16, b % 16, c / 64, c % 64, a % 4 * 16 + b / 16, b % 16 * 4 + c / 64);
  }

  function Spare(n: nat): nat {
    if n % 3 == 1 then 4 else if n % 3 == 2 then 2 else 0
  }

  lemma ThreeBytes(a: byte, b: byte, c: byte)
    ensures OfBytes([a, b, c]) == OfByte(a) + OfByte(b) + OfByte(c)
    ensures OfBytes([a, b]) == OfByte(a) + OfByte(b)
  {
    OfBytesOne(a);
    OfBytesOne(b);
    OfBytesOne(c);
    OfBytesConcat([a], [b]);
    OfBytesConcat([a] + [b], [c]);
    assert [a, b, c] == [a] + [b] + [c] && [a, b] == [a] + [b];
  }

  lemma ZeroByteBits()
    ensures OfByte(0) == BitSeq.Zeros(8)
  {
    NumOfZeros(BitSeq.Zeros(8));
    BitsOfNum(BitSeq.Zeros(8));
  }

  lemma DigitsPrefix(ds: Digits, k: nat)
    requires k <= |ds|
    ensures SixBits(ds[..k]) == SixBits(ds)[..6 * k]
  {
    assert ds == ds[..k] + ds[k..];
    SixBitsConcat(ds[..k], ds[k..]);
  }

  lemma Cut(a: Bits, b: Bits, c: Bits)
    requires |a| == |b| == |c| == 8 && c == BitSeq.Zeros(8)
    ensures b == c ==> (a + b + c)[..12] == a + BitSeq.Zeros(4)
    ensures (a + b + c)[..18] == a + b + BitSeq.Zeros(2)
  {
  }

  lemma OneByteLeft(a: byte)
    ensures SixBits(DigitsOf([a])) == OfBytes([a]) + BitSeq.Zeros(4)
  {
    QuantumBits(a, 0, 0);
    ZeroByteBits();
    DigitsPrefix(Quantum(a, 0, 0), 2);
    OfBytesOne(a);
    Cut(OfByte(a), OfByte(0), OfByte(0));
  }

  lemma TwoBytesLeft(a: byte, b: byte)
    ensures SixBits(DigitsOf([a, b])) == OfBytes([a, b]) + BitSeq.Zeros(2)
  {
    QuantumBits(a, b, 0);
    ZeroByteBits();
    DigitsPrefix(Quantum(a, b, 0), 3);
    ThreeBytes(a, b, 0);
    Cut(OfByte(a), OfByte(b), OfByte(0));
  }

  lemma SpellMore(a: byte, b: byte, c: byte, rest: seq<byte>, z: Bits)
    requires SixBits(DigitsOf(rest)) == OfBytes(rest) + z
    ensures SixBits(Quantum(a, b, c) + DigitsOf(rest)) == OfBytes([a, b, c] + rest) + z
  {
    QuantumBits(a, b, c);
    SixBitsConcat(Quantum(a, b, c), DigitsOf(rest));
    ThreeBytes(a, b, c);
    OfBytesConcat([a, b, c], rest);
    BitsAssociate(OfBytes([a, b, c]), OfBytes(rest), z);
  }

  lemma FirstThree(data: seq<byte>)
    requires |data| >= 3
    ensures data == [data[0], data[1], data[2]] + data[3..] && Spare(|data|) == Spare(|data[3..]|)
    ensures DigitsOf(data) == Quantum(data[0], data[1], data[2]) + DigitsOf(data[3..])
  {
  }

  /** The digits spell the bytes, and zeros to fill the last digit. */
  lemma {:induction false} DigitsSpell(data: seq<byte>)
    ensures SixBits(DigitsOf(data)) == OfBytes(data) + BitSeq.Zeros(Spare(|data|))
    decreases |data|
  {
    if |data| >= 3 {
      DigitsSpell(data[3..]);
      FirstThree(data);
      SpellMore(data[0], data[1], data[2], data[3..], BitSeq.Zeros(Spare(|data|)));
    } else if |data| == 2 {
      TwoBytesLeft(data[0], data[1]);
      assert data == [data[0], data[1]];
    } else if |data| == 1 {
      OneByteLeft(data[0]);
      assert data == [data[0]];
    }
  }

  lemma BitsAssociate(a: Bits, b: Bits, c: Bits)
    ensures a + b + c == a + (b + c)
  {
  }

  // ----- the decoder of the standard

  function Values(s: string): (r: Option<Digits>)
    ensures r.Some? ==> Valid(r.value) && Letters(r.value) == s
  {
    if s == "" then Some([])
    else
      var v, rest := ValueOf(s[0]), Values(s[1..]);
      if v.None? || rest.None? then None else Some([v.value] + rest.value)
  }

  lemma {:induction false} ValuesOfLetters(ds: Digits)
    requires Valid(ds)
    ensures Values(Letters(ds)) == Some(ds)
  {
    if ds != [] {
      ValuesOfLetters(ds[1..]);
      LetterValue(ds[0]);
      assert Letters(ds)[1..] == Letters(ds[1..]) && [ds[0]] + ds[1..] == ds;
    }
  }

  function BytesOf(bits: Bits): (data: seq<byte>)
    ensures |data| == |bits| / 8
  {
    if |bits| < 8 then []
    else
      Pow8();
      [Num(bits[..8])] + BytesOf(bits[8..])
  }

  lemma {:induction false} BytesOfBits(data: seq<byte>)
    ensures BytesOf(OfBytes(data)) == data
  {
    if data != [] {
      BytesOfBits(data[1..]);
      ByteIsItsBits(data[0]);
      assert OfBytes(data)[..8] == OfByte(data[0]) && OfBytes(data)[8..] == OfBytes(data[1..]);
    }
  }

  lemma {:induction false} BitsOfBytes(bits: Bits)
    requires |bits| % 8 == 0
    ensures OfBytes(BytesOf(bits)) == bits
    decreases |bits|
  {
    if bits != [] {
      BitsOfBytes(bits[8..]);
      BitsOfNum(bits[..8]);
      Pow8();
      assert BytesOf(bits)[1..] == BytesOf(bits[8..]);
    }
  }

  function Pads(s: string): (p: nat)
    ensures p <= |s| && p <= 2
  {
    if |s| >= 1 && s[|s| - 1] == '=' then
      if |s| >= 2 && s[|s| - 2] == '=' then 2 else 1
    else 0
  }

  predicate AllZero(s: Bits) {
    forall i :: 0 <= i < |s| ==> !s[i]
  }

  /** Whole quanta of letters, at most two of the last four characters being pads, and no bit set that
      the bytes do not need. */
  function Decode(s: string): Option<seq<byte>> {
    var ds := Values(s[..|s| - Pads(s)]);
    if |s| % 4 != 0 || ds.None? then None
    else
      var bits := SixBits(ds.value);
      var n := |bits| / 8;
      if AllZero(bits[8 * n..]) then Some(BytesOf(bits[..8 * n])) else None
  }

  lemma PadsOfEncode(data: seq<byte>)
    ensures var s := Encode(data);
            Pads(s) == |Padding(|data|)| && s[..|s| - Pads(s)] == Letters(DigitsOf(data))
  {
    var ds := DigitsOf(data);
    if ds != [] {
      LetterValue(ds[|ds| - 1]);
    }
  }

  lemma WholeQuanta(n: nat, k: nat)
    requires n == 4 * k
    ensures n % 4 == 0
  {
  }

  lemma EncodedFront(data: seq<byte>) returns (s: string, front: string)
    ensures s == Encode(data) && |s| % 4 == 0
    ensures front == Letters(DigitsOf(data)) && front == s[..|s| - Pads(s)]
  {
    s, front := Encode(data), Letters(DigitsOf(data));
    WholeQuanta(|s|, (|data| + 2) / 3);
    PadsOfEncode(data);
  }

  lemma EncodedText(data: seq<byte>) returns (s: string, ds: Digits)
    ensures s == Encode(data) && |s| % 4 == 0
    ensures ds == DigitsOf(data) && Values(s[..|s| - Pads(s)]) == Some(ds)
  {
    var front;
    s, front := EncodedFront(data);
    ds := DigitsOf(data);
    ValuesOfLetters(ds);
  }

  lemma Spelled(data: seq<byte>) returns (ds: Digits, spare: nat)
    ensures ds == DigitsOf(data) && spare < 8 && SixBits(ds) == OfBytes(data) + BitSeq.Zeros(spare)
  {
    ds, spare := DigitsOf(data), Spare(|data|);
    DigitsSpell(data);
  }

  lemma DecodeBits(s: string, ds: Digits, data: seq<byte>, spare: nat)
    requires |s| % 4 == 0 && Values(s[..|s| - Pads(s)]) == Some(ds)
    requires SixBits(ds) == OfBytes(data) + BitSeq.Zeros(spare) && spare < 8
    ensures Decode(s) == Some(data)
  {
    var bits := SixBits(ds);
    assert |bits| / 8 == |data|;
    assert bits[..8 * |data|] == OfBytes(data);
    assert AllZero(bits[8 * |data|..]);
    BytesOfBits(data);
  }

  /** Decoding gives back every byte string. */
  lemma RoundTrip(data: seq<byte>)
    ensures Decode(Encode(data)) == Some(data)
  {
    var s, ds := EncodedText(data);
    var same, spare := Spelled(data);
    DecodeBits(s, ds, data, spare);
  }

  lemma {:induction false} SixBitsInjective(a: Digits, b: Digits)
    requires Valid(a) && Valid(b) && |a| == |b| && SixBits(a) == SixBits(b)
    ensures a == b
  {
    if a != [] {
      assert OfNat(a[0], 6) == SixBits(a)[..6] == SixBits(b)[..6] == OfNat(b[0], 6);
      assert Pow2(6) == 64;
      NumOfNat(a[0], 6);
      NumOfNat(b[0], 6);
      assert SixBits(a[1..]) == SixBits(a)[6..] == SixBits(b)[6..] == SixBits(b[1..]);
      SixBitsInjective(a[1..], b[1..]);
    }
  }

  lemma Lengths(q: nat, p: nat, n: nat)
    requires p <= 2 && p <= 4 * q && n == 6 * (4 * q - p) / 8
    ensures n == 3 * q - p && (4 * n + 2) / 3 == 4 * q - p && (3 - n % 3) % 3 == p && 6 * (4 * q - p) - 8 * n == Spare(n)
  {
    assert 6 * (4 * q - p) == 8 * (3 * q - p) + 2 * p;
    assert n == 3 * q - p;
    assert n % 3 == (3 - p) % 3 by {
      assert n == 3 * (q - 1) + (3 - p);
    }
  }

  lemma PaddingIs(s: string, n: nat)
    requires Pads(s) == (3 - n % 3) % 3
    ensures s[|s| - Pads(s)..] == Padding(n)
  {
  }

  lemma SameDigits(ds: Digits, data: seq<byte>, q: nat, p: nat)
    requires Valid(ds) && p <= 2 && p <= 4 * q && |ds| == 4 * q - p && |data| == |SixBits(ds)| / 8
    requires SixBits(ds)[..8 * |data|] == OfBytes(data) && AllZero(SixBits(ds)[8 * |data|..])
    ensures ds == DigitsOf(data) && (3 - |data| % 3) % 3 == p
  {
    var bits, n := SixBits(ds), |data|;
    Lengths(q, p, n);
    DigitsSpell(data);
    assert bits == bits[..8 * n] + bits[8 * n..] && bits[8 * n..] == BitSeq.Zeros(Spare(n));
    SixBitsInjective(ds, DigitsOf(data));
  }

  lemma Decoded(s: string) returns (ds: Digits, data: seq<byte>)
    requires Decode(s).Some?
    ensures |s| % 4 == 0 && Valid(ds) && Letters(ds) == s[..|s| - Pads(s)] && data == Decode(s).value
    ensures |data| == |SixBits(ds)| / 8 && data == BytesOf(SixBits(ds)[..8 * |data|])
    ensures AllZero(SixBits(ds)[8 * |data|..])
  {
    ds, data := Values(s[..|s| - Pads(s)]).value, Decode(s).value;
  }

  lemma Parsed(s: string) returns (ds: Digits, data: seq<byte>)
    requires Decode(s).Some?
    ensures data == Decode(s).value && ds == DigitsOf(data) && Letters(ds) == s[..|s| - Pads(s)]
    ensures Pads(s) == (3 - |data| % 3) % 3
  {
    ds, data := Decoded(s);
    BitsOfBytes(SixBits(ds)[..8 * |data|]);
    SameDigits(ds, data, |s| / 4, Pads(s));
  }

  /** And nothing else decodes to it: a string decodes exactly when it is some byte string's encoding. */
  lemma OnlyEncodingsDecode(s: string)
    requires Decode(s).Some?
    ensures s == Encode(Decode(s).value)
  {
    var ds, data := Parsed(s);
    PaddingIs(s, |data|);
    assert s == s[..|s| - Pads(s)] + s[|s| - Pads(s)..];
  }
}
