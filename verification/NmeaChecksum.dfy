/** driver_nmea0183.c: adding a sentence's checksum; packet.c: checking it. */
module NmeaChecksum {
  import opened Bytes
  import opened NmeaSentence

  function XorByte(a: byte, b: byte): byte {
    Pow8();
    Num(BitSeq.Xor(OfByte(a), OfByte(b)))
  }

  /** The exclusive or of all bytes. */
  function XorAll(s: seq<byte>): byte {
    if s == [] then 0 else XorByte(XorAll(s[..|s| - 1]), s[|s| - 1])
  }

  function Hex(v: nat): byte
    requires v < 16
  {
    if v < 10 then 48 + v else 55 + v
  }

  /** A digit as it is written. */
  lemma HexIs(v: nat)
    requires v < 16
    ensures Hex(v) as char == "0123456789ABCDEF"[v]
  {
  }

  predicate OddBits(s: seq<byte>, k: nat)
    requires k < 8
  {
    s != [] && OddBits(s[..|s| - 1], k) != OfByte(s[|s| - 1])[k]
  }

  lemma XorByteBit(a: byte, b: byte, k: nat)
    requires k < 8
    ensures OfByte(XorByte(a, b))[k] == (OfByte(a)[k] != OfByte(b)[k])
  {
    var x := BitSeq.Xor(OfByte(a), OfByte(b));
    BitsOfNum(x);
    assert OfByte(XorByte(a, b)) == x;
  }

  /** A bit of the checksum is set iff it is set in an odd number of the bytes. */
  lemma {:induction false} XorCountsBits(s: seq<byte>, k: nat)
    requires k < 8
    ensures OfByte(XorAll(s))[k] == OddBits(s, k)
  {
    if s == [] {
      ZeroBit(k);
    } else {
      XorCountsBits(s[..|s| - 1], k);
      XorByteBit(XorAll(s[..|s| - 1]), s[|s| - 1], k);
    }
  }

  lemma ZeroBit(k: nat)
    requires k < 8
    ensures !OfByte(0)[k]
  {
    NumOfZeros(BitSeq.Zeros(8));
    BitsOfNum(BitSeq.Zeros(8));
  }

  /** Where the summing starts: past a leading dollar sign or exclamation mark. */
  function BodyAt(s: seq<byte>): (i: nat)
    ensures i <= |s|
  {
    if s != [] && (s[0] == DOLLAR || s[0] == BANG) then 1 else 0
  }

  /** The first star from i on, or the end. */
  function StarFrom(s: seq<byte>, i: nat): (k: nat)
    requires i <= |s|
    ensures i <= k <= |s| && STAR !in s[i..k] && (k < |s| ==> s[k] == STAR)
    decreases |s| - i
  {
    if i == |s| || s[i] == STAR then i
    else
      var k := StarFrom(s, i + 1);
      assert s[i..k] == [s[i]] + s[i + 1..k];
      k
  }

  lemma {:induction false} StarFromIs(s: seq<byte>, i: nat, k: nat)
    requires i <= k <= |s| && STAR !in s[i..k] && (k < |s| ==> s[k] == STAR)
    ensures StarFrom(s, i) == k
    decreases k - i
  {
    if i < k {
      assert s[i] == s[i..k][0] && s[i + 1..k] == s[i..k][1..];
      StarFromIs(s, i + 1, k);
    }
  }

  function Body(s: seq<byte>): seq<byte> {
    s[BodyAt(s)..StarFrom(s, BodyAt(s))]
  }

  function Trailer(x: byte): seq<byte> {
    [STAR, Hex(x / 16), Hex(x % 16), CR, LF]
  }

  /** The sentence with its checksum. */
  function Summed(s: seq<byte>): seq<byte> {
    s[..StarFrom(s, BodyAt(s))] + Trailer(XorAll(Body(s)))
  }

  lemma XorNext(s: seq<byte>, from: nat, n: nat)
    requires from <= n < |s|
    ensures XorAll(s[from..n + 1]) == XorByte(XorAll(s[from..n]), s[n])
  {
    assert s[from..n + 1][..n - from] == s[from..n] && s[from..n + 1][n - from] == s[n];
  }

  /** The walk over the body. */
  method SumBody(sentence: array<byte>, ghost s: seq<byte>) returns (p: nat, sum: byte)
    requires |s| < sentence.Length && sentence[..|s|] == s && sentence[|s|] == NUL && IsText(s)
    ensures p == StarFrom(s, BodyAt(s)) && sum == XorAll(Body(s))
  {
    p, sum := 0, 0;
    assert s != [] ==> sentence[0] == sentence[..|s|][0] == s[0];
    if sentence[p] == DOLLAR || sentence[p] == BANG {
      p := p + 1;
    }
    ghost var start := p;
    while sentence[p] != STAR && sentence[p] != NUL
      invariant start <= p <= |s| && StarFrom(s, p) == StarFrom(s, start)
      invariant sum == XorAll(s[start..p])
      decreases |s| - p
    {
      assert sentence[p] == sentence[..|s|][p] == s[p];
      XorNext(s, start, p);
      sum := XorByte(sum, sentence[p]);
      p := p + 1;
    }
    assert p < |s| ==> sentence[p] == sentence[..|s|][p] == s[p];
  }

  /** nmea_add_checksum on the C string of length n in sentence; there must be room for the trailer. */
  method NmeaAddChecksum(sentence: array<byte>, n: nat)
    requires n < sentence.Length && sentence[n] == NUL && IsText(sentence[..n])
    requires StarFrom(sentence[..n], BodyAt(sentence[..n])) + 6 <= sentence.Length
    modifies sentence
    ensures var s := Summed(old(sentence[..n]));
            sentence[..] == s + [NUL] + old(sentence[..])[|s| + 1..]
  {
    ghost var s, was := sentence[..n], sentence[..];
    var p, sum := SumBody(sentence, s);
    Print(sentence, p, sum);
    assert was[..p] == s[..p];
  }

  method Print(a: array<byte>, p: nat, sum: byte)
    requires p + 6 <= a.Length
    modifies a
    ensures a[..] == old(a[..p]) + Trailer(sum) + [NUL] + old(a[p + 6..])
  {
    a[p] := STAR;
    a[p + 1], a[p + 2] := Hex(sum / 16), Hex(sum % 16);
    a[p + 3], a[p + 4], a[p + 5] := CR, LF, NUL;
    assert a[p..p + 6] == Trailer(sum) + [NUL];
    assert a[..] == a[..p] + a[p..p + 6] + a[p + 6..];
  }

  lemma StarStays(s: seq<byte>)
    ensures BodyAt(Summed(s)) == BodyAt(s) && StarFrom(Summed(s), BodyAt(s)) == StarFrom(s, BodyAt(s))
    ensures Body(Summed(s)) == Body(s)
  {
    var i := BodyAt(s);
    var k := StarFrom(s, i);
    var t := Summed(s);
    assert t[i..k] == s[i..k];
    assert k > 0 ==> t[0] == s[0];
    StarFromIs(t, i, k);
  }

  /** Adding the checksum again changes nothing. */
  lemma SummedTwice(s: seq<byte>)
    ensures Summed(Summed(s)) == Summed(s)
  {
    StarStays(s);
    var k := StarFrom(s, BodyAt(s));
    assert Summed(s)[..k] == s[..k];
  }

  lemma NoStar(s: seq<byte>, i: nat, x: byte)
    requires 42 !in s && i == BodyAt(s) && x == XorAll(if i == 1 then s[1..] else s)
    ensures Summed(s) == s + Trailer(x)
  {
    assert s[i..|s|] == s[i..] && s[0..] == s && s[..|s|] == s;
    StarFromIs(s, i, |s|);
  }

  /** A sentence without a star gets its checksum at the end: a star, two digits and the end of the line. A
      leading dollar sign or exclamation mark is not summed. */
  lemma SummedIs(s: seq<byte>)
    requires 42 !in s
    ensures var x := XorAll(if s != [] && (s[0] == 36 || s[0] == 33) then s[1..] else s);
            && |Summed(s)| == |s| + 5 && Summed(s)[..|s|] == s
            && Summed(s)[|s|] == 42 && Summed(s)[|s| + 3] == 13 && Summed(s)[|s| + 4] == 10
            && Summed(s)[|s| + 1] as char == "0123456789ABCDEF"[x / 16]
            && Summed(s)[|s| + 2] as char == "0123456789ABCDEF"[x % 16]
  {
    var x := XorAll(if s != [] && (s[0] == 36 || s[0] == 33) then s[1..] else s);
    NoStar(s, BodyAt(s), x);
    HexIs(x / 16);
    HexIs(x % 16);
  }

  // ----- the sniffer's check

  predicate IsSpace(c: byte) {
    c == 32 || 9 <= c <= 13
  }

  /** strchr finds the NUL of its string, too. */
  predicate IsHex(c: byte) {
    48 <= c < 58 || 65 <= c < 71 || c == NUL
  }

  function ToUpper(c: byte): byte {
    if 97 <= c < 123 then c - 32 else c
  }

  /** Back from i over white space, and over hexadecimal digits. */
  function BackSpace(s: seq<byte>, i: nat): (e: nat)
    requires i < |s| && !IsSpace(s[0])
    ensures e <= i && !IsSpace(s[e])
  {
    if IsSpace(s[i]) then BackSpace(s, i - 1) else i
  }

  function BackHex(s: seq<byte>, i: nat): (e: nat)
    requires i < |s| && !IsHex(s[0])
    ensures e <= i && !IsHex(s[e])
  {
    if IsHex(s[i]) then BackHex(s, i - 1) else i
  }

  function EndOf(s: seq<byte>): (e: nat)
    requires s != [] && (s[0] == DOLLAR || s[0] == BANG)
    ensures e < |s|
  {
    BackHex(s, BackSpace(s, |s| - 1))
  }

  /** A packet whose last star is followed by digits and white space only must sum to the two characters
      after the star; with fewer than two it fails. */
  predicate ChecksumOk(s: seq<byte>)
    requires s != [] && (s[0] == DOLLAR || s[0] == BANG)
  {
    var e := EndOf(s);
    s[e] == STAR ==>
      && e + 2 < |s|
      && Hex(XorAll(s[1..e]) / 16) == ToUpper(s[e + 1]) && Hex(XorAll(s[1..e]) % 16) == ToUpper(s[e + 2])
  }

  method XorTo(s: seq<byte>, end: nat) returns (crc: byte)
    requires 0 < end < |s|
    ensures crc == XorAll(s[1..end])
  {
    crc := 0;
    for n := 1 to end
      invariant crc == XorAll(s[1..n])
    {
      XorNext(s, 1, n);
      crc := XorByte(crc, s[n]);
    }
  }

  /** packet_parse on a recognized NMEA packet that is not a PASHR. The sniffer ends all of them with a line
      feed but those of two receivers, which end in a word. */
  method CheckNmea(s: seq<byte>) returns (ok: bool)
    requires s != [] && (s[0] == DOLLAR || s[0] == BANG)
    requires s[|s| - 1] == LF || s[EndOf(s)] != STAR
    ensures ok == ChecksumOk(s)
  {
    ok := true;
    var end := |s| - 1;
    while IsSpace(s[end])
      invariant 0 <= end < |s| && BackSpace(s, end) == BackSpace(s, |s| - 1)
      decreases end
    {
      end := end - 1;
    }
    while IsHex(s[end])
      invariant 0 <= end < |s| && BackHex(s, end) == EndOf(s)
      decreases end
    {
      end := end - 1;
    }
    if s[end] == STAR {
      var crc := XorTo(s, end);
      ok := Hex(crc / 16) == ToUpper(s[end + 1]) && Hex(crc % 16) == ToUpper(s[end + 2]);
    }
  }

  /** Behind the star at e come upper-case digits, or NULs, up to w, at least two, and then white space only. */
  ghost predicate EndsInDigits(s: seq<byte>, e: nat, w: nat) {
    && 1 <= e && e + 3 <= w <= |s| && s[e] == 42
    && (forall i :: e < i < w ==> 48 <= s[i] < 58 || 65 <= s[i] < 71 || s[i] == 0)
    && (forall i :: w <= i < |s| ==> s[i] == 32 || 9 <= s[i] <= 13)
  }

  lemma {:induction false} BackOverSpace(s: seq<byte>, w: nat, i: nat)
    requires 0 < w <= i + 1 && i < |s| && !IsSpace(s[0]) && !IsSpace(s[w - 1])
    requires forall k :: w <= k < |s| ==> s[k] == 32 || 9 <= s[k] <= 13
    ensures BackSpace(s, i) == w - 1
    decreases i
  {
    if i >= w {
      BackOverSpace(s, w, i - 1);
    }
  }

  lemma {:induction false} BackOverDigits(s: seq<byte>, e: nat, i: nat)
    requires e <= i < |s| && !IsHex(s[0]) && !IsHex(s[e])
    requires forall k :: e < k <= i ==> 48 <= s[k] < 58 || 65 <= s[k] < 71 || s[k] == 0
    ensures BackHex(s, i) == e
    decreases i
  {
    if i > e {
      BackOverDigits(s, e, i - 1);
    }
  }

  lemma EndOfLine(s: seq<byte>, e: nat, w: nat)
    requires EndsInDigits(s, e, w) && (s[0] == DOLLAR || s[0] == BANG)
    ensures EndOf(s) == e
  {
    BackOverSpace(s, w, |s| - 1);
    BackOverDigits(s, e, w - 1);
  }

  /** Such a line is accepted iff the first two digits spell the exclusive or of what stands before the star. */
  lemma LineAccepted(s: seq<byte>, e: nat, w: nat)
    requires EndsInDigits(s, e, w) && (s[0] == 36 || s[0] == 33)
    ensures var x := XorAll(s[1..e]);
            ChecksumOk(s) <==>
            s[e + 1] as char == "0123456789ABCDEF"[x / 16] && s[e + 2] as char == "0123456789ABCDEF"[x % 16]
  {
    EndOfLine(s, e, w);
    HexIs(XorAll(s[1..e]) / 16);
    HexIs(XorAll(s[1..e]) % 16);
  }

  /** A line whose second digit is a lower-case letter is accepted, whatever it spells. */
  lemma LowerCaseIsUnchecked(s: seq<byte>)
    requires |s| >= 3 && (s[0] == 36 || s[0] == 33) && s[|s| - 2] == 13 && s[|s| - 1] == 10 && 97 <= s[|s| - 3] < 103
    ensures ChecksumOk(s)
  {
    var e := |s| - 3;
    assert BackSpace(s, e + 2) == BackSpace(s, e + 1) == BackSpace(s, e) == e;
  }

  lemma LastFive(head: seq<byte>, x: byte) returns (e: nat)
    ensures e == |head| && |head + Trailer(x)| == e + 5
    ensures (head + Trailer(x))[e..] == Trailer(x) && (head + Trailer(x))[..e] == head
    ensures e >= 1 ==> EndsInDigits(head + Trailer(x), e, e + 3)
  {
    e := |head|;
    var t := head + Trailer(x);
    assert t[e] == STAR && t[e + 1] == Hex(x / 16) && t[e + 2] == Hex(x % 16) && t[e + 3] == CR && t[e + 4] == LF;
  }

  lemma EndOfSummed(s: seq<byte>)
    requires s != [] && (s[0] == DOLLAR || s[0] == BANG)
    ensures var t := Summed(s);
            && t != [] && t[0] == s[0] && t[|t| - 1] == LF && EndOf(t) == StarFrom(s, 1) == |t| - 5
  {
    var e := LastFive(s[..StarFrom(s, 1)], XorAll(Body(s)));
    EndOfLine(Summed(s), e, e + 3);
  }

  /** Whatever the sentence, the sniffer accepts it once its checksum is added. */
  lemma SummedIsAccepted(s: seq<byte>)
    requires s != [] && (s[0] == DOLLAR || s[0] == BANG)
    ensures Summed(s) != [] && Summed(s)[0] == s[0] && ChecksumOk(Summed(s))
  {
    EndOfSummed(s);
    var t, k := Summed(s), StarFrom(s, 1);
    assert t[1..k] == Body(s);
    assert t[k..] == Trailer(XorAll(Body(s)));
    assert t[k + 1] == t[k..][1] && t[k + 2] == t[k..][2];
  }

  /** Two sentences that differ in one character of the body get different checksums. */
  lemma {:induction false} OneCharacterShows(a: seq<byte>, i: nat, c: byte)
    requires i < |a| && a[i] != c
    ensures XorAll(a[i := c]) != XorAll(a)
    decreases |a|
  {
    var n := |a| - 1;
    if i == n {
      assert a[i := c][..n] == a[..n];
      XorCancels(XorAll(a[..n]), a[n], c);
    } else {
      OneCharacterShows(a[..n], i, c);
      assert a[i := c][..n] == a[..n][i := c];
      XorCommutes(XorAll(a[..n]), a[n]);
      XorCommutes(XorAll(a[..n][i := c]), a[n]);
      XorCancels(a[n], XorAll(a[..n]), XorAll(a[..n][i := c]));
    }
  }

  lemma XorCommutes(x: byte, y: byte)
    ensures XorByte(x, y) == XorByte(y, x)
  {
    assert BitSeq.Xor(OfByte(x), OfByte(y)) == BitSeq.Xor(OfByte(y), OfByte(x));
  }

  lemma XorCancels(x: byte, y: byte, z: byte)
    requires y != z
    ensures XorByte(x, y) != XorByte(x, z)
  {
    var a, b, c := OfByte(x), OfByte(y), OfByte(z);
    ByteIsItsBits(y);
    ByteIsItsBits(z);
    assert b != c;
    var k :| 0 <= k < 8 && b[k] != c[k];
    var p, q := BitSeq.Xor(a, b), BitSeq.Xor(a, c);
    assert p[k] != q[k];
    BitsOfNum(p);
    BitsOfNum(q);
  }
}
