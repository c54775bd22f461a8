/** driver_rtcm2.c: unpacking differential corrections out of 30-bit words. */
module Rtcm2 {
  import opened Bytes
  import opened BitExtract

  type word = x: int | 0 <= x < 0x1_0000_0000

  datatype GpsCorrection = GpsCorrection(ident: nat, udre: nat, iod: nat, prc: real, rrc: real)

  datatype GlonassCorrection = GlonassCorrection(ident: nat, udre: nat, change: bool, tod: nat, prc: real, rrc: real)

  const DATA_WORDS := 31
  const MAX_CORRECTIONS := 18

  function Prc(raw: int, scale: bool): real {
    if scale then raw as real * 0.32 else raw as real * 0.02
  }

  function Rrc(raw: int, scale: bool): real {
    if scale then raw as real * 0.032 else raw as real * 0.002
  }

  // ----- what the message says

  /** The 24 data bits of a word, between its two pad bits and its six parity bits. */
  function Data(w: word): (s: Bits)
    ensures |s| == 24
  {
    OfNat(w, 32)[2..26]
  }

  function Stream(words: seq<word>): (s: Bits)
    ensures |s| == 24 * |words|
  {
    if words == [] then [] else Stream(words[..|words| - 1]) + Data(words[|words| - 1])
  }

  /** The j-th 40-bit record of the data bits strung together. */
  function Record(words: seq<word>, j: nat): (s: Bits)
    requires 40 * (j + 1) <= 24 * |words|
    ensures |s| == 40
  {
    Stream(words)[40 * j..40 * j + 40]
  }

  function SignedBits(s: Bits): int {
    if s == [] then 0 else Signed(Num(s), |s|)
  }

  /** A record: scale, udre, satellite, prc and rrc, then either iod or change and tod. */
  datatype Fields = Fields(scale: bool, udre: nat, ident: nat, prc: int, rrc: int, iod: nat, change: bool, tod: nat)

  function FieldsOf(r: Bits): Fields
    requires |r| == 40
  {
    Fields(r[0], Num(r[1..3]), Num(r[3..8]), SignedBits(r[8..24]), SignedBits(r[24..32]),
           Num(r[32..40]), r[32], Num(r[33..40]))
  }

  function Gps(f: Fields): GpsCorrection {
    GpsCorrection(f.ident, f.udre, f.iod, Prc(f.prc, f.scale), Rrc(f.rrc, f.scale))
  }

  function Glonass(f: Fields): GlonassCorrection {
    GlonassCorrection(f.ident, f.udre, f.change, f.tod,
                      Prc(f.prc, f.scale), Rrc(f.rrc, f.scale))
  }

  // ----- what the overlaid structures read

  /** An unsigned bit field of a word, and a signed one. */
  function Get(w: word, low: nat, width: nat): nat {
    Low(Shr(w, low), width)
  }

  function GetSigned(w: word, low: nat, width: nat): int
    requires width > 0
  {
    Signed(Get(w, low, width), width)
  }

  function Flag(w: word, low: nat): bool {
    Get(w, low, 1) != 0
  }

  lemma Pow32()
    ensures Pow2(32) == 0x1_0000_0000
  {
    PowAdd(8, 8);
    PowAdd(16, 16);
    Pow8();
  }

  lemma MaskedShift(s: Bits, x: nat, low: nat, width: nat, a: nat, b: nat)
    requires Num(s) == x && |s| == a + width + low && b == a + width
    ensures Low(Shr(x, low), width) == Num(s[a..b])
  {
    MaskOfShift(s, low, width);
    LowIsSlice(s, low, width, a, b);
  }

  lemma LowIsSlice(s: Bits, low: nat, width: nat, a: nat, b: nat)
    requires |s| == a + width + low && b == a + width
    ensures LowBits(s[..|s| - low], width) == s[a..b]
  {
  }

  lemma WordBits(w: word)
    ensures Num(OfNat(w, 32)) == w
  {
    Pow32();
    NumOfNat(w, 32);
  }

  lemma MaskedMiddle(s: Bits, x: nat, low: nat, width: nat, a: nat, b: nat)
    requires |s| == 32 && Num(s) == x && 6 <= low && a + width + low == 30 && b == a + width
    ensures Low(Shr(x, low), width) == Num(s[2..26][a..b])
  {
    MaskedShift(s, x, low, width, 2 + a, 2 + b);
    SliceOfSlice(s, 2, 26, a, b);
  }

  lemma WordOf(w: word) returns (s: Bits)
    ensures |s| == 32 && Num(s) == w && Data(w) == s[2..26]
  {
    s := OfNat(w, 32);
    WordBits(w);
  }

  lemma GetAt(w: word, low: nat, width: nat, a: nat, b: nat)
    requires 6 <= low && a + width + low == 30 && b == a + width
    ensures Get(w, low, width) == Num(Data(w)[a..b])
  {
    var s := WordOf(w);
    MaskedMiddle(s, w, low, width, a, b);
  }

  lemma GetIsSlice(w: word, low: nat, width: nat)
    requires 6 <= low && low + width <= 30
    ensures Get(w, low, width) == Num(Data(w)[30 - low - width..30 - low])
  {
    GetAt(w, low, width, 30 - low - width, 30 - low);
  }

  lemma FlagIsBit(w: word, low: nat)
    requires 6 <= low < 30
    ensures Flag(w, low) == Data(w)[29 - low]
  {
    GetIsSlice(w, low, 1);
    assert Data(w)[29 - low..30 - low] == [Data(w)[29 - low]];
    NumOne(Data(w)[29 - low]);
  }

  lemma GetSignedIsSlice(w: word, low: nat, width: nat)
    requires 6 <= low && low + width <= 30 && width > 0
    ensures GetSigned(w, low, width) == SignedBits(Data(w)[30 - low - width..30 - low])
  {
    GetIsSlice(w, low, width);
  }

  lemma SignedHead(s: Bits)
    requires s != []
    ensures SignedBits(s) == Num(s[1..]) - if s[0] then Pow2(|s| - 1) else 0
  {
    SignedIs(s);
  }

  lemma ByteBelow(t: Bits, b: Bits)
    requires |b| == 8
    ensures Num(t + b) == 256 * Num(t) + Num(b) && Pow2(|t| + 8) == 256 * Pow2(|t|)
  {
    Pow8();
    NumConcat(t, b);
    PowAdd(|t|, 8);
  }

  lemma Tops(a: Bits, b: Bits)
    requires a != [] && |b| == 8
    ensures Num((a + b)[1..]) == 256 * Num(a[1..]) + Num(b)
    ensures Pow2(|a + b| - 1) == 256 * Pow2(|a| - 1)
    ensures (a + b)[0] == a[0]
  {
    assert (a + b)[1..] == a[1..] + b;
    ByteBelow(a[1..], b);
  }

  lemma Assemble(sa: int, sab: int, na: int, nab: int, pa: int, pab: int, nb: int, negative: bool)
    requires sa == na - (if negative then pa else 0) && sab == nab - (if negative then pab else 0)
    requires nab == 256 * na + nb && pab == 256 * pa
    ensures sa * 256 + nb == sab
  {
  }

  /** A signed high part and an unsigned low byte make a signed number. */
  lemma SignedConcat(a: Bits, b: Bits)
    requires a != [] && |b| == 8
    ensures SignedBits(a) * 256 + Num(b) == SignedBits(a + b)
  {
    var c := a + b;
    SignedHead(a);
    SignedHead(c);
    Tops(a, b);
    Assemble(SignedBits(a), SignedBits(c), Num(a[1..]), Num(c[1..]), Pow2(|a| - 1), Pow2(|c| - 1), Num(b), a[0]);
  }

  lemma SignedPair(w: word, v: word)
    ensures GetSigned(w, 6, 8) * 256 + Get(v, 22, 8) == SignedBits(Data(w)[16..24] + Data(v)[0..8])
  {
    GetSignedIsSlice(w, 6, 8);
    GetIsSlice(v, 22, 8);
    SignedConcat(Data(w)[16..24], Data(v)[0..8]);
  }

  // the three records of a group of five words
  datatype Group = Group(w3: word, w4: word, w5: word, w6: word, w7: word)

  function First(g: Group): (s: Bits)
    ensures |s| == 40
  {
    Data(g.w3) + Data(g.w4)[..16]
  }

  function Second(g: Group): (s: Bits)
    ensures |s| == 40
  {
    Data(g.w4)[16..] + Data(g.w5) + Data(g.w6)[..8]
  }

  function Third(g: Group): (s: Bits)
    ensures |s| == 40
  {
    Data(g.w6)[8..] + Data(g.w7)
  }

  // the records of a group, field by field, whatever number a slice may stand for
  function FieldsWith(num: Bits -> nat, sgn: Bits -> int, r: Bits): Fields
    requires |r| == 40
  {
    Fields(r[0], num(r[1..3]), num(r[3..8]), sgn(r[8..24]), sgn(r[24..32]), num(r[32..40]), r[32], num(r[33..40]))
  }

  lemma FirstSlices(num: Bits -> nat, sgn: Bits -> int, a: Bits, b: Bits)
    requires |a| == |b| == 24
    ensures FieldsWith(num, sgn, a + b[..16]) ==
            Fields(a[0], num(a[1..3]), num(a[3..8]), sgn(a[8..24]), sgn(b[0..8]), num(b[8..16]), b[8], num(b[9..16]))
  {
    var r := a + b[..16];
    assert r[1..3] == a[1..3] && r[3..8] == a[3..8] && r[8..24] == a[8..24];
    assert b[..16][0..8] == b[0..8] && b[..16][8..16] == b[8..16] && b[..16][9..16] == b[9..16];
    assert r[24..40] == b[..16];
    assert r[24..32] == b[..16][0..8] && r[32..40] == b[..16][8..16] && r[33..40] == b[..16][9..16];
  }

  lemma SecondSlices(num: Bits -> nat, sgn: Bits -> int, a: Bits, b: Bits, c: Bits)
    requires |a| == |b| == |c| == 24
    ensures FieldsWith(num, sgn, a[16..] + b + c[..8]) ==
            Fields(a[16], num(a[17..19]), num(a[19..24]), sgn(b[0..16]), sgn(b[16..24]), num(c[0..8]), c[0], num(c[1..8]))
  {
    var r := a[16..] + b + c[..8];
    assert r[1..3] == a[17..19] && r[3..8] == a[19..24] && r[8..24] == b[0..16];
    assert r[24..32] == b[16..24];
    assert c[..8][0..8] == c[0..8] && c[..8][1..8] == c[1..8];
    assert r[32..40] == c[..8] && r[33..40] == c[..8][1..8];
  }

  lemma ThirdSlices(num: Bits -> nat, sgn: Bits -> int, a: Bits, b: Bits)
    requires |a| == |b| == 24
    ensures FieldsWith(num, sgn, a[8..] + b) ==
            Fields(a[8], num(a[9..11]), num(a[11..16]), sgn(a[16..24] + b[0..8]), sgn(b[8..16]),
                   num(b[16..24]), b[16], num(b[17..24]))
  {
    var r := a[8..] + b;
    assert r[1..3] == a[9..11] && r[3..8] == a[11..16] && r[8..24] == a[16..24] + b[0..8];
    assert r[24..32] == b[8..16] && r[32..40] == b[16..24] && r[33..40] == b[17..24];
  }

  // the fields of each correction, from the words they lie in
  function ReadFirst(g: Group): Fields {
    Fields(Flag(g.w3, 29), Get(g.w3, 27, 2), Get(g.w3, 22, 5), GetSigned(g.w3, 6, 16), GetSigned(g.w4, 22, 8),
           Get(g.w4, 14, 8), Flag(g.w4, 21), Get(g.w4, 14, 7))
  }

  function ReadSecond(g: Group): Fields {
    Fields(Flag(g.w4, 13), Get(g.w4, 11, 2), Get(g.w4, 6, 5), GetSigned(g.w5, 14, 16), GetSigned(g.w5, 6, 8),
           Get(g.w6, 22, 8), Flag(g.w6, 29), Get(g.w6, 22, 7))
  }

  function ReadThird(g: Group): Fields {
    Fields(Flag(g.w6, 21), Get(g.w6, 19, 2), Get(g.w6, 14, 5), GetSigned(g.w6, 6, 8) * 256 + Get(g.w7, 22, 8),
           GetSigned(g.w7, 14, 8), Get(g.w7, 6, 8), Flag(g.w7, 13), Get(g.w7, 6, 7))
  }

  /** The byte from bit low up as scale, udre and satellite; and as an iod, or change and tod. */
  lemma HeadFields(w: word, low: nat)
    requires 6 <= low <= 22
    ensures var a, i := Data(w), 22 - low;
            && Flag(w, low + 7) == a[i] && Get(w, low + 5, 2) == Num(a[i + 1..i + 3])
            && Get(w, low, 5) == Num(a[i + 3..i + 8])
  {
    FlagIsBit(w, low + 7);
    GetAt(w, low + 5, 2, 23 - low, 25 - low);
    GetAt(w, low, 5, 25 - low, 30 - low);
  }

  lemma TailNumbers(w: word, low: nat, i: nat)
    requires 6 <= low && i + low == 22
    ensures Get(w, low, 8) == Num(Data(w)[i..i + 8]) && Get(w, low, 7) == Num(Data(w)[i + 1..i + 8])
  {
    GetAt(w, low, 8, i, i + 8);
    GetAt(w, low, 7, i + 1, i + 8);
  }

  lemma TailFields(w: word, low: nat)
    requires 6 <= low <= 22
    ensures var a, i := Data(w), 22 - low;
            && Get(w, low, 8) == Num(a[i..i + 8]) && Flag(w, low + 7) == a[i]
            && Get(w, low, 7) == Num(a[i + 1..i + 8])
  {
    TailNumbers(w, low, 22 - low);
    FlagIsBit(w, low + 7);
  }

  lemma FirstUnsigned(g: Group)
    ensures var a, b := Data(g.w3), Data(g.w4);
            && Flag(g.w3, 29) == a[0] && Get(g.w3, 27, 2) == Num(a[1..3]) && Get(g.w3, 22, 5) == Num(a[3..8])
            && Get(g.w4, 14, 8) == Num(b[8..16]) && Flag(g.w4, 21) == b[8] && Get(g.w4, 14, 7) == Num(b[9..16])
  {
    HeadFields(g.w3, 22);
    TailFields(g.w4, 14);
  }

  lemma FirstSigned(g: Group)
    ensures GetSigned(g.w3, 6, 16) == SignedBits(Data(g.w3)[8..24])
    ensures GetSigned(g.w4, 22, 8) == SignedBits(Data(g.w4)[0..8])
  {
    GetSignedIsSlice(g.w3, 6, 16);
    GetSignedIsSlice(g.w4, 22, 8);
  }

  lemma FirstFields(g: Group)
    ensures ReadFirst(g) == FieldsOf(First(g))
  {
    FirstUnsigned(g);
    FirstSigned(g);
    FirstSlices(Num, SignedBits, Data(g.w3), Data(g.w4));
  }

  lemma SecondUnsigned(g: Group)
    ensures var a, b := Data(g.w4), Data(g.w6);
            && Flag(g.w4, 13) == a[16] && Get(g.w4, 11, 2) == Num(a[17..19]) && Get(g.w4, 6, 5) == Num(a[19..24])
            && Get(g.w6, 22, 8) == Num(b[0..8]) && Flag(g.w6, 29) == b[0] && Get(g.w6, 22, 7) == Num(b[1..8])
  {
    HeadFields(g.w4, 6);
    TailFields(g.w6, 22);
  }

  lemma SecondSigned(g: Group)
    ensures GetSigned(g.w5, 14, 16) == SignedBits(Data(g.w5)[0..16])
    ensures GetSigned(g.w5, 6, 8) == SignedBits(Data(g.w5)[16..24])
  {
    GetSignedIsSlice(g.w5, 14, 16);
    GetSignedIsSlice(g.w5, 6, 8);
  }

  lemma SecondFields(g: Group)
    ensures ReadSecond(g) == FieldsOf(Second(g))
  {
    SecondUnsigned(g);
    SecondSigned(g);
    SecondSlices(Num, SignedBits, Data(g.w4), Data(g.w5), Data(g.w6));
  }

  lemma ThirdUnsigned(g: Group)
    ensures var a, b := Data(g.w6), Data(g.w7);
            && Flag(g.w6, 21) == a[8] && Get(g.w6, 19, 2) == Num(a[9..11]) && Get(g.w6, 14, 5) == Num(a[11..16])
            && Get(g.w7, 6, 8) == Num(b[16..24]) && Flag(g.w7, 13) == b[16] && Get(g.w7, 6, 7) == Num(b[17..24])
  {
    HeadFields(g.w6, 14);
    TailFields(g.w7, 6);
  }

  lemma ThirdSigned(g: Group)
    ensures GetSigned(g.w7, 14, 8) == SignedBits(Data(g.w7)[8..16])
    ensures GetSigned(g.w6, 6, 8) * 256 + Get(g.w7, 22, 8) == SignedBits(Data(g.w6)[16..24] + Data(g.w7)[0..8])
  {
    GetSignedIsSlice(g.w7, 14, 8);
    SignedPair(g.w6, g.w7);
  }

  lemma ThirdFields(g: Group)
    ensures ReadThird(g) == FieldsOf(Third(g))
  {
    ThirdUnsigned(g);
    ThirdSigned(g);
    ThirdSlices(Num, SignedBits, Data(g.w6), Data(g.w7));
  }

  // ----- where the records lie

  lemma {:induction false} StreamAt(words: seq<word>, k: nat)
    requires k < |words|
    ensures Stream(words)[24 * k..24 * k + 24] == Data(words[k])
  {
    var n := |words| - 1;
    if k < n {
      StreamAt(words[..n], k);
      assert Stream(words)[24 * k..24 * k + 24] == Stream(words[..n])[24 * k..24 * k + 24];
    }
  }

  /** A stretch across two words. */
  lemma Across(s: Bits, i: nat, j: nat, k: nat)
    requires i <= j <= k <= |s|
    ensures s[i..k] == s[i..j] + s[j..k]
  {
  }

  lemma Within(s: Bits, from: nat, a: nat, b: nat)
    requires from + 24 <= |s| && a <= b <= 24
    ensures s[from + a..from + b] == s[from..from + 24][a..b]
  {
    SliceOfSlice(s, from, from + 24, a, b);
  }

  lemma FirstIsRecord(words: seq<word>, m: nat, g: Group)
    requires 5 * m + 2 <= |words| && g.w3 == words[5 * m] && g.w4 == words[5 * m + 1]
    ensures Record(words, 3 * m) == First(g)
  {
    var s, k := Stream(words), 120 * m;
    StreamAt(words, 5 * m);
    StreamAt(words, 5 * m + 1);
    Across(s, k, k + 24, k + 40);
    Within(s, k + 24, 0, 16);
  }

  lemma SecondIsRecord(words: seq<word>, m: nat, g: Group)
    requires 5 * m + 4 <= |words| && g.w4 == words[5 * m + 1] && g.w5 == words[5 * m + 2] && g.w6 == words[5 * m + 3]
    ensures Record(words, 3 * m + 1) == Second(g)
  {
    var s, k := Stream(words), 120 * m;
    StreamAt(words, 5 * m + 1);
    StreamAt(words, 5 * m + 2);
    StreamAt(words, 5 * m + 3);
    Across(s, k + 40, k + 48, k + 80);
    Across(s, k + 48, k + 72, k + 80);
    Within(s, k + 24, 16, 24);
    Within(s, k + 72, 0, 8);
  }

  lemma ThirdIsRecord(words: seq<word>, m: nat, g: Group)
    requires 5 * m + 5 <= |words| && g.w6 == words[5 * m + 3] && g.w7 == words[5 * m + 4]
    ensures Record(words, 3 * m + 2) == Third(g)
  {
    var s, k := Stream(words), 120 * m;
    StreamAt(words, 5 * m + 3);
    StreamAt(words, 5 * m + 4);
    Across(s, k + 80, k + 96, k + 120);
    Within(s, k + 72, 8, 24);
  }

  // ----- the word-by-word loops

  /** The structure overlaid on the words from 5 m on; what lies past the buffer is never looked at. */
  function GroupAt(words: seq<word>, m: nat): Group {
    Group(WordAt(words, 5 * m), WordAt(words, 5 * m + 1), WordAt(words, 5 * m + 2), WordAt(words, 5 * m + 3),
          WordAt(words, 5 * m + 4))
  }

  function WordAt(words: seq<word>, i: nat): word {
    if i < |words| then words[i] else 0
  }

  lemma GroupReads(words: seq<word>, m: nat, len: nat)
    requires 5 * m + len <= |words|
    ensures var g := GroupAt(words, m);
            && (len >= 2 ==> ReadFirst(g) == FieldsOf(Record(words, 3 * m)))
            && (len >= 4 ==> ReadSecond(g) == FieldsOf(Record(words, 3 * m + 1)))
            && (len >= 5 ==> ReadThird(g) == FieldsOf(Record(words, 3 * m + 2)))
  {
    var g := GroupAt(words, m);
    FirstFields(g);
    SecondFields(g);
    ThirdFields(g);
    if len >= 2 {
      FirstIsRecord(words, m, g);
    }
    if len >= 4 {
      SecondIsRecord(words, m, g);
    }
    if len >= 5 {
      ThirdIsRecord(words, m, g);
    }
  }

  /** One round of the loop: what the len words left have room for. */
  method Keep<C>(sat: array<C>, n: nat, len: nat, first: C, second: C, third: C) returns (k: nat)
    requires n + 3 * len / 5 <= sat.Length
    modifies sat
    ensures k == n + if len >= 5 then 3 else 3 * len / 5
    ensures sat[..] == old(sat[..n]) + [first, second, third][..k - n] + old(sat[k..])
  {
    k := n;
    if len >= 2 {
      sat[k] := first;
      k := k + 1;
    }
    if len >= 4 {
      sat[k] := second;
      k := k + 1;
    }
    if len >= 5 {
      sat[k] := third;
      k := k + 1;
    }
  }

  type Overlay = nat -> (Fields, Fields, Fields)

  /** read finds in group m the records 3m, 3m + 1 and 3m + 2, so far as the message can hold them. */
  ghost predicate Finds(read: Overlay, record: nat -> Fields, m: nat) {
    && (5 * m + 2 <= DATA_WORDS ==> read(m).0 == record(3 * m))
    && (5 * m + 4 <= DATA_WORDS ==> read(m).1 == record(3 * m + 1))
    && (5 * m + 5 <= DATA_WORDS ==> read(m).2 == record(3 * m + 2))
  }

  /** The loop of types 1, 9 and 31, which differ in what they take from a record. */
  method UnpackGroups<C>(length: nat, sat: array<C>, read: Overlay, take: Fields -> C, ghost record: nat -> Fields)
    returns (n: nat)
    requires length <= DATA_WORDS && sat.Length == MAX_CORRECTIONS
    requires forall m: nat :: Finds(read, record, m)
    modifies sat
    ensures n == 3 * length / 5
    ensures forall j: nat :: j < n ==> sat[j] == take(record(j))
    ensures forall j: nat :: n <= j < sat.Length ==> sat[j] == old(sat[j])
  {
    var len: int, m := length, 0;
    n := 0;
    while len >= 0
      modifies sat
      invariant 0 <= m && len == length - 5 * m && -5 <= len
      invariant n == (if len >= 0 then 3 * m else 3 * length / 5) <= 3 * length / 5
      invariant forall j: nat :: j < n ==> sat[j] == take(record(j))
      invariant forall j: nat :: n <= j < sat.Length ==> sat[j] == old(sat[j])
    {
      assert Finds(read, record, m);
      var (first, second, third) := read(m);
      n := Keep(sat, n, len, take(first), take(second), take(third));
      len := len - 5;
      m := m + 1;
    }
  }

  function RecordFields(words: seq<word>, j: nat): Fields {
    if 40 * (j + 1) <= 24 * |words| then FieldsOf(Record(words, j)) else Fields(false, 0, 0, 0, 0, 0, false, 0)
  }

  function ReadGroup(words: seq<word>, m: nat): (Fields, Fields, Fields) {
    var g := GroupAt(words, m);
    (ReadFirst(g), ReadSecond(g), ReadThird(g))
  }

  ghost predicate GroupMatches(words: seq<word>, m: nat) {
    var read := ReadGroup(words, m);
    && (5 * m + 2 <= DATA_WORDS ==> read.0 == RecordFields(words, 3 * m))
    && (5 * m + 4 <= DATA_WORDS ==> read.1 == RecordFields(words, 3 * m + 1))
    && (5 * m + 5 <= DATA_WORDS ==> read.2 == RecordFields(words, 3 * m + 2))
  }

  lemma GroupsMatch(words: seq<word>, m: nat)
    requires |words| == DATA_WORDS
    ensures GroupMatches(words, m)
  {
    if 5 * m <= DATA_WORDS {
      GroupReads(words, m, DATA_WORDS - 5 * m);
    }
  }

  lemma OverlayFinds(words: seq<word>, m: nat)
    requires |words| == DATA_WORDS
    ensures Finds((k: nat) => ReadGroup(words, k), (j: nat) => RecordFields(words, j), m)
  {
    GroupsMatch(words, m);
  }

  method UnpackRecords<C>(words: seq<word>, length: nat, sat: array<C>, take: Fields -> C) returns (n: nat)
    requires |words| == DATA_WORDS && length <= DATA_WORDS && sat.Length == MAX_CORRECTIONS
    modifies sat
    ensures n == 3 * length / 5
    ensures forall j: nat :: j < n ==> sat[j] == take(RecordFields(words, j))
    ensures forall j: nat :: n <= j < sat.Length ==> sat[j] == old(sat[j])
  {
    var read, record := (k: nat) => ReadGroup(words, k), (j: nat) => RecordFields(words, j);
    forall m: nat
      ensures Finds(read, record, m)
    {
      OverlayFinds(words, m);
    }
    n := UnpackGroups(length, sat, read, take, record);
  }

  /** What a record of 40 bits says of a GPS satellite, in metres and metres per second. */
  lemma GpsMeans(words: seq<word>, j: nat)
    requires 40 * (j + 1) <= 24 * |words|
    ensures var (r, c) := (Record(words, j), Gps(RecordFields(words, j)));
            && c.ident == Num(r[3..8]) && c.udre == Num(r[1..3]) && c.iod == Num(r[32..40])
            && c.prc == SignedBits(r[8..24]) as real * (if r[0] then 0.32 else 0.02)
            && c.rrc == SignedBits(r[24..32]) as real * (if r[0] then 0.032 else 0.002)
  {
  }

  /** And what it says of a GLONASS one. */
  lemma GlonassMeans(words: seq<word>, j: nat)
    requires 40 * (j + 1) <= 24 * |words|
    ensures var (r, c) := (Record(words, j), Glonass(RecordFields(words, j)));
            && c.ident == Num(r[3..8]) && c.udre == Num(r[1..3]) && c.change == r[32] && c.tod == Num(r[33..40])
            && c.prc == SignedBits(r[8..24]) as real * (if r[0] then 0.32 else 0.02)
            && c.rrc == SignedBits(r[24..32]) as real * (if r[0] then 0.032 else 0.002)
  {
  }

  /** Types 1 and 9. */
  method UnpackGps(words: seq<word>, length: nat, sat: array<GpsCorrection>) returns (n: nat)
    requires |words| == DATA_WORDS && length <= DATA_WORDS && sat.Length == MAX_CORRECTIONS
    modifies sat
    ensures n == 3 * length / 5
    ensures forall j: nat :: j < n ==> sat[j] == Gps(RecordFields(words, j))
    ensures forall j: nat :: n <= j < sat.Length ==> sat[j] == old(sat[j])
  {
    n := UnpackRecords(words, length, sat, Gps);
  }

  /** Type 31. */
  method UnpackGlonass(words: seq<word>, length: nat, sat: array<GlonassCorrection>) returns (n: nat)
    requires |words| == DATA_WORDS && length <= DATA_WORDS && sat.Length == MAX_CORRECTIONS
    modifies sat
    ensures n == 3 * length / 5
    ensures forall j: nat :: j < n ==> sat[j] == Glonass(RecordFields(words, j))
    ensures forall j: nat :: n <= j < sat.Length ==> sat[j] == old(sat[j])
  {
    n := UnpackRecords(words, length, sat, Glonass);
  }
}
