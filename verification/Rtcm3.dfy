/** driver_rtcm3.c: the bit cursor of rtcm3_unpack. */
module Rtcm3 {
  import opened Bytes
  import opened BitExtract

  const MAX_SATELLITES := 64
  const MAX_DESCRIPTOR := 31

  function Raw(buf: seq<byte>, start: nat, width: nat): (v: nat)
    requires InBuffer(buf, start, width)
    ensures v < Pow2(width)
  {
    Num(Slice(buf, start, width))
  }

  function RawSigned(buf: seq<byte>, start: nat, width: nat): int
    requires InBuffer(buf, start, width) && width > 0
  {
    Signed(Raw(buf, start, width), width)
  }

  method Ugrab(buf: seq<byte>, bitcount: nat, width: nat) returns (v: nat, next: nat)
    requires width <= 57 && InBuffer(buf, bitcount, width)
    ensures v == Raw(buf, bitcount, width) && next == bitcount + width
  {
    next := bitcount + width;
    FieldIsSlice(buf, next - width, width);
    v := Ubits(buf, next - width, width, false);
  }

  method Sgrab(buf: seq<byte>, bitcount: nat, width: nat) returns (v: int, next: nat)
    requires 0 < width <= 57 && InBuffer(buf, bitcount, width)
    ensures v == RawSigned(buf, bitcount, width) && next == bitcount + width
  {
    next := bitcount + width;
    FieldIsSlice(buf, next - width, width);
    v := Sbits(buf, next - width, width, false);
  }

  // ----- message 1004

  datatype Header1004 = Header1004(stationId: nat, tow: nat, sync: nat, satcount: nat, smoothing: nat, interval: nat)

  datatype L1 = L1(indicator: nat, pseudorange: nat, rangediff: int, locktime: int, ambiguity: nat, cnr: nat)

  datatype L2 = L2(indicator: nat, pseudorange: nat, rangediff: int, locktime: int, cnr: nat)

  /** The fields of one satellite as they come out of the cursor, before scaling. */
  datatype Satellite = Satellite(ident: nat, l1: L1, l2: L2)

  method GrabHeader(buf: seq<byte>) returns (h: Header1004, bitcount: nat)
    requires |buf| >= 11
    ensures bitcount == 88 && h.satcount < 32
    ensures h == Header1004(Raw(buf, 36, 12), Raw(buf, 48, 30), Raw(buf, 78, 1), Raw(buf, 79, 5), Raw(buf, 84, 1),
                            Raw(buf, 85, 3))
  {
    bitcount := 0;
    var v, length, kind, station, tow, sync, satcount, smoothing, interval;
    v, bitcount := Ugrab(buf, bitcount, 14);
    length, bitcount := Ugrab(buf, bitcount, 10);
    kind, bitcount := Ugrab(buf, bitcount, 12);
    station, bitcount := Ugrab(buf, bitcount, 12);
    tow, bitcount := Ugrab(buf, bitcount, 30);
    sync, bitcount := Ugrab(buf, bitcount, 1);
    satcount, bitcount := Ugrab(buf, bitcount, 5);
    smoothing, bitcount := Ugrab(buf, bitcount, 1);
    interval, bitcount := Ugrab(buf, bitcount, 3);
    assert Pow2(5) == 32;
    h := Header1004(station, tow, sync, satcount, smoothing, interval);
  }

  function L1At(buf: seq<byte>, start: nat): L1
    requires InBuffer(buf, start, 68)
  {
    L1(Raw(buf, start, 1), Raw(buf, start + 1, 24), RawSigned(buf, start + 25, 20), RawSigned(buf, start + 45, 7),
       Raw(buf, start + 52, 8), Raw(buf, start + 60, 8))
  }

  function L2At(buf: seq<byte>, start: nat): L2
    requires InBuffer(buf, start, 51)
  {
    L2(Raw(buf, start, 2), Raw(buf, start + 2, 14), RawSigned(buf, start + 16, 20), RawSigned(buf, start + 36, 7),
       Raw(buf, start + 43, 8))
  }

  function SatelliteAt(buf: seq<byte>, start: nat): Satellite
    requires InBuffer(buf, start, 125)
  {
    Satellite(Raw(buf, start, 6), L1At(buf, start + 6), L2At(buf, start + 74))
  }

  method GrabL1(buf: seq<byte>, start: nat) returns (f: L1, bitcount: nat)
    requires InBuffer(buf, start, 68)
    ensures f == L1At(buf, start) && bitcount == start + 68
  {
    var indicator, pseudorange, rangediff, locktime, ambiguity, cnr;
    indicator, bitcount := Ugrab(buf, start, 1);
    pseudorange, bitcount := Ugrab(buf, bitcount, 24);
    rangediff, bitcount := Sgrab(buf, bitcount, 20);
    locktime, bitcount := Sgrab(buf, bitcount, 7);
    ambiguity, bitcount := Ugrab(buf, bitcount, 8);
    cnr, bitcount := Ugrab(buf, bitcount, 8);
    f := L1(indicator, pseudorange, rangediff, locktime, ambiguity, cnr);
  }

  method GrabL2(buf: seq<byte>, start: nat) returns (f: L2, bitcount: nat)
    requires InBuffer(buf, start, 51)
    ensures f == L2At(buf, start) && bitcount == start + 51
  {
    var indicator, pseudorange, rangediff, locktime, cnr;
    indicator, bitcount := Ugrab(buf, start, 2);
    pseudorange, bitcount := Ugrab(buf, bitcount, 14);
    rangediff, bitcount := Sgrab(buf, bitcount, 20);
    locktime, bitcount := Sgrab(buf, bitcount, 7);
    cnr, bitcount := Ugrab(buf, bitcount, 8);
    f := L2(indicator, pseudorange, rangediff, locktime, cnr);
  }

  method GrabSatellite(buf: seq<byte>, start: nat) returns (s: Satellite, bitcount: nat)
    requires InBuffer(buf, start, 125)
    ensures s == SatelliteAt(buf, start) && bitcount == start + 125
  {
    var ident, l1, l2;
    ident, bitcount := Ugrab(buf, start, 6);
    l1, bitcount := GrabL1(buf, bitcount);
    l2, bitcount := GrabL2(buf, bitcount);
    s := Satellite(ident, l1, l2);
  }

  /** The count satellites from bit start on. */
  function Satellites(buf: seq<byte>, start: nat, count: nat): (s: seq<Satellite>)
    requires InBuffer(buf, start, 125 * count)
    ensures |s| == count
    decreases count
  {
    if count == 0 then [] else [SatelliteAt(buf, start)] + Satellites(buf, start + 125, count - 1)
  }

  lemma Placed(done: seq<Satellite>, rest: seq<Satellite>, i: nat, s: Satellite, left: seq<Satellite>)
    requires |done| == i < |rest|
    ensures (done + rest[i..])[i := s] == done + [s] + rest[i + 1..]
    ensures done + ([s] + left) == done + [s] + left
  {
  }

  /** todo names the satellites from a bit on. */
  ghost predicate Names(buf: seq<byte>, todo: (nat, nat) -> seq<Satellite>) {
    forall start: nat, count: nat {:trigger Satellites(buf, start, count)} ::
      InBuffer(buf, start, 125 * count) ==> todo(start, count) == Satellites(buf, start, count)
  }

  /** Of all the satellites those done are stored, before what was in the array from there on. */
  ghost predicate Halfway(all: seq<Satellite>, done: seq<Satellite>, left: seq<Satellite>, was: seq<Satellite>,
                          now: seq<Satellite>)
  {
    |done| <= |was| && all == done + left && now == done + was[|done|..]
  }

  lemma OneStored(all: seq<Satellite>, done: seq<Satellite>, s: Satellite, left: seq<Satellite>, was: seq<Satellite>,
                  now: seq<Satellite>)
    requires Halfway(all, done, [s] + left, was, now) && |done| < |was|
    ensures Halfway(all, done + [s], left, was, now[|done| := s])
  {
    Placed(done, was, |done|, s, left);
  }

  lemma AllStored(all: seq<Satellite>, done: seq<Satellite>, was: seq<Satellite>, now: seq<Satellite>)
    requires Halfway(all, done, [], was, now)
    ensures |all| <= |was| && now == all + was[|all|..]
  {
    assert done + [] == done;
  }

  /** One round: the next satellite, of the count still to come, into slot i after those done. */
  method StoreSatellite(buf: seq<byte>, start: nat, rtk: array<Satellite>, i: nat, ghost count: nat,
                        ghost todo: (nat, nat) -> seq<Satellite>, ghost all: seq<Satellite>,
                        ghost done: seq<Satellite>, ghost was: seq<Satellite>)
    returns (bitcount: nat, ghost longer: seq<Satellite>)
    requires 0 < count && InBuffer(buf, start, 125 * count) && Names(buf, todo)
    requires |done| == i < |was| == rtk.Length && Halfway(all, done, todo(start, count), was, rtk[..])
    modifies rtk
    ensures bitcount == start + 125 && |longer| == i + 1
    ensures Halfway(all, longer, todo(bitcount, count - 1), was, rtk[..])
  {
    var next;
    next, bitcount := GrabSatellite(buf, start);
    assert Satellites(buf, start, count) == [next] + Satellites(buf, bitcount, count - 1);
    OneStored(all, done, next, todo(bitcount, count - 1), was, rtk[..]);
    rtk[i] := next;
    longer := done + [next];
  }

  /** The loop over the satellites, each from where the cursor stands. */
  method GrabSatellites(buf: seq<byte>, start: nat, count: nat, rtk: array<Satellite>,
                        ghost todo: (nat, nat) -> seq<Satellite>)
    returns (bitcount: nat)
    requires InBuffer(buf, start, 125 * count) && count <= rtk.Length
    requires Names(buf, todo) && (forall end: nat :: todo(end, 0) == []) && |todo(start, count)| == count
    modifies rtk
    ensures bitcount == start + 125 * count
    ensures rtk[..] == todo(start, count) + old(rtk[count..])
  {
    bitcount := start;
    ghost var all, done, was := todo(start, count), [], rtk[..];
    for i := 0 to count
      modifies rtk
      invariant bitcount == start + 125 * i && |done| == i
      invariant Halfway(all, done, todo(bitcount, count - i), was, rtk[..])
    {
      bitcount, done := StoreSatellite(buf, bitcount, rtk, i, count - i, todo, all, done, was);
    }
    assert todo(bitcount, 0) == [];
    AllStored(all, done, was, rtk[..]);
  }

  /** A 1004, for every count its header can announce. */
  method Unpack1004(buf: seq<byte>, rtk: array<Satellite>) returns (h: Header1004, bitcount: nat)
    requires |buf| >= 11 && InBuffer(buf, 88, 125 * Raw(buf, 79, 5)) && rtk.Length == MAX_SATELLITES
    modifies rtk
    ensures h.satcount == Raw(buf, 79, 5) < 32 && bitcount == 88 + 125 * h.satcount
    ensures rtk[..] == Satellites(buf, 88, h.satcount) + old(rtk[h.satcount..])
  {
    h, bitcount := GrabHeader(buf);
    ghost var todo := (start: nat, count: nat) =>
      if InBuffer(buf, start, 125 * count) then Satellites(buf, start, count) else [];
    assert Satellites(buf, 88, h.satcount) == todo(88, h.satcount);
    bitcount := GrabSatellites(buf, bitcount, h.satcount, rtk, todo);
  }

  // ----- nothing is skipped and nothing read twice

  /** A field written back in width bits. */
  function Put(v: nat, width: nat): (s: Bits)
    ensures |s| == width
  {
    OfNat(v, width)
  }

  function PutSigned(v: int, width: nat): (s: Bits)
    ensures |s| == width
  {
    if v < 0 && v + Pow2(width) >= 0 then OfNat(v + Pow2(width), width) else if v < 0 then OfNat(0, width) else OfNat(v, width)
  }

  function SpellL1(f: L1): (s: Bits)
    ensures |s| == 68
  {
    Put(f.indicator, 1) + Put(f.pseudorange, 24) + PutSigned(f.rangediff, 20) + PutSigned(f.locktime, 7)
    + Put(f.ambiguity, 8) + Put(f.cnr, 8)
  }

  function SpellL2(f: L2): (s: Bits)
    ensures |s| == 51
  {
    Put(f.indicator, 2) + Put(f.pseudorange, 14) + PutSigned(f.rangediff, 20) + PutSigned(f.locktime, 7)
    + Put(f.cnr, 8)
  }

  function Spell(s: Satellite): (b: Bits)
    ensures |b| == 125
  {
    Put(s.ident, 6) + SpellL1(s.l1) + SpellL2(s.l2)
  }

  lemma PutRaw(buf: seq<byte>, start: nat, width: nat)
    requires InBuffer(buf, start, width)
    ensures Put(Raw(buf, start, width), width) == Slice(buf, start, width)
  {
    BitsOfNum(Slice(buf, start, width));
  }

  lemma PutRawSigned(buf: seq<byte>, start: nat, width: nat)
    requires InBuffer(buf, start, width) && width > 0
    ensures PutSigned(RawSigned(buf, start, width), width) == Slice(buf, start, width)
  {
    BitsOfNum(Slice(buf, start, width));
  }

  lemma Meet(buf: seq<byte>, start: nat, a: nat, b: nat)
    requires InBuffer(buf, start, a + b)
    ensures Slice(buf, start, a) + Slice(buf, start + a, b) == Slice(buf, start, a + b)
  {
  }

  lemma L1SpellsBack(buf: seq<byte>, start: nat)
    requires InBuffer(buf, start, 68)
    ensures SpellL1(L1At(buf, start)) == Slice(buf, start, 68)
  {
    PutRaw(buf, start, 1);
    PutRaw(buf, start + 1, 24);
    PutRawSigned(buf, start + 25, 20);
    PutRawSigned(buf, start + 45, 7);
    PutRaw(buf, start + 52, 8);
    PutRaw(buf, start + 60, 8);
    Meet(buf, start, 1, 24);
    Meet(buf, start, 25, 20);
    Meet(buf, start, 45, 7);
    Meet(buf, start, 52, 8);
    Meet(buf, start, 60, 8);
  }

  lemma L2SpellsBack(buf: seq<byte>, start: nat)
    requires InBuffer(buf, start, 51)
    ensures SpellL2(L2At(buf, start)) == Slice(buf, start, 51)
  {
    PutRaw(buf, start, 2);
    PutRaw(buf, start + 2, 14);
    PutRawSigned(buf, start + 16, 20);
    PutRawSigned(buf, start + 36, 7);
    PutRaw(buf, start + 43, 8);
    Meet(buf, start, 2, 14);
    Meet(buf, start, 16, 20);
    Meet(buf, start, 36, 7);
    Meet(buf, start, 43, 8);
  }

  lemma SatelliteSpellsBack(buf: seq<byte>, start: nat)
    requires InBuffer(buf, start, 125)
    ensures Spell(SatelliteAt(buf, start)) == Slice(buf, start, 125)
  {
    PutRaw(buf, start, 6);
    L1SpellsBack(buf, start + 6);
    L2SpellsBack(buf, start + 74);
    Meet(buf, start, 6, 68);
    Meet(buf, start, 74, 51);
  }

  function SpellAll(sats: seq<Satellite>): (b: Bits)
    ensures |b| == 125 * |sats|
  {
    if sats == [] then [] else Spell(sats[0]) + SpellAll(sats[1..])
  }

  lemma SpellCons(first: Satellite, rest: seq<Satellite>)
    ensures SpellAll([first] + rest) == Spell(first) + SpellAll(rest)
  {
    assert ([first] + rest)[1..] == rest;
  }

  lemma OneMoreSatellite(buf: seq<byte>, start: nat, more: nat, rest: seq<Satellite>)
    requires InBuffer(buf, start, 125 + more) && SpellAll(rest) == Slice(buf, start + 125, more)
    ensures SpellAll([SatelliteAt(buf, start)] + rest) == Slice(buf, start, 125 + more)
  {
    SatelliteSpellsBack(buf, start);
    SpellCons(SatelliteAt(buf, start), rest);
    Meet(buf, start, 125, more);
  }

  lemma FirstSatellite(buf: seq<byte>, start: nat, count: nat)
    requires count > 0 && InBuffer(buf, start, 125 * count)
    ensures Satellites(buf, start, count) == [SatelliteAt(buf, start)] + Satellites(buf, start + 125, count - 1)
  {
  }

  /** The satellites unpacked, written out one after the other, are the bits they were read from: no
      gap, no overlap. */
  lemma {:induction false} SatellitesCoverMessage(buf: seq<byte>, start: nat, count: nat)
    requires InBuffer(buf, start, 125 * count)
    ensures SpellAll(Satellites(buf, start, count)) == Slice(buf, start, 125 * count)
    decreases count
  {
    if count > 0 {
      var more := 125 * (count - 1);
      SatellitesCoverMessage(buf, start + 125, count - 1);
      OneMoreSatellite(buf, start, more, Satellites(buf, start + 125, count - 1));
      FirstSatellite(buf, start, count);
      assert 125 * count == 125 + more;
    }
  }

  // ----- messages 1007, 1008 and 1033

  lemma WholeByte(buf: seq<byte>, k: nat)
    requires k < |buf|
    ensures Raw(buf, 8 * k, 8) == buf[k]
  {
    OfBytesSlice(buf, k, k + 1);
    assert buf[k..k + 1] == [buf[k]];
    OfBytesOne(buf[k]);
    ByteIsItsBits(buf[k]);
  }

  /** The cursor stands at the start of byte k. */
  method GrabByte(buf: seq<byte>, bitcount: nat, ghost k: nat) returns (v: byte, next: nat)
    requires bitcount == 8 * k && k < |buf|
    ensures v == buf[k] && next == bitcount + 8
  {
    WholeByte(buf, k);
    v, next := Ugrab(buf, bitcount, 8);
  }

  /** What the array holds once n bytes are copied to its front and a NUL is put at end. */
  function Copied(data: seq<byte>, was: seq<byte>, end: nat): (s: seq<byte>)
    requires |data| <= |was| && end < |was|
    ensures |s| == |was|
  {
    (data + was[|data|..])[end := 0]
  }

  /** The arguments of one copy: length bytes from an offset into the buffer, and a NUL at index end. */
  datatype Copy = Copy(from: nat, length: nat, end: nat)

  predicate Possible(buf: seq<byte>, c: Copy, room: nat) {
    c.from + c.length <= |buf| && c.length <= room && c.end < room
  }

  function Taken(buf: seq<byte>, c: Copy, was: seq<byte>): (s: seq<byte>)
    requires Possible(buf, c, |was|)
    ensures |s| == |was|
  {
    Copied(buf[c.from..c.from + c.length], was, c.end)
  }

  method CopyString(buf: seq<byte>, c: Copy, target: array<byte>)
    requires Possible(buf, c, target.Length)
    modifies target
    ensures target[..] == Taken(buf, c, old(target[..]))
  {
    forall i | 0 <= i < c.length {
      target[i] := buf[c.from + i];
    }
    target[c.end] := 0;
  }

  predicate Writes(c: Copy, i: nat) {
    i < c.length || i == c.end
  }

  /** Nothing is written outside an array of the size all four have. */
  ghost predicate Inside(c: Copy) {
    forall i: nat :: Writes(c, i) ==> i <= MAX_DESCRIPTOR
  }

  lemma InsideIff(c: Copy)
    ensures Inside(c) <==> c.length <= MAX_DESCRIPTOR + 1 && c.end <= MAX_DESCRIPTOR
  {
    assert Writes(c, c.end);
    assert c.length > 0 ==> Writes(c, c.length - 1);
  }

  ghost predicate AllInside(copies: seq<Copy>) {
    forall k :: 0 <= k < |copies| ==> Inside(copies[k])
  }

  /** Each copy starts at the byte the bit cursor has reached, and reads inside the buffer. */
  predicate AtCursor(copies: seq<Copy>, cursors: seq<nat>) {
    && |copies| == |cursors|
    && forall k :: 0 <= k < |copies| ==>
         cursors[k] == 8 * copies[k].from && copies[k].from + copies[k].length <= BUFFER_SIZE
  }

  /** The byte lengths a 1033 announces. */
  datatype Lengths = Lengths(n: nat, n2: nat, n3: nat, n4: nat)

  const BUFFER_SIZE := 1033

  function LengthsOf(buf: seq<byte>): Lengths
    requires |buf| == BUFFER_SIZE
  {
    var n := buf[6];
    var n2 := buf[8 + n as int];
    var n3 := buf[9 + n as int + n2 as int];
    Lengths(n, n2, n3, buf[10 + n as int + n2 as int + n3 as int])
  }

  predicate Fit(l: Lengths) {
    l.n <= MAX_DESCRIPTOR && l.n2 <= MAX_DESCRIPTOR && l.n3 <= MAX_DESCRIPTOR && l.n4 <= MAX_DESCRIPTOR
  }

  /** The header and the station number. */
  method GrabStation(buf: seq<byte>) returns (station: nat, bitcount: nat)
    requires |buf| == BUFFER_SIZE
    ensures bitcount == 48 && station == Raw(buf, 36, 12)
  {
    var v, length, kind;
    v, bitcount := Ugrab(buf, 0, 14);
    length, bitcount := Ugrab(buf, bitcount, 10);
    kind, bitcount := Ugrab(buf, bitcount, 12);
    station, bitcount := Ugrab(buf, bitcount, 12);
  }

  /** The copy a 1007 makes, whatever length it announces, and where the bit cursor stands at it. */
  method Copies1007(buf: seq<byte>) returns (station: nat, setup: byte, copies: seq<Copy>, cursors: seq<nat>)
    requires |buf| == BUFFER_SIZE
    ensures var l := LengthsOf(buf);
            && station == Raw(buf, 36, 12) && setup == buf[7 + l.n]
            && copies == [Copy(7, l.n, l.n)]
            && (AllInside(copies) <==> l.n <= MAX_DESCRIPTOR)
    ensures AtCursor(copies, cursors)
  {
    var n: nat, bitcount: nat;
    station, bitcount := GrabStation(buf);
    n, bitcount := GrabByte(buf, bitcount, 6);
    copies, cursors := [Copy(7, n, n)], [bitcount];
    bitcount := bitcount + 8 * n;
    setup, bitcount := GrabByte(buf, bitcount, 7 + n);
    InsideIff(copies[0]);
  }

  /** What a 1008 and a 1033 begin with: two strings, of n and n2 bytes. */
  method GrabTwoStrings(buf: seq<byte>)
    returns (station: nat, setup: byte, descriptor: Copy, serial: Copy, cursor: nat, cursor2: nat)
    requires |buf| == BUFFER_SIZE
    ensures station == Raw(buf, 36, 12) && setup == buf[7 + buf[6] as int]
    ensures var n, n2 := buf[6] as int, buf[8 + buf[6] as int] as int;
            && descriptor == Copy(7, n, n) && cursor == 8 * 7
            && serial == Copy(9 + n, n2, n2) && cursor2 == 8 * (9 + n)
  {
    var n: nat, n2: nat, bitcount: nat;
    station, bitcount := GrabStation(buf);
    n, bitcount := GrabByte(buf, bitcount, 6);
    descriptor, cursor := Copy(7, n, n), bitcount;
    bitcount := bitcount + 8 * n;
    setup, bitcount := GrabByte(buf, bitcount, 7 + n);
    n2, bitcount := GrabByte(buf, bitcount, 8 + n);
    serial, cursor2 := Copy(9 + n, n2, n2), bitcount;
  }

  /** Those of a 1008. */
  method Copies1008(buf: seq<byte>) returns (station: nat, setup: byte, copies: seq<Copy>, cursors: seq<nat>)
    requires |buf| == BUFFER_SIZE
    ensures var l := LengthsOf(buf);
            && station == Raw(buf, 36, 12) && setup == buf[7 + l.n]
            && copies == [Copy(7, l.n, l.n), Copy(9 + l.n, l.n2, l.n2)]
            && (AllInside(copies) <==> l.n <= MAX_DESCRIPTOR && l.n2 <= MAX_DESCRIPTOR)
    ensures AtCursor(copies, cursors)
  {
    var descriptor, serial, cursor, cursor2;
    station, setup, descriptor, serial, cursor, cursor2 := GrabTwoStrings(buf);
    copies, cursors := [descriptor, serial], [cursor, cursor2];
    InsideIff(copies[0]);
    InsideIff(copies[1]);
  }

  function CopiesOf(l: Lengths): (copies: seq<Copy>)
    ensures |copies| == 4
  {
    [Copy(7, l.n, l.n), Copy(9 + l.n, l.n2, l.n2), Copy(10 + l.n + l.n2, l.n3, l.n3),
     Copy(11 + l.n + l.n2 + l.n3, l.n3, l.n4)]
  }

  /** The four copies of a 1033 stay in their arrays exactly when every length announced fits. */
  lemma InsideIffFit(l: Lengths)
    ensures AllInside(CopiesOf(l)) <==> Fit(l)
    ensures AllInside(CopiesOf(l)) <==> l.n <= 31 && l.n2 <= 31 && l.n3 <= 31 && l.n4 <= 31
  {
    var copies := CopiesOf(l);
    InsideIff(copies[0]);
    InsideIff(copies[1]);
    InsideIff(copies[2]);
    InsideIff(copies[3]);
  }

  /** Those of a 1033; the last copy has the length of the one before it. */
  method Copies1033(buf: seq<byte>) returns (station: nat, setup: byte, copies: seq<Copy>, cursors: seq<nat>)
    requires |buf| == BUFFER_SIZE
    ensures station == Raw(buf, 36, 12) && setup == buf[7 + LengthsOf(buf).n]
    ensures copies == CopiesOf(LengthsOf(buf)) && AtCursor(copies, cursors)
  {
    var descriptor, serial, cursor, cursor2;
    station, setup, descriptor, serial, cursor, cursor2 := GrabTwoStrings(buf);
    var n, n2, n3: nat, n4: nat, bitcount := descriptor.length, serial.length, 0, 0, cursor2;
    bitcount := bitcount + 8 * n2;
    n3, bitcount := GrabByte(buf, bitcount, 9 + n + n2);
    var receiver, cursor3 := Copy(10 + n + n2, n3, n3), bitcount;
    bitcount := bitcount + 8 * n3;
    n4, bitcount := GrabByte(buf, bitcount, 10 + n + n2 + n3);
    var firmware, cursor4 := Copy(11 + n + n2 + n3, n3, n4), bitcount;
    copies, cursors := [descriptor, serial, receiver, firmware], [cursor, cursor2, cursor3, cursor4];
  }

  method Unpack1007(buf: seq<byte>, descriptor: array<byte>) returns (station: nat, setup: byte)
    requires |buf| == BUFFER_SIZE && LengthsOf(buf).n <= MAX_DESCRIPTOR && descriptor.Length == MAX_DESCRIPTOR + 1
    modifies descriptor
    ensures var n := LengthsOf(buf).n;
            && station == Raw(buf, 36, 12) && setup == buf[7 + n]
            && descriptor[..] == Taken(buf, Copy(7, n, n), old(descriptor[..]))
  {
    var copies, cursors;
    station, setup, copies, cursors := Copies1007(buf);
    CopyString(buf, copies[0], descriptor);
  }

  /** Two copies, into different arrays. */
  method CopyTwo(buf: seq<byte>, c: Copy, target: array<byte>, c2: Copy, target2: array<byte>)
    requires Possible(buf, c, target.Length) && Possible(buf, c2, target2.Length) && target != target2
    modifies target, target2
    ensures target[..] == Taken(buf, c, old(target[..]))
    ensures target2[..] == Taken(buf, c2, old(target2[..]))
  {
    CopyString(buf, c, target);
    CopyString(buf, c2, target2);
  }

  method Unpack1008(buf: seq<byte>, descriptor: array<byte>, serial: array<byte>) returns (station: nat, setup: byte)
    requires |buf| == BUFFER_SIZE && descriptor != serial
    requires LengthsOf(buf).n <= MAX_DESCRIPTOR && LengthsOf(buf).n2 <= MAX_DESCRIPTOR
    requires descriptor.Length == serial.Length == MAX_DESCRIPTOR + 1
    modifies descriptor, serial
    ensures var l := LengthsOf(buf);
            && station == Raw(buf, 36, 12) && setup == buf[7 + l.n]
            && descriptor[..] == Taken(buf, Copy(7, l.n, l.n), old(descriptor[..]))
            && serial[..] == Taken(buf, Copy(9 + l.n, l.n2, l.n2), old(serial[..]))
  {
    var copies, cursors;
    station, setup, copies, cursors := Copies1008(buf);
    CopyTwo(buf, copies[0], descriptor, copies[1], serial);
  }

  lemma FitIsPossible(buf: seq<byte>, k: nat)
    requires |buf| == BUFFER_SIZE && Fit(LengthsOf(buf)) && k < 4
    ensures Possible(buf, CopiesOf(LengthsOf(buf))[k], MAX_DESCRIPTOR + 1)
  {
  }

  /** What the k-th copy of a 1033 leaves in an array. */
  function Left(buf: seq<byte>, k: nat, was: seq<byte>): (s: seq<byte>)
    requires |buf| == BUFFER_SIZE && Fit(LengthsOf(buf)) && |was| == MAX_DESCRIPTOR + 1 && k < 4
    ensures |s| == |was|
  {
    FitIsPossible(buf, k);
    Taken(buf, CopiesOf(LengthsOf(buf))[k], was)
  }

  method Unpack1033(buf: seq<byte>, descriptor: array<byte>, serial: array<byte>, receiver: array<byte>,
                    firmware: array<byte>)
    returns (station: nat, setup: byte)
    requires |buf| == BUFFER_SIZE && Fit(LengthsOf(buf))
    requires descriptor != serial && receiver !in {descriptor, serial} && firmware !in {descriptor, serial, receiver}
    requires descriptor.Length == serial.Length == receiver.Length == firmware.Length == MAX_DESCRIPTOR + 1
    modifies descriptor, serial, receiver, firmware
    ensures station == Raw(buf, 36, 12) && setup == buf[7 + LengthsOf(buf).n]
    ensures descriptor[..] == Left(buf, 0, old(descriptor[..])) && serial[..] == Left(buf, 1, old(serial[..]))
    ensures receiver[..] == Left(buf, 2, old(receiver[..])) && firmware[..] == Left(buf, 3, old(firmware[..]))
  {
    var copies, cursors;
    station, setup, copies, cursors := Copies1033(buf);
    FitIsPossible(buf, 0);
    FitIsPossible(buf, 1);
    FitIsPossible(buf, 2);
    FitIsPossible(buf, 3);
    CopyTwo(buf, copies[0], descriptor, copies[1], serial);
    CopyTwo(buf, copies[2], receiver, copies[3], firmware);
  }

  type Text = s: seq<byte> | |s| <= MAX_DESCRIPTOR

  /** A 1033 as its sender lays it out, in the buffer it arrives in. */
  function Prefixed(t: Text, rest: seq<byte>): seq<byte> {
    [|t|] + (t + rest)
  }

  function Message1033(head: seq<byte>, descriptor: Text, setup: byte, serial: Text, receiver: Text, firmware: Text,
                       after: seq<byte>): seq<byte>
  {
    head + Prefixed(descriptor, [setup] + Prefixed(serial, Prefixed(receiver, Prefixed(firmware, after))))
  }

  lemma Peel(s: seq<byte>, k: nat, a: seq<byte>, rest: seq<byte>)
    requires k <= |s| && s[k..] == a + rest
    ensures k + |a| <= |s| && s[k..k + |a|] == a && s[k + |a|..] == rest
    ensures |a| == 1 ==> s[k] == a[0]
  {
    assert s[k..][..|a|] == a && s[k..][|a|..] == rest;
    if |a| == 1 {
      assert s[k..][0] == a[0];
    }
  }

  lemma PeelPrefixed(s: seq<byte>, k: nat, t: Text, rest: seq<byte>)
    requires k <= |s| && s[k..] == Prefixed(t, rest)
    ensures k + 1 + |t| <= |s| && s[k] == |t| && s[k + 1..k + 1 + |t|] == t && s[k + 1 + |t|..] == rest
  {
    Peel(s, k, [|t|], t + rest);
    Peel(s, k + 1, t, rest);
  }

  lemma FirstStrings(s: seq<byte>, head: seq<byte>, t: Text, setup: byte, u: Text, rest: seq<byte>)
    requires |head| == 6 && s == head + Prefixed(t, [setup] + Prefixed(u, rest))
    ensures var n := |t|;
            && 9 + n + |u| <= |s| && s[6] == n && s[7..7 + n] == t && s[7 + n] == setup && s[8 + n] == |u|
            && s[9 + n..9 + n + |u|] == u && s[9 + n + |u|..] == rest
  {
    var tail := [setup] + Prefixed(u, rest);
    Peel(s, 0, head, Prefixed(t, tail));
    PeelPrefixed(s, 6, t, tail);
    Peel(s, 7 + |t|, [setup], Prefixed(u, rest));
    PeelPrefixed(s, 8 + |t|, u, rest);
  }

  lemma LastStrings(s: seq<byte>, k: nat, t: Text, u: Text, rest: seq<byte>)
    requires k <= |s| && s[k..] == Prefixed(t, Prefixed(u, rest))
    ensures var n := |t|;
            && k + 2 + n + |u| <= |s| && s[k] == n && s[k + 1..k + 1 + n] == t && s[k + 1 + n] == |u|
            && s[k + 2 + n..] == u + rest
  {
    PeelPrefixed(s, k, t, Prefixed(u, rest));
    Peel(s, k + 1 + |t|, [|u|], u + rest);
  }

  /** Every length is found where the cursor looks for it, and every copy but the last takes the string sent. */
  lemma StringsAreFound(s: seq<byte>, head: seq<byte>, descriptor: Text, setup: byte, serial: Text, receiver: Text,
                        firmware: Text, after: seq<byte>)
    requires |head| == 6 && |s| == BUFFER_SIZE
    requires s == Message1033(head, descriptor, setup, serial, receiver, firmware, after)
    ensures LengthsOf(s) == Lengths(|descriptor|, |serial|, |receiver|, |firmware|) && Fit(LengthsOf(s))
    ensures var n, at := |descriptor|, 10 + |descriptor| + |serial|;
            && s[7..7 + n] == descriptor && s[7 + n] == setup && s[9 + n..at - 1] == serial
            && s[at..at + |receiver|] == receiver && s[at + 1 + |receiver|..] == firmware + after
  {
    var k := 9 + |descriptor| + |serial|;
    FirstStrings(s, head, descriptor, setup, serial, Prefixed(receiver, Prefixed(firmware, after)));
    LastStrings(s, k, receiver, firmware, after);
    assert LengthsOf(s) == Lengths(|descriptor|, |serial|, s[k], s[k + 1 + |receiver|]);
  }

  /** The first length bytes that an unpacked array holds: the C string, up to its NUL. */
  lemma CopiedString(data: seq<byte>, was: seq<byte>, end: nat)
    requires |data| <= |was| && end < |was|
    ensures Copied(data, was, end)[end] == 0
    ensures Copied(data, was, end)[..end] ==
            if end <= |data| then data[..end] else data + was[|data|..end]
  {
  }

  lemma WholeString(s: seq<byte>, c: Copy, t: Text, was: seq<byte>)
    requires c.from + |t| <= |s| && c.length == c.end == |t| && |was| == MAX_DESCRIPTOR + 1
    requires s[c.from..c.from + |t|] == t
    ensures Taken(s, c, was)[..|t|] == t && Taken(s, c, was)[|t|] == 0
  {
    CopiedString(t, was, |t|);
  }

  /** The first three arrays a 1033 leaves hold the strings sent, each ended by a NUL. */
  lemma StringsArrive(s: seq<byte>, head: seq<byte>, descriptor: Text, setup: byte, serial: Text, receiver: Text,
                      firmware: Text, after: seq<byte>, was: seq<byte>)
    requires |head| == 6 && |s| == BUFFER_SIZE && |was| == MAX_DESCRIPTOR + 1
    requires s == Message1033(head, descriptor, setup, serial, receiver, firmware, after)
    ensures Fit(LengthsOf(s)) && s[7 + LengthsOf(s).n] == setup
    ensures Left(s, 0, was)[..|descriptor|] == descriptor && Left(s, 0, was)[|descriptor|] == 0
    ensures Left(s, 1, was)[..|serial|] == serial && Left(s, 1, was)[|serial|] == 0
    ensures Left(s, 2, was)[..|receiver|] == receiver && Left(s, 2, was)[|receiver|] == 0
  {
    StringsAreFound(s, head, descriptor, setup, serial, receiver, firmware, after);
    var copies := CopiesOf(LengthsOf(s));
    WholeString(s, copies[0], descriptor, was);
    WholeString(s, copies[1], serial, was);
    WholeString(s, copies[2], receiver, was);
  }

  lemma CutShort(firmware: seq<byte>, after: seq<byte>, was: seq<byte>, n3: nat)
    requires |firmware| < |was| && n3 <= |was| && n3 <= |firmware + after|
    ensures Copied((firmware + after)[..n3], was, |firmware|)[..|firmware|] == firmware <==>
            |firmware| <= n3 || was[n3..|firmware|] == firmware[n3..]
  {
    CopiedString((firmware + after)[..n3], was, |firmware|);
    if n3 < |firmware| {
      assert (firmware + after)[..n3] == firmware[..n3];
      var got := firmware[..n3] + was[n3..|firmware|];
      assert got[n3..] == was[n3..|firmware|];
      assert firmware == firmware[..n3] + firmware[n3..];
    }
  }

  /** The last copy of a message as its sender lays it out. */
  lemma FirmwareLeft(s: seq<byte>, head: seq<byte>, descriptor: Text, setup: byte, serial: Text, receiver: Text,
                     firmware: Text, after: seq<byte>, was: seq<byte>)
    requires |head| == 6 && |s| == BUFFER_SIZE && |was| == MAX_DESCRIPTOR + 1
    requires s == Message1033(head, descriptor, setup, serial, receiver, firmware, after)
    ensures Fit(LengthsOf(s)) && |receiver| <= |firmware + after|
    ensures Left(s, 3, was) == Copied((firmware + after)[..|receiver|], was, |firmware|)
  {
    StringsAreFound(s, head, descriptor, setup, serial, receiver, firmware, after);
    var at := 11 + |descriptor| + |serial| + |receiver|;
    FitIsPossible(s, 3);
    assert s[at..at + |receiver|] == s[at..][..|receiver|];
  }

  /** The firmware string a 1033 leaves is the one sent exactly when that is no longer than the receiver
      string, or what is left in the array from before happens to continue it. */
  lemma FirmwareIsRight(s: seq<byte>, head: seq<byte>, descriptor: Text, setup: byte, serial: Text, receiver: Text,
                        firmware: Text, after: seq<byte>, was: seq<byte>)
    requires |head| == 6 && |s| == BUFFER_SIZE && |was| == MAX_DESCRIPTOR + 1
    requires s == Message1033(head, descriptor, setup, serial, receiver, firmware, after)
    ensures Fit(LengthsOf(s)) && Left(s, 3, was)[|firmware|] == 0
    ensures Left(s, 3, was)[..|firmware|] == firmware <==>
            |firmware| <= |receiver| || was[|receiver|..|firmware|] == firmware[|receiver|..]
  {
    FirmwareLeft(s, head, descriptor, setup, serial, receiver, firmware, after, was);
    CutShort(firmware, after, was, |receiver|);
    CopiedString((firmware + after)[..|receiver|], was, |firmware|);
  }

  /** A receiver string of one character cuts the firmware string BC short in a zeroed array. */
  lemma FirmwareIsCutShort(s: seq<byte>, head: seq<byte>, after: seq<byte>)
    requires |head| == 6 && |s| == BUFFER_SIZE && s == Message1033(head, [], 0, [], [65], [66, 67], after)
    ensures Fit(LengthsOf(s)) && Left(s, 3, seq(MAX_DESCRIPTOR + 1, i => 0))[..2] == [66, 0]
  {
    var was := seq(MAX_DESCRIPTOR + 1, i => 0);
    FirmwareLeft(s, head, [], 0, [], [65], [66, 67], after, was);
    CopiedString(([66, 67] + after)[..1], was, 2);
    assert ([66, 67] + after)[..1] == [66];
  }
}
