/** driver_nmea2000.c: reassembly of fast packets from CAN frames. */
module FastPacket {
  import opened Bytes
  import opened Options

  /** A row of a PGN list: the number, whether it travels as a fast packet, and its type. */
  datatype Pgn = Pgn(pgn: nat, fast: bool, kind: nat)

  const GPS_PGN: seq<Pgn> := [
    Pgn(59392, false, 0), Pgn(60928, false, 0), Pgn(126208, false, 0), Pgn(126464, true, 0),
    Pgn(126992, false, 0), Pgn(126996, true, 0), Pgn(127258, false, 0), Pgn(129025, false, 1),
    Pgn(129026, false, 1), Pgn(129029, true, 1), Pgn(129283, false, 0), Pgn(129284, true, 0),
    Pgn(129285, true, 0), Pgn(129539, false, 1), Pgn(129540, true, 1)]

  const AIS_PGN: seq<Pgn> := [
    Pgn(59392, false, 0), Pgn(60928, false, 0), Pgn(126208, false, 0), Pgn(126464, true, 0),
    Pgn(126992, false, 0), Pgn(126996, true, 0), Pgn(129038, true, 2), Pgn(129039, true, 2),
    Pgn(129040, true, 2), Pgn(129793, true, 2), Pgn(129794, true, 2), Pgn(129798, true, 2),
    Pgn(129802, true, 2), Pgn(129809, true, 2), Pgn(129810, true, 2)]

  const PWR_PGN: seq<Pgn> := [
    Pgn(59392, false, 0), Pgn(60928, false, 0), Pgn(126208, false, 0), Pgn(126464, true, 0),
    Pgn(126992, false, 0), Pgn(126996, true, 0), Pgn(127506, true, 3), Pgn(127508, true, 3),
    Pgn(127513, true, 3)]

  const NAV_PGN: seq<Pgn> := [
    Pgn(59392, false, 0), Pgn(60928, false, 0), Pgn(126208, false, 0), Pgn(126464, true, 0),
    Pgn(126992, false, 0), Pgn(126996, true, 0), Pgn(127245, false, 4), Pgn(127250, false, 4),
    Pgn(127258, false, 0), Pgn(128259, false, 4), Pgn(128267, false, 4), Pgn(128275, true, 4),
    Pgn(129283, false, 0), Pgn(129284, true, 0), Pgn(129285, true, 0), Pgn(130306, false, 4),
    Pgn(130310, false, 4), Pgn(130311, false, 4)]

  /** A CAN frame; the kernel delivers at most eight data bytes. */
  datatype RawFrame = RawFrame(canId: nat, dlc: nat, data: seq<byte>) {
    predicate Extended() { canId / 0x80000000 % 2 == 1 }

    function Unit(): nat { canId % 0x100 }

    /** The parameter group: for PDU1 formats the low byte is a destination, not part of it. */
    function Group(): nat {
      var g := canId / 0x100 % 0x20000;
      if g / 0x100 % 0x100 < 240 then g / 0x100 * 0x100 else g
    }
  }

  type Frame = f: RawFrame | |f.data| == 8 && f.dlc <= 8 witness RawFrame(0, 0, [0, 0, 0, 0, 0, 0, 0, 0])

  function Search(list: seq<Pgn>, g: nat): Option<Pgn> {
    if list == [] then None else if list[0].pgn == g then Some(list[0]) else Search(list[1..], g)
  }

  /** Row r is the first of the list for its group. */
  ghost predicate FirstRow(list: seq<Pgn>, r: nat) {
    r < |list| && forall q :: 0 <= q < r ==> list[q].pgn != list[r].pgn
  }

  lemma {:induction false} SearchFindsFirst(list: seq<Pgn>, r: nat)
    requires FirstRow(list, r)
    ensures Search(list, list[r].pgn) == Some(list[r])
    decreases r
  {
    if r > 0 {
      SearchFindsFirst(list[1..], r - 1);
    }
  }

  lemma {:induction false} SearchFindsNone(list: seq<Pgn>, g: nat)
    ensures Search(list, g) == None <==> forall q :: 0 <= q < |list| ==> list[q].pgn != g
  {
    if list != [] {
      SearchFindsNone(list[1..], g);
      assert forall q :: 0 < q < |list| ==> list[q] == list[1..][q - 1];
    }
  }

  /** search_pgnlist finds the first row for g. */
  method SearchPgnList(g: nat, list: seq<Pgn>) returns (work: Option<Pgn>)
    ensures work == Search(list, g)
    ensures work.None? <==> forall q :: 0 <= q < |list| ==> list[q].pgn != g
    ensures work.Some? ==> exists r: nat :: FirstRow(list, r) && list[r].pgn == g && work == Some(list[r])
  {
    var l1 := 0;
    work := None;
    while l1 < |list|
      invariant 0 <= l1 <= |list| && work == None
      invariant Search(list, g) == Search(list[l1..], g)
      invariant forall q :: 0 <= q < l1 ==> list[q].pgn != g
    {
      if list[l1].pgn == g {
        assert FirstRow(list, l1);
        work := Some(list[l1]);
        return;
      }
      assert list[l1..][1..] == list[l1 + 1..];
      l1 := l1 + 1;
    }
  }

  // ----- one frame

  /** The session as the reassembler sees it: the PGN list once fixed, the counter expected next,
      the declared length and the bytes collected. */
  datatype State = State(unit: Option<nat>, list: Option<seq<Pgn>>, idx: nat, len: nat, buf: seq<byte>)

  const FRESH := State(None, None, 0, 0, [])

  datatype Delivery = Delivery(pgn: Pgn, data: seq<byte>)

  /** What does not change in a run: the unit under which the session is already listed, if any,
      and the tables in which an undecided session looks a group up. */
  datatype Config = Config(listed: Option<nat>, tables: seq<seq<Pgn>>)

  const TABLES: seq<seq<Pgn>> := [GPS_PGN, AIS_PGN, PWR_PGN, NAV_PGN]

  /** The first table that has a row for g. */
  function FirstWith(tables: seq<seq<Pgn>>, g: nat): Option<seq<Pgn>> {
    if tables == [] then None
    else if Search(tables[0], g).Some? then Some(tables[0])
    else FirstWith(tables[1..], g)
  }

  /** The row for g and the list the session uses from then on. */
  function Lookup(cfg: Config, list: Option<seq<Pgn>>, g: nat): (Option<Pgn>, Option<seq<Pgn>>) {
    match list
    case Some(l) => (Search(l, g), list)
    case None =>
      match FirstWith(cfg.tables, g)
      case None => (None, None)
      case Some(found) =>
        var work := Search(found, g);
        (work, if work.Some? && work.value.kind > 0 then Some(found) else None)
  }

  function Min(a: int, b: int): int { if a < b then a else b }

  function Max(a: int, b: int): int { if a < b then b else a }

  /** The bytes a continuation frame adds. */
  function Added(st: State, f: Frame): seq<byte> {
    f.data[1..1 + Min(7, Max(0, st.len - |st.buf|))]
  }

  /** A frame of a fast packet. */
  function Collect(st: State, f: Frame, work: Pgn): (State, Option<Delivery>) {
    if f.data[0] % 32 == 0 then
      (st.(idx := f.data[0] + 1, len := f.data[1], buf := f.data[2..8]), None)
    else if f.data[0] == st.idx then
      var buf := st.buf + Added(st, f);
      if |buf| == st.len then
        (st.(buf := buf, len := 0), Some(Delivery(work, buf)))
      else
        (st.(buf := buf, idx := st.idx + 1), None)
    else
      (st, None)
  }

  function OwnUnit(st: State, f: Frame, cfg: Config): nat {
    if st.unit.Some? then st.unit.value else if cfg.listed.Some? then cfg.listed.value else f.Unit()
  }

  /** One frame; a session without a unit takes the one it is listed under, or the sender's. */
  function Step(st: State, f: Frame, cfg: Config): (State, Option<Delivery>) {
    if !f.Extended() then (st, None)
    else
      var unit := OwnUnit(st, f, cfg);
      var st1 := st.(unit := Some(unit));
      if f.Unit() != unit then (st1, None)
      else
        var (work, list) := Lookup(cfg, st.list, f.Group());
        var st2 := st1.(list := list);
        if work.None? then (st2, None)
        else if !work.value.fast then (st2, Some(Delivery(work.value, f.data[..f.dlc])))
        else Collect(st2, f, work.value)
  }

  lemma FirstOf(a: seq<Pgn>, rest: seq<seq<Pgn>>, g: nat)
    ensures FirstWith([a] + rest, g) == if Search(a, g).Some? then Some(a) else FirstWith(rest, g)
  {
    assert ([a] + rest)[1..] == rest;
  }

  lemma InOrder(a: seq<Pgn>, b: seq<Pgn>, c: seq<Pgn>, d: seq<Pgn>, g: nat)
    ensures FirstWith([a, b, c, d], g) ==
            if Search(a, g).Some? then Some(a) else if Search(b, g).Some? then Some(b)
            else if Search(c, g).Some? then Some(c) else if Search(d, g).Some? then Some(d) else None
  {
    FirstOf(d, [], g);
    FirstOf(c, [d], g);
    FirstOf(b, [c, d], g);
    FirstOf(a, [b, c, d], g);
    assert [d] == [d] + [] && [c, d] == [c] + [d] && [b, c, d] == [b] + [c, d] && [a, b, c, d] == [a] + [b, c, d];
  }

  lemma TablesInOrder(g: nat)
    ensures FirstWith(TABLES, g) ==
            if Search(GPS_PGN, g).Some? then Some(GPS_PGN) else if Search(AIS_PGN, g).Some? then Some(AIS_PGN)
            else if Search(PWR_PGN, g).Some? then Some(PWR_PGN)
            else if Search(NAV_PGN, g).Some? then Some(NAV_PGN) else None
  {
    InOrder(GPS_PGN, AIS_PGN, PWR_PGN, NAV_PGN, g);
  }

  const BUFFER_SIZE := 1033

  class Session {
    var unit: nat
    var unitValid: bool
    var pgnList: Option<seq<Pgn>>
    var idx: nat
    var fastPacketLen: nat
    var inBufLen: nat
    var inBuffer: array<byte>
    var outBufLen: nat
    var outBuffer: array<byte>
    var workPgn: Option<Pgn>

    ghost predicate Valid()
      reads this
    {
      && inBuffer != outBuffer && inBuffer.Length == outBuffer.Length == BUFFER_SIZE
      && fastPacketLen < 256 && inBufLen <= 255
    }

    ghost function Abstract(): State
      reads this, inBuffer
      requires Valid()
    {
      State(if unitValid then Some(unit) else None, pgnList, idx, fastPacketLen, inBuffer[..inBufLen])
    }

    /** What nmea2000_parse_input will hand to the decoder. */
    ghost function Output(): Option<Delivery>
      reads this, outBuffer
      requires Valid() && outBufLen <= outBuffer.Length
    {
      if workPgn.Some? then Some(Delivery(workPgn.value, outBuffer[..outBufLen])) else None
    }

    constructor ()
      ensures Valid() && Abstract() == FRESH && fresh(inBuffer) && fresh(outBuffer)
    {
      unit, unitValid, pgnList, idx, fastPacketLen, inBufLen := 0, false, None, 0, 0, 0;
      inBuffer := new byte[BUFFER_SIZE](i => 0);
      outBufLen, workPgn := 0, None;
      outBuffer := new byte[BUFFER_SIZE](i => 0);
    }

    /** Starting over on a first frame. */
    method StartPacket(f: Frame)
      requires Valid()
      modifies this`idx, this`fastPacketLen, this`inBufLen, inBuffer
      ensures Valid()
      ensures Abstract() == old(Abstract()).(idx := (f.data[0] as int) + 1, len := f.data[1], buf := f.data[2..8])
    {
      fastPacketLen := f.data[1];
      idx := f.data[0];
      inBufLen := 0;
      idx := idx + 1;
      var l2 := 2;
      while l2 < 8
        modifies this`inBufLen, inBuffer
        invariant 2 <= l2 <= 8 && inBufLen == l2 - 2
        invariant inBuffer[..inBufLen] == f.data[2..l2]
      {
        inBuffer[inBufLen] := f.data[l2];
        inBufLen := inBufLen + 1;
        l2 := l2 + 1;
      }
    }

    /** Appending a continuation frame's bytes as far as the declared length. */
    method Append(f: Frame)
      requires Valid()
      modifies this`inBufLen, inBuffer
      ensures Valid()
      ensures Abstract() == old(Abstract()).(buf := old(Abstract()).buf + Added(old(Abstract()), f))
    {
      ghost var st := Abstract();
      ghost var room := Min(7, Max(0, st.len - |st.buf|));
      var l2 := 1;
      while l2 < 8
        modifies this`inBufLen, inBuffer
        invariant 1 <= l2 <= 8 && inBufLen == |st.buf| + Min(room, l2 - 1)
        invariant inBuffer[..inBufLen] == st.buf + f.data[1..1 + Min(room, l2 - 1)]
      {
        if fastPacketLen > inBufLen {
          inBuffer[inBufLen] := f.data[l2];
          inBufLen := inBufLen + 1;
        }
        l2 := l2 + 1;
      }
    }

    /** Handing the collected bytes out. */
    method Deliver(work: Pgn)
      requires Valid() && inBufLen == fastPacketLen
      modifies this`outBufLen, this`workPgn, outBuffer
      ensures outBufLen <= outBuffer.Length
      ensures Output() == Some(Delivery(work, Abstract().buf))
    {
      workPgn := Some(work);
      outBufLen := fastPacketLen;
      var l2 := 0;
      while l2 < outBufLen
        modifies outBuffer
        invariant 0 <= l2 <= outBufLen && outBuffer[..l2] == inBuffer[..l2]
      {
        outBuffer[l2] := inBuffer[l2];
        l2 := l2 + 1;
      }
    }

    /** A single-frame message goes straight out. */
    method DeliverFrame(f: Frame, work: Pgn)
      requires Valid()
      modifies this`outBufLen, this`workPgn, outBuffer
      ensures outBufLen <= outBuffer.Length
      ensures Output() == Some(Delivery(work, f.data[..f.dlc]))
    {
      workPgn := Some(work);
      outBufLen := f.dlc;
      var l2 := 0;
      while l2 < outBufLen
        modifies outBuffer
        invariant 0 <= l2 <= outBufLen && outBuffer[..l2] == f.data[..l2]
      {
        outBuffer[l2] := f.data[l2];
        l2 := l2 + 1;
      }
    }

    /** Finding the row for g, and fixing the list on the first one that tells the device's type. */
    method FindRow(g: nat) returns (work: Option<Pgn>)
      requires Valid()
      modifies this`pgnList
      ensures forall listed :: (work, pgnList) == Lookup(Config(listed, TABLES), old(pgnList), g)
    {
      if pgnList.Some? {
        work := SearchPgnList(g, pgnList.value);
      } else {
        TablesInOrder(g);
        var found := GPS_PGN;
        work := SearchPgnList(g, found);
        if work.None? {
          found := AIS_PGN;
          work := SearchPgnList(g, found);
        }
        if work.None? {
          found := PWR_PGN;
          work := SearchPgnList(g, found);
        }
        if work.None? {
          found := NAV_PGN;
          work := SearchPgnList(g, found);
        }
        if work.Some? && work.value.kind > 0 {
          pgnList := Some(found);
        }
      }
    }

    /** The fast-packet branches of find_pgn. */
    method CollectFrame(f: Frame, work: Pgn)
      requires Valid() && workPgn == None && outBufLen == 0
      modifies this`idx, this`fastPacketLen, this`inBufLen, this`outBufLen, this`workPgn, inBuffer, outBuffer
      ensures Valid() && outBufLen <= outBuffer.Length
      ensures (Abstract(), Output()) == Collect(old(Abstract()), f, work)
    {
      if f.data[0] % 32 == 0 {
        StartPacket(f);
      } else if f.data[0] == idx {
        Append(f);
        if inBufLen == fastPacketLen {
          Deliver(work);
          fastPacketLen := 0;
        } else {
          idx := idx + 1;
        }
      }
    }

    /** find_pgn, called by nmea2000_get on a frame of a valid network. */
    method FindPgn(f: Frame, listed: Option<nat>)
      requires Valid()
      modifies this, inBuffer, outBuffer
      ensures Valid() && outBufLen <= outBuffer.Length
      ensures inBuffer == old(inBuffer) && outBuffer == old(outBuffer)
      ensures (Abstract(), Output()) == Step(old(Abstract()), f, Config(listed, TABLES))
    {
      outBufLen := 0;
      workPgn := None;
      if f.Extended() {
        if !unitValid {
          unit := if listed.Some? then listed.value else f.Unit();
          unitValid := true;
        }
        if f.Unit() == unit {
          var work := FindRow(f.Group());
          if work.Some? {
            if !work.value.fast {
              DeliverFrame(f, work.value);
            } else {
              CollectFrame(f, work.value);
            }
          }
        }
      }
    }
  }
}
