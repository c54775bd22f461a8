/** packet.c: how the sniffer follows DLE-stuffed frames, and which it accepts. */
module DleLexer {
  import opened Bytes
  import opened Dle
  import opened Options

  /** The states of next_state reachable on these frames; Other is any state of another protocol. */
  datatype Phase =
    | Ground | DleLeader | TsipPayload | TsipDle | TsipRecognized
    | EvermoreLeader1 | EvermoreLeader2 | EvermorePayload | EvermorePayloadDle | EvermoreRecognized
    | Other

  /** lexer->length is a size_t. */
  datatype State = State(phase: Phase, length: nat)

  const FRESH := State(Ground, 0)
  const SIZE_MAX := 0xFFFF_FFFF_FFFF_FFFF

  /** A character that does not fit is pushed back, and the state becomes the ground state. */
  function Next(st: State, c: byte): State {
    match st.phase
    case Ground => st.(phase := if c == DLE then DleLeader else Other)
    case DleLeader =>
      st.(phase := if c == STX then EvermoreLeader2 else if c >= 0x13 then TsipPayload
                   else if c == DLE then Ground else Other)
    case TsipPayload => st.(phase := if c == DLE then TsipDle else TsipPayload)
    case TsipDle => st.(phase := if c == ETX then TsipRecognized else if c == DLE then TsipPayload else Ground)
    case TsipRecognized => st.(phase := if c == DLE then DleLeader else Ground)
    case EvermoreLeader1 => st.(phase := if c == STX then EvermoreLeader2 else Ground)
    case EvermoreLeader2 => State(if c == DLE then EvermorePayloadDle else EvermorePayload, c)
    case EvermorePayload =>
      if c == DLE then st.(phase := EvermorePayloadDle)
      else
        var left := if st.length == 0 then SIZE_MAX else st.length - 1;
        State(if left == 0 then Ground else EvermorePayload, left)
    case EvermorePayloadDle =>
      st.(phase := if c == DLE then EvermorePayload else if c == ETX then EvermoreRecognized else Ground)
    case EvermoreRecognized => st.(phase := if c == DLE then EvermoreLeader1 else Ground)
    case Other => st
  }

  class Lexer {
    var state: Phase
    var length: nat

    ghost function Abstract(): State
      reads this
    {
      State(state, length)
    }

    constructor ()
      ensures Abstract() == FRESH
    {
      state, length := Ground, 0;
    }

    method NextState(c: byte)
      modifies this
      ensures Abstract() == Next(old(Abstract()), c)
    {
      match state
      case Ground =>
        state := if c == DLE then DleLeader else Other;
      case DleLeader =>
        if c == STX {
          state := EvermoreLeader2;
        } else if c >= 0x13 {
          state := TsipPayload;
        } else if c == DLE {
          state := Ground;
        } else {
          state := Other;
        }
      case TsipPayload =>
        if c == DLE {
          state := TsipDle;
        }
      case TsipDle =>
        if c == ETX {
          state := TsipRecognized;
        } else if c == DLE {
          state := TsipPayload;
        } else {
          state := Ground;
        }
      case TsipRecognized =>
        state := if c == DLE then DleLeader else Ground;
      case EvermoreLeader1 =>
        state := if c == STX then EvermoreLeader2 else Ground;
      case EvermoreLeader2 =>
        length := c;
        state := if c == DLE then EvermorePayloadDle else EvermorePayload;
      case EvermorePayload =>
        if c == DLE {
          state := EvermorePayloadDle;
        } else {
          length := if length == 0 then SIZE_MAX else length - 1;
          if length == 0 {
            state := Ground;
          }
        }
      case EvermorePayloadDle =>
        if c == DLE {
          state := EvermorePayload;
        } else if c == ETX {
          state := EvermoreRecognized;
        } else {
          state := Ground;
        }
      case EvermoreRecognized =>
        state := if c == DLE then EvermoreLeader1 else Ground;
      case Other =>
    }
  }

  // ----- whole frames

  function Run(st: State, s: seq<byte>): State
    decreases |s|
  {
    if s == [] then st else Run(Next(st, s[0]), s[1..])
  }

  predicate Recognized(st: State) {
    st.phase.TsipRecognized? || st.phase.EvermoreRecognized?
  }

  /** Nothing is recognized before the last byte of s. */
  predicate QuietBefore(st: State, s: seq<byte>)
    decreases |s|
  {
    s == [] || (!Recognized(st) && QuietBefore(Next(st, s[0]), s[1..]))
  }

  lemma {:induction false} RunConcat(st: State, a: seq<byte>, b: seq<byte>)
    ensures Run(st, a + b) == Run(Run(st, a), b)
    ensures QuietBefore(st, a) && QuietBefore(Run(st, a), b) ==> QuietBefore(st, a + b)
    decreases |a|
  {
    if a == [] {
      assert a + b == b;
    } else {
      RunConcat(Next(st, a[0]), a[1..], b);
      assert (a + b)[1..] == a[1..] + b && (a + b)[0] == a[0];
    }
  }

  lemma RunOne(st: State, b: byte)
    ensures Run(st, [b]) == Next(st, b) && QuietBefore(st, [b]) == !Recognized(st)
  {
    assert [b][1..] == [];
  }

  lemma RunTwo(st: State, b: byte, c: byte)
    ensures Run(st, [b, c]) == Next(Next(st, b), c)
    ensures !Recognized(st) && !Recognized(Next(st, b)) ==> QuietBefore(st, [b, c])
    ensures Run(st, [b]) == Next(st, b) && QuietBefore(st, [b]) == !Recognized(st)
  {
    RunOne(st, b);
    RunOne(Next(st, b), c);
    RunConcat(st, [b], [c]);
    assert [b, c] == [b] + [c];
  }

  lemma {:induction false} TsipPayloadStays(p: seq<byte>, n: nat)
    ensures Run(State(TsipPayload, n), Stuff(p)) == State(TsipPayload, n)
    ensures QuietBefore(State(TsipPayload, n), Stuff(p))
    decreases |p|
  {
    if p != [] {
      var st, first := State(TsipPayload, n), if p[0] == DLE then [DLE, DLE] else [p[0]];
      TsipPayloadStays(p[1..], n);
      RunTwo(st, first[0], DLE);
      RunConcat(st, first, Stuff(p[1..]));
    }
  }

  /** Started on a written TSIP packet of any identifier from 0x13 up and any payload, the sniffer
      recognizes a packet at its last byte and no sooner. */
  lemma TsipRecognizedAtEnd(id: byte, p: seq<byte>)
    requires id >= 0x13
    ensures QuietBefore(FRESH, TsipFrame(id, p)) && Run(FRESH, TsipFrame(id, p)).phase == TsipRecognized
  {
    var st := State(TsipPayload, 0);
    RunTwo(FRESH, DLE, id);
    TsipPayloadStays(p, 0);
    RunTwo(st, DLE, ETX);
    RunConcat(st, Stuff(p), [DLE, ETX]);
    RunConcat(FRESH, [DLE, id], Stuff(p) + [DLE, ETX]);
    assert TsipFrame(id, p) == [DLE, id] + (Stuff(p) + [DLE, ETX]);
  }

  /** While more ordinary bytes are announced than come, the payload state is kept. */
  lemma {:induction false} EvermorePayloadStays(p: seq<byte>, n: nat)
    requires |p| < n
    ensures var end := Run(State(EvermorePayload, n), Stuff(p));
            end.phase == EvermorePayload && n - |p| <= end.length <= n
    ensures QuietBefore(State(EvermorePayload, n), Stuff(p))
    decreases |p|
  {
    if p != [] {
      var st, first := State(EvermorePayload, n), if p[0] == DLE then [DLE, DLE] else [p[0]];
      RunTwo(st, first[0], DLE);
      EvermorePayloadStays(p[1..], Run(st, first).length);
      RunConcat(st, first, Stuff(p[1..]));
    }
  }

  /** The same for what evermore_control_send sends. */
  lemma EvermoreRecognizedAtEnd(p: seq<byte>)
    requires |p| < 254
    ensures QuietBefore(FRESH, EvermoreFrame(p)) && Run(FRESH, EvermoreFrame(p)).phase == EvermoreRecognized
  {
    var len: byte, crc: byte := |p| + 2, Sum(p) % 256;
    var lead, paid := State(EvermoreLeader2, 0), State(EvermorePayload, len);
    var body := p + [crc];
    RunTwo(FRESH, DLE, STX);
    StuffOne(len);
    RunTwo(lead, len, DLE);
    EvermorePayloadStays(body, len);
    var end := Run(paid, Stuff(body));
    RunTwo(end, DLE, ETX);
    RunConcat(paid, Stuff(body), [DLE, ETX]);
    RunConcat(lead, Stuff([len]), Stuff(body) + [DLE, ETX]);
    RunConcat(FRESH, [DLE, STX], Stuff([len]) + (Stuff(body) + [DLE, ETX]));
    EvermoreShape(p, len, crc);
  }

  lemma Regroup(a: seq<byte>, b: seq<byte>, c: seq<byte>, d: seq<byte>, e: seq<byte>)
    ensures a + b + c + (d + e) == a + (b + (c + d + e))
  {
  }

  lemma EvermoreShape(p: seq<byte>, len: byte, crc: byte)
    requires |p| < 254 && len == |p| + 2 && crc == Sum(p) % 256
    ensures EvermoreFrame(p) == [DLE, STX] + (Stuff([len]) + (Stuff(p + [crc]) + [DLE, ETX]))
  {
    FrameParts(p, len, crc);
    StuffConcat(p, [crc]);
    Regroup([DLE, STX], Stuff([len]), Stuff(p), Stuff([crc]), [DLE, ETX]);
  }

  // ----- nothing else is recognized

  lemma {:induction false} RunSnoc(st: State, s: seq<byte>)
    requires s != []
    ensures var n := |s| - 1;
            && Run(st, s) == Next(Run(st, s[..n]), s[n])
            && (QuietBefore(st, s) ==> QuietBefore(st, s[..n]) && !Recognized(Run(st, s[..n])))
    decreases |s|
  {
    var n := |s| - 1;
    if n == 0 {
      RunOne(st, s[0]);
      assert s == [s[0]];
    } else {
      RunSnoc(Next(st, s[0]), s[1..]);
      assert s[1..][..n - 1] == s[..n][1..];
    }
  }

  /** Bytes other than DLE. */
  function Plain(p: seq<byte>): nat {
    if p == [] then 0 else Plain(p[..|p| - 1]) + if p[|p| - 1] == 0x10 then 0 else 1
  }

  /** The length byte allows for what has come. */
  predicate Allowed(p: seq<byte>, length: nat) {
    p != [] && (p[0] > 0 ==> Plain(p[1..]) < p[0] && length == p[0] as int - Plain(p[1..]))
  }

  /** How the sniffer can have come from the ground state, at the end of pre, to where it is: by a TSIP identifier
      or an EverMore leader, and then the bytes p with their DLEs doubled. */
  ghost predicate Followed(s: seq<byte>, st: State, pre: seq<byte>, id: byte, p: seq<byte>) {
    Run(FRESH, pre).phase == Ground &&
    match st.phase
    case Ground => true
    case DleLeader => s == pre + [0x10]
    case TsipPayload => id >= 0x13 && s == pre + [0x10, id] + Stuff(p)
    case TsipDle => id >= 0x13 && s == pre + [0x10, id] + Stuff(p) + [0x10]
    case TsipRecognized => id >= 0x13 && s == pre + [0x10, id] + Stuff(p) + [0x10, 0x03]
    case EvermoreLeader1 => false
    case EvermoreLeader2 => s == pre + [0x10, 0x02]
    case EvermorePayload => s == pre + [0x10, 0x02] + Stuff(p) && Allowed(p, st.length)
    case EvermorePayloadDle =>
      s == pre + [0x10, 0x02] + Stuff(p) + [0x10] && if p == [] then st.length == 16 else Allowed(p, st.length)
    case EvermoreRecognized =>
      s == pre + [0x10, 0x02] + Stuff(p) + [0x10, 0x03] && if p == [] then st.length == 16 else Allowed(p, st.length)
    case Other => true
  }

  lemma StuffMore(head: seq<byte>, p: seq<byte>, c: byte)
    ensures head + Stuff(p + [c]) == if c == 0x10 then head + Stuff(p) + [0x10] + [c] else head + Stuff(p) + [c]
  {
    StuffConcat(p, [c]);
    StuffOne(c);
    assert head + (Stuff(p) + [0x10, 0x10]) == head + Stuff(p) + [0x10] + [0x10];
    assert head + (Stuff(p) + [c]) == head + Stuff(p) + [c];
  }

  lemma TsipFollows(s: seq<byte>, st: State, c: byte, pre: seq<byte>, id: byte, p: seq<byte>) returns (p': seq<byte>)
    requires Followed(s, st, pre, id, p) && (st.phase == TsipPayload || st.phase == TsipDle)
    requires Next(st, c).phase != Ground
    ensures Followed(s + [c], Next(st, c), pre, id, p')
  {
    p' := p;
    var head := pre + [0x10, id];
    StuffMore(head, p, c);
    if (st.phase == TsipPayload) == (c != 0x10) {
      p' := p + [c];
    } else if st.phase == TsipDle {
      assert head + Stuff(p) + [0x10] + [0x03] == head + Stuff(p) + [0x10, 0x03];
    }
  }

  lemma PlainMore(p: seq<byte>, c: byte, length: nat)
    requires p != [] && Allowed(p, length)
    ensures c == 0x10 ==> Allowed(p + [c], length)
    ensures c != 0x10 && length > 1 && p[0] > 0 ==> Allowed(p + [c], length - 1)
    ensures p[0] == 0 ==> forall n: nat :: Allowed(p + [c], n)
  {
    assert (p + [c])[1..] == p[1..] + [c];
    assert (p[1..] + [c])[..|p| - 1] == p[1..];
  }

  lemma FirstAllowed(c: byte)
    ensures Allowed([c], c)
  {
    assert [c][1..] == [];
  }

  lemma EvermoreFollows(s: seq<byte>, st: State, c: byte, pre: seq<byte>, id: byte, p: seq<byte>)
    returns (p': seq<byte>)
    requires Followed(s, st, pre, id, p)
    requires st.phase == EvermoreLeader2 || st.phase == EvermorePayload || st.phase == EvermorePayloadDle
    requires Next(st, c).phase != Ground
    ensures Followed(s + [c], Next(st, c), pre, id, p')
  {
    var head := pre + [0x10, 0x02];
    if st.phase == EvermoreLeader2 {
      p' := if c == 0x10 then [] else [c];
      FirstAllowed(c);
      StuffOne(c);
    } else if st.phase == EvermorePayload {
      p' := if c == 0x10 then p else p + [c];
      StuffMore(head, p, c);
      PlainMore(p, c, st.length);
    } else if c == 0x10 {
      p' := p + [c];
      StuffMore(head, p, c);
      if p == [] {
        FirstAllowed(c);
      } else {
        PlainMore(p, c, st.length);
      }
    } else {
      p' := p;
      assert head + Stuff(p) + [0x10] + [0x03] == head + Stuff(p) + [0x10, 0x03];
    }
  }

  /** Wherever the sniffer is, it came there by a frame begun in the ground state. */
  lemma {:induction false} Following(s: seq<byte>) returns (pre: seq<byte>, id: byte, p: seq<byte>)
    requires QuietBefore(FRESH, s)
    ensures Followed(s, Run(FRESH, s), pre, id, p)
    decreases |s|
  {
    pre, id, p := [], 0, [];
    if s != [] {
      var n := |s| - 1;
      var t, c := s[..n], s[n];
      assert s == t + [c];
      RunSnoc(FRESH, s);
      pre, id, p := Following(t);
      var st := Run(FRESH, t);
      if Next(st, c).phase == Ground {
      } else if st.phase == Ground {
        pre := t;
      } else if st.phase == DleLeader {
        id, p := c, [];
        assert pre + [0x10] + [c] == pre + [0x10, c] + [];
      } else if st.phase == TsipPayload || st.phase == TsipDle {
        p := TsipFollows(t, st, c, pre, id, p);
      } else if st.phase != Other {
        p := EvermoreFollows(t, st, c, pre, id, p);
      }
    }
  }

  /** What the sniffer recognizes as TSIP, first thing, ends with a packet as tsip_write writes it. */
  lemma TsipOnlyFrames(s: seq<byte>) returns (pre: seq<byte>, id: byte, p: seq<byte>)
    requires QuietBefore(FRESH, s) && Run(FRESH, s).phase == TsipRecognized
    ensures s == pre + TsipFrame(id, p) && id >= 0x13 && Run(FRESH, pre).phase == Ground
  {
    pre, id, p := Following(s);
    assert pre + [0x10, id] + Stuff(p) + [0x10, 0x03] == pre + ([0x10, id] + Stuff(p) + [0x10, 0x03]);
  }

  /** What it recognizes as EverMore ends with stuffed bytes in an EverMore frame, of which the first announces
      more than the plain ones that follow, unless it is zero. */
  lemma EvermoreOnlyFrames(s: seq<byte>) returns (pre: seq<byte>, p: seq<byte>)
    requires QuietBefore(FRESH, s) && Run(FRESH, s).phase == EvermoreRecognized
    ensures s == pre + [0x10, 0x02] + Stuff(p) + [0x10, 0x03] && Run(FRESH, pre).phase == Ground
    ensures p != [] && p[0] > 0 ==> Plain(p[1..]) < p[0]
  {
    var id;
    pre, id, p := Following(s);
  }

  // ----- what is accepted

  /** The packet length with stuffed DLEs not counted. */
  method TsipNetLength(s: seq<byte>) returns (packetlen: nat)
    ensures packetlen == if Count(s, DLE) > 2 then |s| - (Count(s, DLE) - 2) / 2 else |s|
  {
    packetlen := |s|;
    var dlecnt := 0;
    for pos := 0 to |s|
      invariant dlecnt == Count(s[..pos], DLE) <= pos
    {
      CountConcat(s[..pos], [s[pos]], DLE);
      assert s[..pos + 1] == s[..pos] + [s[pos]] && [s[pos]][1..] == [];
      if s[pos] == DLE {
        dlecnt := dlecnt + 1;
      }
    }
    assert s[..|s|] == s;
    if dlecnt > 2 {
      dlecnt := dlecnt - 2;
      dlecnt := dlecnt / 2;
      packetlen := packetlen - dlecnt;
    }
  }

  /** It is the payload's own length and the four framing bytes. */
  lemma NetLengthIsPayload(id: byte, p: seq<byte>)
    ensures var f := TsipFrame(id, p);
            (if Count(f, DLE) > 2 then |f| - (Count(f, DLE) - 2) / 2 else |f|) == |p| + 4
  {
    StuffCounts(p);
    CountConcat([DLE, id] + Stuff(p), [DLE, ETX], DLE);
    CountConcat([DLE, id], Stuff(p), DLE);
    assert [DLE, id][1..] == [id] && [id][1..] == [] && [DLE, ETX][1..] == [ETX] && [ETX][1..] == [];
  }

  /** n bytes read from index i on, each DLE of which must be doubled; and the index after them. */
  function Checked(s: seq<byte>, i: nat, n: nat): (r: Option<(seq<byte>, nat)>)
    requires i + 2 * n <= |s|
    ensures r.Some? ==> |r.value.0| == n && i + n <= r.value.1 <= i + 2 * n
    decreases n
  {
    if n == 0 then Some(([], i))
    else if s[i] == DLE && s[i + 1] != DLE then None
    else
      var rest := Checked(s, if s[i] == DLE then i + 2 else i + 1, n - 1);
      if rest.None? then None else Some(([s[i]] + rest.value.0, rest.value.1))
  }

  /** The run of bytes read is the stuffed form of the result, and only that. */
  lemma {:induction false} CheckedIsStuffed(s: seq<byte>, i: nat, n: nat)
    requires i + 2 * n <= |s|
    ensures var r := Checked(s, i, n);
            r.Some? ==> s[i..r.value.1] == Stuff(r.value.0)
    decreases n
  {
    if n > 0 && !(s[i] == DLE && s[i + 1] != DLE) {
      var j := if s[i] == DLE then i + 2 else i + 1;
      CheckedIsStuffed(s, j, n - 1);
      var rest := Checked(s, j, n - 1);
      if rest.Some? {
        var p := [s[i]] + rest.value.0;
        assert p[1..] == rest.value.0;
        assert s[i..rest.value.1] == s[i..j] + s[j..rest.value.1];
      }
    }
  }

  lemma {:induction false} StuffedIsChecked(s: seq<byte>, i: nat, p: seq<byte>)
    requires i + 2 * |p| <= |s| && i + |Stuff(p)| <= |s| && s[i..i + |Stuff(p)|] == Stuff(p)
    ensures Checked(s, i, |p|) == Some((p, i + |Stuff(p)|))
    decreases |p|
  {
    if p != [] {
      var first := if p[0] == DLE then [DLE, DLE] else [p[0]];
      var j, end := i + |first|, i + |Stuff(p)|;
      assert s[i..end][0] == Stuff(p)[0] && (|first| == 2 ==> s[i..end][1] == Stuff(p)[1]);
      assert s[j..end] == s[i..end][|first|..];
      StuffedIsChecked(s, j, p[1..]);
      assert [p[0]] + p[1..] == p;
    }
  }

  /** What was read so far, put before what follows. */
  function Joined(read: seq<byte>, r: Option<(seq<byte>, nat)>): Option<(seq<byte>, nat)> {
    if r.None? then None else Some((read + r.value.0, r.value.1))
  }

  lemma JoinNext(read: seq<byte>, s: seq<byte>, i: nat, n: nat)
    requires 0 < n && i + 2 * n <= |s|
    ensures Joined(read, Checked(s, i, n)) ==
            if s[i] == DLE && s[i + 1] != DLE then None
            else Joined(read + [s[i]], Checked(s, if s[i] == DLE then i + 2 else i + 1, n - 1))
  {
    var r := Checked(s, if s[i] == DLE then i + 2 else i + 1, n - 1);
    if r.Some? {
      assert read + ([s[i]] + r.value.0) == read + [s[i]] + r.value.0;
    }
  }

  lemma JoinNone(read: seq<byte>, r: Option<(seq<byte>, nat)>)
    ensures Joined([], r) == r
    ensures forall j: nat :: Joined(read, Some(([], j))) == Some((read, j))
  {
    assert read + [] == read;
    if r.Some? {
      assert [] + r.value.0 == r.value.0;
    }
  }

  const ROOM := 2 + 2 * 255 + 2

  /** The sniffer's buffer, whose third byte announces the bytes up to the checksum: what is checked of it. */
  predicate Accepts(s: seq<byte>)
    requires |s| >= ROOM && s[2] >= 2
  {
    && s[0] == DLE && s[1] == STX
    && var r := Checked(s, 2, s[2]);
    && r.Some?
    && var (body, n) := r.value;
    && s[n] == DLE && s[n + 1] == ETX && Sum(body[1..|body| - 1]) % 256 == body[|body| - 1]
  }

  /** One byte, and the one that must follow it if it is a DLE. */
  method ReadChecked(s: seq<byte>, i: nat, ghost head: seq<byte>, ghost more: nat)
    returns (ok: bool, b: byte, n: nat)
    requires i + 2 * (1 + more) <= |s|
    ensures b == s[i]
    ensures !ok ==> Joined(head, Checked(s, i, 1 + more)) == None
    ensures ok ==> i < n && n + 2 * more <= |s|
    ensures ok ==> Joined(head, Checked(s, i, 1 + more)) == Joined(head + [b], Checked(s, n, more))
  {
    JoinNext(head, s, i, 1 + more);
    b, n, ok := s[i], i + 1, true;
    if b == DLE {
      n := n + 1;
      ok := s[n - 1] == DLE;
    }
  }

  /** The payload loop: the sum of what it read, or a jump to not_evermore. */
  method SumChecked(s: seq<byte>, i: nat, len: nat, ghost head: seq<byte>, ghost more: nat)
    returns (ok: bool, n: nat, crc: word, ghost read: seq<byte>)
    requires i + 2 * (len + more) <= |s| && len <= 253
    ensures !ok ==> Joined(head, Checked(s, i, len + more)) == None
    ensures ok ==> i <= n && n + 2 * more <= |s| && |read| == len && crc == Sum(read)
    ensures ok ==> Joined(head, Checked(s, i, len + more)) == Joined(head + read, Checked(s, n, more))
  {
    n, crc := i, 0;
    var left: nat := len;
    read := [];
    assert head + [] == head;
    while left > 0
      invariant i <= n && n + 2 * (left + more) <= |s| && left <= len && |read| == len - left
      invariant crc == Sum(read) <= 255 * |read|
      invariant Joined(head, Checked(s, i, len + more)) == Joined(head + read, Checked(s, n, left + more))
    {
      var b;
      ok, b, n := ReadChecked(s, n, head + read, left - 1 + more);
      SumSnoc(read, b);
      assert head + (read + [b]) == head + read + [b];
      crc, read := crc + b, read + [b];
      if !ok {
        return;
      }
      left := left - 1;
    }
    ok := true;
  }

  lemma AcceptsWhen(s: seq<byte>, read: seq<byte>, checksum: byte, n: nat)
    requires |s| >= ROOM && s[2] >= 2 && n + 2 <= |s|
    requires Checked(s, 2, s[2]) == Some(([s[2]] + read + [checksum], n))
    ensures Accepts(s) <==>
            s[0] == DLE && s[1] == STX && s[n] == DLE && s[n + 1] == ETX && Sum(read) % 256 == checksum
  {
    LastOfBody(s[2], read, checksum);
  }

  lemma LastOfBody(len: byte, read: seq<byte>, sum: byte)
    ensures var body := [len] + read + [sum];
            body[1..|body| - 1] == read && body[|body| - 1] == sum
  {
  }

  /** The length byte, the payload and the checksum byte. */
  method ReadBody(s: seq<byte>) returns (ok: bool, n: nat, crc: word, checksum: byte, ghost read: seq<byte>)
    requires |s| >= ROOM && s[2] >= 2
    ensures !ok ==> Checked(s, 2, s[2]) == None
    ensures ok ==> n + 2 <= |s| && crc == Sum(read) && Checked(s, 2, s[2]) == Some(([s[2]] + read + [checksum], n))
  {
    JoinNone([], Checked(s, 2, s[2]));
    assert [] + [s[2]] == [s[2]];
    var len;
    n, crc, checksum, read := 0, 0, 0, [];
    ok, len, n := ReadChecked(s, 2, [], s[2] as nat - 1);
    if !ok {
      return;
    }
    ok, n, crc, read := SumChecked(s, n, len - 2, [len], 1);
    if !ok {
      return;
    }
    ok, checksum, n := ReadChecked(s, n, [len] + read, 0);
    JoinNone([len] + read + [checksum], None);
  }

  /** packet_get on a recognized EverMore frame. */
  method CheckEvermore(s: seq<byte>) returns (ok: bool)
    requires |s| >= ROOM && s[2] >= 2
    ensures ok == Accepts(s)
  {
    if s[0] != DLE || s[1] != STX {
      return false;
    }
    var n, crc, checksum;
    ghost var read;
    ok, n, crc, checksum, read := ReadBody(s);
    if !ok {
      return false;
    }
    AcceptsWhen(s, read, checksum, n);
    ok := s[n] == DLE && s[n + 1] == ETX && crc % 256 == checksum;
  }

  lemma FrameStart(f: seq<byte>, s: seq<byte>, body: seq<byte>)
    requires f == [DLE, STX] + Stuff(body) + [DLE, ETX] && body != []
    ensures var n := 2 + |Stuff(body)|;
            f <= s <==> n + 2 <= |s| && s[0] == DLE && s[1] == STX && s[2..n] == Stuff(body) && s[n] == DLE && s[n + 1] == ETX
  {
    var n := 2 + |Stuff(body)|;
    if n + 2 <= |s| && s[0] == DLE && s[1] == STX && s[2..n] == Stuff(body) && s[n] == DLE && s[n + 1] == ETX {
      assert s[..n + 2] == [s[0], s[1]] + s[2..n] + [s[n], s[n + 1]];
    }
    if f <= s {
      assert s[..|f|] == f && |f| == n + 2;
      assert s[2..n] == s[..|f|][2..n] == f[2..n] == Stuff(body);
      assert s[n] == s[..|f|][n] && s[n + 1] == s[..|f|][n + 1] && s[0] == s[..|f|][0] && s[1] == s[..|f|][1];
    }
  }

  lemma AcceptedBody(s: seq<byte>) returns (body: seq<byte>, n: nat)
    requires |s| >= ROOM && s[2] >= 2 && Accepts(s)
    ensures |body| == s[2] && body[0] == s[2] && Sum(body[1..|body| - 1]) % 256 == body[|body| - 1]
    ensures 2 <= n && n + 2 <= |s| && s[2..n] == Stuff(body)
    ensures s[0] == DLE && s[1] == STX && s[n] == DLE && s[n + 1] == ETX
  {
    body, n := Checked(s, 2, s[2]).value.0, Checked(s, 2, s[2]).value.1;
    CheckedIsStuffed(s, 2, s[2]);
    FirstRead(s, 2, s[2]);
  }

  lemma BodyOf(body: seq<byte>)
    requires 2 <= |body| < 256 && body[0] == |body| && Sum(body[1..|body| - 1]) % 256 == body[|body| - 1]
    ensures EvermoreBody(body[1..|body| - 1]) == body
  {
  }

  lemma AcceptedIsFrame(s: seq<byte>) returns (p: seq<byte>)
    requires |s| >= ROOM && s[2] >= 2 && Accepts(s)
    ensures |p| < 254 && EvermoreFrame(p) <= s
  {
    var body, n := AcceptedBody(s);
    BodyOf(body);
    p := body[1..|body| - 1];
    StuffLength(body);
    FrameStart(EvermoreFrame(p), s, body);
  }

  lemma FirstRead(s: seq<byte>, i: nat, n: nat)
    requires 0 < n && i + 2 * n <= |s|
    ensures Checked(s, i, n).Some? ==> Checked(s, i, n).value.0[0] == s[i]
  {
  }

  lemma FrameIsAccepted(p: seq<byte>, s: seq<byte>)
    requires |p| < 254 && |s| >= ROOM && EvermoreFrame(p) <= s
    ensures s[2] == |p| + 2 && Accepts(s)
  {
    var body := EvermoreBody(p);
    FrameStart(EvermoreFrame(p), s, body);
    StuffLength(body);
    assert s[2] == s[2..2 + |Stuff(body)|][0] == Stuff(body)[0] == body[0];
    StuffedIsChecked(s, 2, body);
    LastOfBody(|p| + 2, p, Sum(p) % 256);
  }

  /** A buffer is accepted exactly when it begins with a frame evermore_control_send can send. */
  lemma AcceptsExactlyFrames(s: seq<byte>)
    requires |s| >= ROOM && s[2] >= 2
    ensures Accepts(s) <==> exists p: seq<byte> :: |p| < 254 && EvermoreFrame(p) <= s
  {
    if Accepts(s) {
      var p := AcceptedIsFrame(s);
    }
    if p: seq<byte> :| |p| < 254 && EvermoreFrame(p) <= s {
      FrameIsAccepted(p, s);
    }
  }
}
