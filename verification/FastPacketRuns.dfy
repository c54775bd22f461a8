/** What a whole run of frames delivers. */
module FastPacketRuns {
  import opened Bytes
  import opened FastPacket
  import opened Options

  function After(st: State, fs: seq<Frame>, cfg: Config): State {
    if fs == [] then st else Step(After(st, fs[..|fs|-1], cfg), fs[|fs|-1], cfg).0
  }

  /** What frame n of a run delivers. */
  function OutAt(st: State, fs: seq<Frame>, cfg: Config, n: nat): Option<Delivery>
    requires n < |fs|
  {
    Step(After(st, fs[..n], cfg), fs[n], cfg).1
  }

  lemma {:induction false} AfterConcat(st: State, a: seq<Frame>, b: seq<Frame>, cfg: Config)
    ensures After(st, a + b, cfg) == After(After(st, a, cfg), b, cfg)
    decreases |b|
  {
    if b == [] {
      assert a + b == a;
    } else {
      assert (a + b)[..|a + b| - 1] == a + b[..|b|-1];
      AfterConcat(st, a, b[..|b|-1], cfg);
    }
  }

  lemma OutAtConcat(st: State, a: seq<Frame>, b: seq<Frame>, cfg: Config, n: nat)
    requires n < |a| + |b|
    ensures OutAt(st, a + b, cfg, n) ==
            if n < |a| then OutAt(st, a, cfg, n) else OutAt(After(st, a, cfg), b, cfg, n - |a|)
  {
    if n < |a| {
      assert (a + b)[..n] == a[..n];
    } else {
      assert (a + b)[..n] == a + b[..n - |a|];
      AfterConcat(st, a, b[..n - |a|], cfg);
    }
  }

  /** Nothing that travels as a fast packet is delivered. */
  ghost predicate NoFastOutput(st: State, fs: seq<Frame>, cfg: Config) {
    forall n :: 0 <= n < |fs| && OutAt(st, fs, cfg, n).Some? ==> !OutAt(st, fs, cfg, n).value.pgn.fast
  }

  lemma NoFastConcat(st: State, a: seq<Frame>, b: seq<Frame>, cfg: Config)
    requires NoFastOutput(st, a, cfg) && NoFastOutput(After(st, a, cfg), b, cfg)
    ensures NoFastOutput(st, a + b, cfg)
  {
    forall n | 0 <= n < |a + b| && OutAt(st, a + b, cfg, n).Some?
      ensures !OutAt(st, a + b, cfg, n).value.pgn.fast
    {
      OutAtConcat(st, a, b, cfg, n);
    }
  }

  // ----- completeness

  /** A session bound to a unit and a list. */
  ghost predicate Bound(st: State, unit: nat, list: seq<Pgn>) {
    st.unit == Some(unit) && st.list == Some(list)
  }

  /** A frame of w from the unit. */
  ghost predicate From(f: Frame, unit: nat, list: seq<Pgn>, w: Pgn) {
    f.Extended() && f.Unit() == unit && Search(list, f.Group()) == Some(w) && w.fast
  }

  /** A frame that leaves a packet alone whose next counter is c: no extended frame, another unit, an
      unknown or a single-frame group, or a continuation frame with another counter. */
  ghost predicate Harmless(f: Frame, unit: nat, list: seq<Pgn>, c: nat) {
    || !f.Extended() || f.Unit() != unit
    || Search(list, f.Group()).None? || !Search(list, f.Group()).value.fast
    || (f.data[0] % 32 != 0 && f.data[0] != c)
  }

  /** How many frames a payload takes. */
  function FrameCount(n: nat): nat { 1 + n / 7 }

  /** How much of a payload the first m frames carry. */
  function Carried(n: nat, m: nat): nat {
    if m == 0 then 0 else Min(n, 7 * m - 1)
  }

  /** Frame i of payload p under sequence counter s; bytes past the payload are free. */
  ghost predicate IsPart(f: Frame, p: seq<byte>, s: nat, i: nat) {
    var lo, hi := Carried(|p|, i), Carried(|p|, i + 1);
    f.data[0] == s + i &&
    if i == 0 then f.data[1] == |p| && f.data[2..2 + hi] == p[..hi]
    else f.data[1..1 + (hi - lo)] == p[lo..hi]
  }

  /** The frames of a packet, each after a gap of other traffic. */
  function Weave(parts: seq<Frame>, gaps: seq<seq<Frame>>): seq<Frame>
    requires |parts| == |gaps|
  {
    if parts == [] then []
    else Weave(parts[..|parts|-1], gaps[..|parts|-1]) + gaps[|parts|-1] + [parts[|parts|-1]]
  }

  lemma {:induction false} Gap(st: State, fs: seq<Frame>, unit: nat, list: seq<Pgn>, cfg: Config)
    requires Bound(st, unit, list) && AllHarmless(fs, unit, list, st.idx)
    ensures After(st, fs, cfg) == st && NoFastOutput(st, fs, cfg)
    decreases |fs|
  {
    if fs != [] {
      var init, f := fs[..|fs|-1], fs[|fs|-1];
      Gap(st, init, unit, list, cfg);
      assert fs == init + [f];
      assert Harmless(f, unit, list, st.idx);
      assert [f][..0] == [];
      NoFastConcat(st, init, [f], cfg);
    }
  }

  lemma HandledByBound(st: State, f: Frame, unit: nat, list: seq<Pgn>, w: Pgn, cfg: Config)
    requires Bound(st, unit, list) && From(f, unit, list, w)
    ensures Step(st, f, cfg) == Collect(st, f, w)
  {
  }

  lemma FirstPart(st: State, f: Frame, w: Pgn, p: seq<byte>, s: nat)
    requires s % 32 == 0 && IsPart(f, p, s, 0)
    ensures Collect(st, f, w).1 == None
    ensures 1 < FrameCount(|p|) ==> Collect(st, f, w).0 == st.(idx := s + 1, len := |p|, buf := p[..Carried(|p|, 1)])
  {
  }

  lemma NextPart(st: State, f: Frame, w: Pgn, p: seq<byte>, s: nat, i: nat)
    requires s % 32 == 0 && 0 < i < 32 && IsPart(f, p, s, i) && i < FrameCount(|p|)
    requires st.idx == s + i && st.len == |p| && st.buf == p[..Carried(|p|, i)]
    ensures var hi := Carried(|p|, i + 1);
            Collect(st, f, w) == if |p| == hi then (st.(buf := p, len := 0), Some(Delivery(w, p)))
                                 else (st.(buf := p[..hi], idx := st.idx + 1), None)
  {
    var lo, hi := Carried(|p|, i), Carried(|p|, i + 1);
    assert f.data[0] % 32 == i;
    assert Added(st, f) == p[lo..hi];
    assert st.buf + Added(st, f) == p[..hi];
    assert p[..|p|] == p;
  }

  lemma PartStep(st: State, f: Frame, unit: nat, list: seq<Pgn>, w: Pgn, p: seq<byte>, s: nat, i: nat,
                 cfg: Config)
    requires Bound(st, unit, list) && From(f, unit, list, w) && s % 32 == 0 && i < 32 && IsPart(f, p, s, i)
    requires i < FrameCount(|p|)
    requires i > 0 ==> st.idx == s + i && st.len == |p| && st.buf == p[..Carried(|p|, i)]
    ensures if i + 1 < FrameCount(|p|)
            then Step(st, f, cfg) == (st.(idx := s + i + 1, len := |p|, buf := p[..Carried(|p|, i + 1)]), None)
            else Step(st, f, cfg).1 == if i == 0 then None else Some(Delivery(w, p))
  {
    HandledByBound(st, f, unit, list, w, cfg);
    if i == 0 {
      FirstPart(st, f, w, p, s);
    } else {
      NextPart(st, f, w, p, s, i);
    }
  }

  /** The first frames of payload p under counter s, frame i travelling as ws[i] and coming after some gap. */
  ghost predicate AreParts(unit: nat, list: seq<Pgn>, ws: seq<Pgn>, p: seq<byte>, s: nat,
                           parts: seq<Frame>, gaps: seq<seq<Frame>>) {
    && s % 32 == 0 && s <= 224 && |p| <= 223
    && 0 < |parts| == |gaps| == |ws| <= FrameCount(|p|) && gaps[0] == []
    && (forall i :: 0 <= i < |parts| ==> From(parts[i], unit, list, ws[i]) && IsPart(parts[i], p, s, i))
  }

  ghost predicate AllHarmless(fs: seq<Frame>, unit: nat, list: seq<Pgn>, c: nat) {
    forall f :: f in fs ==> Harmless(f, unit, list, c)
  }

  /** Nothing but harmless traffic in the gaps. */
  ghost predicate Quiet(unit: nat, list: seq<Pgn>, s: nat, gaps: seq<seq<Frame>>) {
    forall i :: 0 < i < |gaps| ==> AllHarmless(gaps[i], unit, list, s + i)
  }

  lemma Attach(st: State, before: seq<Frame>, gap: seq<Frame>, part: Frame, cfg: Config)
    requires NoFastOutput(st, before, cfg)
    requires After(After(st, before, cfg), gap, cfg) == After(st, before, cfg)
    requires NoFastOutput(After(st, before, cfg), gap, cfg)
    ensures var t := before + gap + [part];
            && After(st, t, cfg) == Step(After(st, before, cfg), part, cfg).0
            && OutAt(st, t, cfg, |t| - 1) == Step(After(st, before, cfg), part, cfg).1
            && t[..|t|-1] == before + gap && NoFastOutput(st, before + gap, cfg)
  {
    AfterConcat(st, before, gap, cfg);
    NoFastConcat(st, before, gap, cfg);
    var t := before + gap + [part];
    assert t[..|t|-1] == before + gap;
  }

  lemma SilentLast(st: State, t: seq<Frame>, cfg: Config)
    requires t != [] && NoFastOutput(st, t[..|t|-1], cfg) && OutAt(st, t, cfg, |t| - 1) == None
    ensures NoFastOutput(st, t, cfg)
  {
    forall n | 0 <= n < |t| && OutAt(st, t, cfg, n).Some?
      ensures !OutAt(st, t, cfg, n).value.pgn.fast
    {
      assert t[..|t|-1][..n] == t[..n];
      assert OutAt(st, t[..|t|-1], cfg, n).Some?;
    }
  }

  /** The state before frame m of a packet, whatever came in between. */
  lemma {:induction false} Collecting(st: State, unit: nat, list: seq<Pgn>, ws: seq<Pgn>, p: seq<byte>, s: nat,
                                      parts: seq<Frame>, gaps: seq<seq<Frame>>, cfg: Config)
    requires Bound(st, unit, list) && AreParts(unit, list, ws, p, s, parts, gaps) && Quiet(unit, list, s, gaps)
    ensures var t := Weave(parts, gaps);
            && t != [] && NoFastOutput(st, t[..|t|-1], cfg)
            && if |parts| < FrameCount(|p|) then
                 After(st, t, cfg) == st.(idx := s + |parts|, len := |p|, buf := p[..Carried(|p|, |parts|)])
                 && NoFastOutput(st, t, cfg)
               else
                 OutAt(st, t, cfg, |t| - 1) == if |p| >= 7 then Some(Delivery(ws[|ws| - 1], p)) else None
    decreases |parts|
  {
    var m := |parts| - 1;
    var before := Weave(parts[..m], gaps[..m]);
    if m > 0 {
      Collecting(st, unit, list, ws[..m], p, s, parts[..m], gaps[..m], cfg);
    } else {
      assert before == [];
    }
    var st1 := After(st, before, cfg);
    assert AllHarmless(gaps[m], unit, list, st1.idx);
    Gap(st1, gaps[m], unit, list, cfg);
    Attach(st, before, gaps[m], parts[m], cfg);
    PartStep(st1, parts[m], unit, list, ws[m], p, s, m, cfg);
    if m + 1 < FrameCount(|p|) {
      SilentLast(st, Weave(parts, gaps), cfg);
    }
  }

  /** Completeness: through any harmless traffic, a payload of at most 223 bytes is delivered byte for
      byte at its last frame, and not before, whatever fast groups the frames travel as: only the last
      one's is seen. A payload that fits its first frame is not delivered by it. */
  lemma Completeness(st: State, unit: nat, list: seq<Pgn>, ws: seq<Pgn>, p: seq<byte>, s: nat,
                     parts: seq<Frame>, gaps: seq<seq<Frame>>, cfg: Config)
    requires Bound(st, unit, list) && AreParts(unit, list, ws, p, s, parts, gaps) && Quiet(unit, list, s, gaps)
    requires |parts| == FrameCount(|p|)
    ensures var t := Weave(parts, gaps);
            && t != [] && NoFastOutput(st, t[..|t|-1], cfg)
            && OutAt(st, t, cfg, |t| - 1) == if |p| >= 7 then Some(Delivery(ws[|ws| - 1], p)) else None
  {
    Collecting(st, unit, list, ws, p, s, parts, gaps, cfg);
  }

  /** No frame is taken into the packet, given the counter expected when it comes. */
  ghost predicate Ignored(st: State, fs: seq<Frame>, unit: nat, list: seq<Pgn>, cfg: Config) {
    forall n: nat :: n < |fs| ==> Harmless(fs[n], unit, list, After(st, fs[..n], cfg).idx)
  }

  lemma {:induction false} IgnoredIff(st: State, fs: seq<Frame>, unit: nat, list: seq<Pgn>, cfg: Config)
    requires Bound(st, unit, list)
    ensures Ignored(st, fs, unit, list, cfg) <==> AllHarmless(fs, unit, list, st.idx)
    decreases |fs|
  {
    if fs != [] {
      var m := |fs| - 1;
      var init := fs[..m];
      assert fs == init + [fs[m]];
      assert forall n: nat :: n < m ==> init[..n] == fs[..n];
      IgnoredIff(st, init, unit, list, cfg);
      if AllHarmless(init, unit, list, st.idx) {
        Gap(st, init, unit, list, cfg);
      }
    }
  }

  /** The gaps of a packet are ignored where they come. */
  ghost predicate GapsIgnored(st: State, unit: nat, list: seq<Pgn>, parts: seq<Frame>, gaps: seq<seq<Frame>>, cfg: Config)
    requires |parts| == |gaps|
  {
    |parts| <= 1 ||
    (var m := |parts| - 1;
     && GapsIgnored(st, unit, list, parts[..m], gaps[..m], cfg)
     && Ignored(After(st, Weave(parts[..m], gaps[..m]), cfg), gaps[m], unit, list, cfg))
  }

  lemma FewerParts(unit: nat, list: seq<Pgn>, ws: seq<Pgn>, p: seq<byte>, s: nat, parts: seq<Frame>,
                   gaps: seq<seq<Frame>>, m: nat)
    requires AreParts(unit, list, ws, p, s, parts, gaps) && 0 < m < |parts|
    ensures AreParts(unit, list, ws[..m], p, s, parts[..m], gaps[..m])
  {
  }

  lemma OneMoreGap(unit: nat, list: seq<Pgn>, s: nat, gaps: seq<seq<Frame>>, m: nat)
    requires 0 < m == |gaps| - 1
    ensures Quiet(unit, list, s, gaps) <==> Quiet(unit, list, s, gaps[..m]) && AllHarmless(gaps[m], unit, list, s + m)
  {
    assert forall i :: 0 < i < m ==> gaps[..m][i] == gaps[i];
  }

  lemma BeforeLastGap(st: State, unit: nat, list: seq<Pgn>, ws: seq<Pgn>, p: seq<byte>, s: nat, parts: seq<Frame>,
                      gaps: seq<seq<Frame>>, cfg: Config)
    requires Bound(st, unit, list) && AreParts(unit, list, ws, p, s, parts, gaps) && Quiet(unit, list, s, gaps)
    requires |parts| < FrameCount(|p|)
    ensures Bound(After(st, Weave(parts, gaps), cfg), unit, list)
    ensures After(st, Weave(parts, gaps), cfg).idx == s + |parts|
  {
    Collecting(st, unit, list, ws, p, s, parts, gaps, cfg);
  }

  /** The frames taken into the packet are exactly its own when, and only when, the traffic between them is
      harmless. */
  lemma {:induction false} OnlyHarmlessIsIgnored(st: State, unit: nat, list: seq<Pgn>, ws: seq<Pgn>, p: seq<byte>,
                                                 s: nat, parts: seq<Frame>, gaps: seq<seq<Frame>>, cfg: Config)
    requires Bound(st, unit, list) && AreParts(unit, list, ws, p, s, parts, gaps)
    ensures GapsIgnored(st, unit, list, parts, gaps, cfg) <==> Quiet(unit, list, s, gaps)
    decreases |parts|
  {
    var m := |parts| - 1;
    if m > 0 {
      var (ps, gs) := (parts[..m], gaps[..m]);
      FewerParts(unit, list, ws, p, s, parts, gaps, m);
      OnlyHarmlessIsIgnored(st, unit, list, ws[..m], p, s, ps, gs, cfg);
      OneMoreGap(unit, list, s, gaps, m);
      if Quiet(unit, list, s, gs) {
        BeforeLastGap(st, unit, list, ws[..m], p, s, ps, gs, cfg);
        IgnoredIff(After(st, Weave(ps, gs), cfg), gaps[m], unit, list, cfg);
      }
    }
  }

  // ----- soundness

  /** Frame n of a run reaches the fast-packet branches. */
  ghost predicate Handled(fs: seq<Frame>, cfg: Config, n: nat) {
    n < |fs| &&
    var st := After(FRESH, fs[..n], cfg);
    var f := fs[n];
        f.Extended() && f.Unit() == OwnUnit(st, f, cfg) && Lookup(cfg, st.list, f.Group()).0.Some? && Lookup(cfg, st.list, f.Group()).0.value.fast
  }

  /** Frame n starts a packet over. */
  ghost predicate Starts(fs: seq<Frame>, cfg: Config, n: nat) {
    Handled(fs, cfg, n) && fs[n].data[0] % 32 == 0
  }

  ghost predicate Delivers(fs: seq<Frame>, cfg: Config, n: nat) {
    Handled(fs, cfg, n) && OutAt(FRESH, fs, cfg, n).Some?
  }

  /** ids are the latest first frame before n and frames after it with consecutive counters. */
  ghost predicate IsChain(fs: seq<Frame>, cfg: Config, n: nat, ids: seq<nat>) {
    && ids != [] && n <= |fs|
    && (forall j :: 0 <= j < |ids| ==> ids[j] < n && Handled(fs, cfg, ids[j]))
    && (forall j, k :: 0 <= j < k < |ids| ==> ids[j] < ids[k])
    && Starts(fs, cfg, ids[0])
    && (forall i :: ids[0] < i < n ==> !Starts(fs, cfg, i))
    && (forall j :: 0 <= j < |ids| ==> fs[ids[j]].data[0] == fs[ids[0]].data[0] + j)
  }

  /** Bytes 2 to 7 of the first frame and bytes 1 to 7 of the others. */
  function Joined(fs: seq<Frame>, ids: seq<nat>): seq<byte>
    requires ids != [] && forall j :: 0 <= j < |ids| ==> ids[j] < |fs|
  {
    if |ids| == 1 then fs[ids[0]].data[2..8]
    else Joined(fs, ids[..|ids|-1]) + fs[ids[|ids|-1]].data[1..8]
  }

  lemma {:induction false} JoinedLength(fs: seq<Frame>, ids: seq<nat>)
    requires ids != [] && forall j :: 0 <= j < |ids| ==> ids[j] < |fs|
    ensures |Joined(fs, ids)| == 7 * |ids| - 1
    decreases |ids|
  {
    if |ids| > 1 {
      JoinedLength(fs, ids[..|ids|-1]);
    }
  }

  function CutTo(bytes: seq<byte>, len: nat): seq<byte>
    requires |bytes| >= 6
  {
    if len < 6 then bytes[..6] else bytes[..Min(|bytes|, len)]
  }

  /** Nothing is delivered from frame i on, before frame n. */
  ghost predicate Undelivered(fs: seq<Frame>, cfg: Config, i: nat, n: nat) {
    forall k: nat :: i <= k < n ==> !Delivers(fs, cfg, k)
  }

  /** What the reassembler has collected: the joined bytes, cut to the declared length when that is
      at least the six bytes of a first frame. */
  ghost predicate Holds(st: State, fs: seq<Frame>, cfg: Config, n: nat, ids: seq<nat>) {
    IsChain(fs, cfg, n, ids) &&
    var len := fs[ids[0]].data[1];
    var bytes := Joined(fs, ids);
    && |bytes| >= 6 && st.idx == fs[ids[0]].data[0] + |ids| && st.len == len
    && Undelivered(fs, cfg, ids[0], n)
    && st.buf == CutTo(bytes, len)
    && (|st.buf| == len ==> |ids| == 1)
  }

  /** After a delivery, or before any first frame, nothing can be delivered until a first frame. */
  ghost predicate Spent(st: State, fs: seq<Frame>, cfg: Config, n: nat) {
    n <= |fs| && st.len == 0 && (st.buf != [] || st.idx == 0)
  }

  ghost predicate DeliveryIsSound(fs: seq<Frame>, cfg: Config, n: nat, ids: seq<nat>, d: Delivery) {
    && n < |fs| && IsChain(fs, cfg, n + 1, ids) && ids[|ids|-1] == n && |ids| >= 2
    && |d.data| == fs[ids[0]].data[1] && 6 <= |d.data| <= 223
    && d.data <= Joined(fs, ids)
    && Undelivered(fs, cfg, ids[0], n)
    && Lookup(cfg, After(FRESH, fs[..n], cfg).list, fs[n].Group()).0 == Some(d.pgn)
  }

  ghost predicate Tracked(st: State, fs: seq<Frame>, cfg: Config, n: nat, ids: seq<nat>) {
    Holds(st, fs, cfg, n, ids) || Spent(st, fs, cfg, n)
  }

  lemma NextState(fs: seq<Frame>, cfg: Config, n: nat)
    requires n < |fs|
    ensures After(FRESH, fs[..n + 1], cfg) == Step(After(FRESH, fs[..n], cfg), fs[n], cfg).0
    ensures OutAt(FRESH, fs, cfg, n) == Step(After(FRESH, fs[..n], cfg), fs[n], cfg).1
  {
    assert fs[..n + 1][..n] == fs[..n];
  }

  /** A handled frame is collected, whatever it does to the unit and the list. */
  lemma HandledStep(fs: seq<Frame>, cfg: Config, n: nat)
    requires Handled(fs, cfg, n)
    ensures var st := After(FRESH, fs[..n], cfg);
            var work := Lookup(cfg, st.list, fs[n].Group()).0;
            && work.Some?
            && var (next, out) := Collect(st, fs[n], work.value);
               var st' := After(FRESH, fs[..n + 1], cfg);
               && st'.idx == next.idx && st'.len == next.len && st'.buf == next.buf
               && OutAt(FRESH, fs, cfg, n) == out
  {
    NextState(fs, cfg, n);
  }

  /** An unhandled frame does not touch the packet and delivers nothing that travels as one. */
  lemma UnhandledStep(fs: seq<Frame>, cfg: Config, n: nat)
    requires n < |fs| && !Handled(fs, cfg, n)
    ensures var st, st' := After(FRESH, fs[..n], cfg), After(FRESH, fs[..n + 1], cfg);
            st'.idx == st.idx && st'.len == st.len && st'.buf == st.buf
  {
    NextState(fs, cfg, n);
  }

  lemma ChainIsShort(fs: seq<Frame>, cfg: Config, n: nat, ids: seq<nat>)
    requires IsChain(fs, cfg, n, ids)
    ensures |ids| <= 32
  {
    if |ids| > 32 {
      assert fs[ids[32]].data[0] == fs[ids[0]].data[0] + 32;
      assert ids[0] < ids[32];
      assert Starts(fs, cfg, ids[32]);
    }
  }

  lemma JoinedGrows(fs: seq<Frame>, ids: seq<nat>, n: nat)
    requires ids != [] && n < |fs| && forall j :: 0 <= j < |ids| ==> ids[j] < |fs|
    ensures Joined(fs, ids + [n]) == Joined(fs, ids) + fs[n].data[1..8]
  {
    assert (ids + [n])[..|ids|] == ids;
  }

  lemma ChainGrows(fs: seq<Frame>, cfg: Config, n: nat, ids: seq<nat>)
    requires IsChain(fs, cfg, n, ids) && Handled(fs, cfg, n)
    requires fs[n].data[0] % 32 != 0 && fs[n].data[0] == fs[ids[0]].data[0] + |ids|
    ensures IsChain(fs, cfg, n + 1, ids + [n])
  {
    var longer := ids + [n];
    assert longer[0] == ids[0];
    forall j | 0 <= j < |longer|
      ensures longer[j] < n + 1 && Handled(fs, cfg, longer[j]) && fs[longer[j]].data[0] == fs[longer[0]].data[0] + j
    {
      assert j < |ids| ==> longer[j] == ids[j];
    }
    forall j, k | 0 <= j < k < |longer|
      ensures longer[j] < longer[k]
    {
      assert longer[j] == ids[j] && (k < |ids| ==> longer[k] == ids[k]);
    }
    assert !Starts(fs, cfg, n);
  }

  lemma ChainStays(fs: seq<Frame>, cfg: Config, n: nat, ids: seq<nat>)
    requires IsChain(fs, cfg, n, ids) && n < |fs| && !Starts(fs, cfg, n)
    ensures IsChain(fs, cfg, n + 1, ids)
  {
  }

  lemma BufferGrows(bytes: seq<byte>, len: nat, more: seq<byte>)
    requires |bytes| >= 6 && |more| == 7 && (|bytes| > len ==> len < 6)
    ensures CutTo(bytes, len) + more[..Min(7, Max(0, len - |CutTo(bytes, len)|))] == CutTo(bytes + more, len)
  {
  }

  lemma CollectLive(st: State, f: Frame, work: Pgn, bytes: seq<byte>)
    requires |bytes| >= 6 && (|bytes| > st.len ==> st.len < 6) && st.buf == CutTo(bytes, st.len)
    requires f.data[0] % 32 != 0 && f.data[0] == st.idx
    ensures var buf := CutTo(bytes + f.data[1..8], st.len);
            Collect(st, f, work) == if |buf| == st.len then (st.(buf := buf, len := 0), Some(Delivery(work, buf)))
                                    else (st.(buf := buf, idx := st.idx + 1), None)
  {
    BufferGrows(bytes, st.len, f.data[1..8]);
    assert Added(st, f) == f.data[1..8][..Min(7, Max(0, st.len - |st.buf|))];
  }

  lemma LiveStep(fs: seq<Frame>, cfg: Config, n: nat, ids: seq<nat>)
    requires n < |fs| && Holds(After(FRESH, fs[..n], cfg), fs, cfg, n, ids) && Handled(fs, cfg, n)
    requires fs[n].data[0] % 32 != 0 && fs[n].data[0] == After(FRESH, fs[..n], cfg).idx
    ensures IsChain(fs, cfg, n + 1, ids + [n]) && |ids| < 32
    ensures |Joined(fs, ids + [n])| == 7 * |ids| + 6
    ensures var st, st' := After(FRESH, fs[..n], cfg), After(FRESH, fs[..n + 1], cfg);
            var buf := CutTo(Joined(fs, ids + [n]), st.len);
            && st'.buf == buf
            && if |buf| == st.len then
                 st'.len == 0 &&
                 OutAt(FRESH, fs, cfg, n) == Some(Delivery(Lookup(cfg, st.list, fs[n].Group()).0.value, buf))
               else st'.len == st.len && st'.idx == st.idx + 1 && OutAt(FRESH, fs, cfg, n) == None
  {
    var st := After(FRESH, fs[..n], cfg);
    HandledStep(fs, cfg, n);
    ChainGrows(fs, cfg, n, ids);
    JoinedGrows(fs, ids, n);
    ChainIsShort(fs, cfg, n + 1, ids + [n]);
    JoinedLength(fs, ids);
    CollectLive(st, fs[n], Lookup(cfg, st.list, fs[n].Group()).0.value, Joined(fs, ids));
  }

  lemma OneMoreUndelivered(fs: seq<Frame>, cfg: Config, i: nat, n: nat)
    requires Undelivered(fs, cfg, i, n) && !Delivers(fs, cfg, n)
    ensures Undelivered(fs, cfg, i, n + 1)
  {
  }

  lemma LiveHolds(st: State, fs: seq<Frame>, cfg: Config, n: nat, ids: seq<nat>)
    requires ids != [] && IsChain(fs, cfg, n + 1, ids + [n]) && Undelivered(fs, cfg, ids[0], n + 1)
    requires ids[0] < |fs| && st.idx == fs[ids[0]].data[0] + |ids| + 1 && st.len == fs[ids[0]].data[1]
    requires |Joined(fs, ids + [n])| >= 6 && st.buf == CutTo(Joined(fs, ids + [n]), st.len) && |st.buf| != st.len
    ensures Holds(st, fs, cfg, n + 1, ids + [n])
  {
    assert (ids + [n])[0] == ids[0];
  }

  /** A continuation frame of a live packet. */
  lemma ContinueLive(st: State, fs: seq<Frame>, cfg: Config, n: nat, ids: seq<nat>)
    requires n < |fs| && st == After(FRESH, fs[..n], cfg) && Holds(st, fs, cfg, n, ids)
    requires Handled(fs, cfg, n) && fs[n].data[0] % 32 != 0 && fs[n].data[0] == st.idx
    ensures Tracked(After(FRESH, fs[..n + 1], cfg), fs, cfg, n + 1, ids + [n])
    ensures Delivers(fs, cfg, n) ==> DeliveryIsSound(fs, cfg, n, ids + [n], OutAt(FRESH, fs, cfg, n).value)
  {
    LiveStep(fs, cfg, n, ids);
    assert (ids + [n])[0] == ids[0];
    if |CutTo(Joined(fs, ids + [n]), st.len)| != st.len {
      OneMoreUndelivered(fs, cfg, ids[0], n);
      LiveHolds(After(FRESH, fs[..n + 1], cfg), fs, cfg, n, ids);
    }
  }

  /** A continuation frame after a delivery. */
  lemma ContinueSpent(fs: seq<Frame>, cfg: Config, n: nat)
    requires n < |fs| && Spent(After(FRESH, fs[..n], cfg), fs, cfg, n)
    requires Handled(fs, cfg, n) && fs[n].data[0] % 32 != 0 && fs[n].data[0] == After(FRESH, fs[..n], cfg).idx
    ensures Spent(After(FRESH, fs[..n + 1], cfg), fs, cfg, n + 1) && !Delivers(fs, cfg, n)
  {
    HandledStep(fs, cfg, n);
    var st := After(FRESH, fs[..n], cfg);
    assert Added(st, fs[n]) == [];
    assert st.buf + [] == st.buf;
  }

  /** An accepted continuation frame. */
  lemma Continue(st: State, fs: seq<Frame>, cfg: Config, n: nat, ids: seq<nat>) returns (ids': seq<nat>)
    requires n < |fs| && st == After(FRESH, fs[..n], cfg) && Tracked(st, fs, cfg, n, ids)
    requires Handled(fs, cfg, n) && fs[n].data[0] % 32 != 0 && fs[n].data[0] == st.idx
    ensures Tracked(After(FRESH, fs[..n + 1], cfg), fs, cfg, n + 1, ids')
    ensures Delivers(fs, cfg, n) ==> DeliveryIsSound(fs, cfg, n, ids', OutAt(FRESH, fs, cfg, n).value)
  {
    if Spent(st, fs, cfg, n) {
      ids' := ids;
      ContinueSpent(fs, cfg, n);
    } else {
      ids' := ids + [n];
      ContinueLive(st, fs, cfg, n, ids);
    }
  }

  lemma {:induction false} Track(fs: seq<Frame>, cfg: Config, n: nat) returns (ids: seq<nat>)
    requires n <= |fs|
    ensures Tracked(After(FRESH, fs[..n], cfg), fs, cfg, n, ids)
  {
    if n == 0 {
      ids := [];
    } else {
      ids := Track(fs, cfg, n - 1);
      ids := TrackStep(fs, cfg, n - 1, ids);
    }
  }

  lemma TrackStep(fs: seq<Frame>, cfg: Config, n: nat, ids: seq<nat>) returns (ids': seq<nat>)
    requires n < |fs| && Tracked(After(FRESH, fs[..n], cfg), fs, cfg, n, ids)
    ensures Tracked(After(FRESH, fs[..n + 1], cfg), fs, cfg, n + 1, ids')
    ensures Delivers(fs, cfg, n) ==> DeliveryIsSound(fs, cfg, n, ids', OutAt(FRESH, fs, cfg, n).value)
  {
    var st := After(FRESH, fs[..n], cfg);
    if !Handled(fs, cfg, n) {
      UnhandledStep(fs, cfg, n);
      ids' := ids;
      Unmoved(fs, cfg, n, ids);
    } else {
      HandledStep(fs, cfg, n);
      if fs[n].data[0] % 32 == 0 {
        ids' := [n];
        Started(fs, cfg, n);
      } else if fs[n].data[0] == st.idx {
        ids' := Continue(st, fs, cfg, n, ids);
      } else {
        ids' := ids;
        Unmoved(fs, cfg, n, ids);
      }
    }
  }

  lemma StartedChain(fs: seq<Frame>, cfg: Config, n: nat)
    requires Starts(fs, cfg, n)
    ensures IsChain(fs, cfg, n + 1, [n])
  {
  }

  lemma StartedState(fs: seq<Frame>, cfg: Config, n: nat)
    requires Starts(fs, cfg, n)
    ensures var st := After(FRESH, fs[..n + 1], cfg);
            st.idx == fs[n].data[0] + 1 && st.len == fs[n].data[1] && st.buf == fs[n].data[2..8]
    ensures !Delivers(fs, cfg, n)
  {
    HandledStep(fs, cfg, n);
  }

  lemma CutToAll(bytes: seq<byte>, len: nat)
    requires |bytes| == 6
    ensures CutTo(bytes, len) == if len < 6 then bytes else bytes[..6]
    ensures bytes[..6] == bytes
  {
  }

  lemma Started(fs: seq<Frame>, cfg: Config, n: nat)
    requires Starts(fs, cfg, n)
    ensures Holds(After(FRESH, fs[..n + 1], cfg), fs, cfg, n + 1, [n]) && !Delivers(fs, cfg, n)
  {
    StartedChain(fs, cfg, n);
    StartedState(fs, cfg, n);
    CutToAll(fs[n].data[2..8], fs[n].data[1]);
    assert Joined(fs, [n]) == fs[n].data[2..8];
  }

  lemma Unmoved(fs: seq<Frame>, cfg: Config, n: nat, ids: seq<nat>)
    requires n < |fs| && !Starts(fs, cfg, n) && !Delivers(fs, cfg, n)
    requires Tracked(After(FRESH, fs[..n], cfg), fs, cfg, n, ids)
    requires var st, st' := After(FRESH, fs[..n], cfg), After(FRESH, fs[..n + 1], cfg);
             st'.idx == st.idx && st'.len == st.len && st'.buf == st.buf
    ensures Tracked(After(FRESH, fs[..n + 1], cfg), fs, cfg, n + 1, ids)
  {
    if Holds(After(FRESH, fs[..n], cfg), fs, cfg, n, ids) {
      ChainStays(fs, cfg, n, ids);
    }
  }

  /** Soundness: whatever a run delivers as a fast packet is the latest first frame's bytes followed by
      those of frames with consecutive counters, cut to the declared length of 6 to 223; no first frame
      gives rise to two deliveries; and the group delivered is that of the last frame. */
  lemma Soundness(fs: seq<Frame>, cfg: Config, n: nat) returns (ids: seq<nat>)
    requires n < |fs| && Delivers(fs, cfg, n)
    ensures DeliveryIsSound(fs, cfg, n, ids, OutAt(FRESH, fs, cfg, n).value)
  {
    ids := Track(fs, cfg, n);
    ids := TrackStep(fs, cfg, n, ids);
  }

  /** The group of a continuation frame is not compared with the first frame's: one of another group that
      has the expected counter completes the packet, which is then delivered under its own group. */
  lemma GroupsMayMix(st: State, unit: nat, list: seq<Pgn>, w: Pgn, v: Pgn, first: Frame, second: Frame, cfg: Config)
    requires Bound(st, unit, list) && From(first, unit, list, w) && From(second, unit, list, v)
    requires first.data[0] % 32 == 0 && 7 <= first.data[1] <= 13 && second.data[0] == first.data[0] + 1
    ensures OutAt(st, [first, second], cfg, 1) ==
            Some(Delivery(v, first.data[2..8] + second.data[1..first.data[1] as int - 5]))
  {
    var fs := [first, second];
    assert fs[..1] == [first] && [first][..0] == [];
    assert After(st, [first], cfg) == Step(After(st, [], cfg), first, cfg).0;
  }

  // ----- identifiers on the bus

  /** The extended identifier of a group, the destination standing in its low byte. */
  function CanId(prio: nat, g: nat, dest: nat, unit: nat): nat {
    0x8000_0000 + prio * 0x400_0000 + (g + dest) * 0x100 + unit
  }

  /** f carries group g from a unit, under some priority; a group of format 1, whose second byte is under 240,
      has any destination in its low byte. */
  ghost predicate HasId(f: Frame, g: nat, unit: nat) {
    && g < 0x2_0000 && unit < 0x100
    && exists prio: nat, dest: nat ::
         && prio < 8 && dest < 0x100 && f.canId == CanId(prio, g, dest, unit)
         && if g / 0x100 % 0x100 < 240 then g % 0x100 == 0 else dest == 0
  }

  lemma IdParts(prio: nat, h: nat, unit: nat)
    requires prio < 8 && h < 0x2_0000 && unit < 0x100
    ensures var id := 0x8000_0000 + prio * 0x400_0000 + h * 0x100 + unit;
            id / 0x8000_0000 % 2 == 1 && id % 0x100 == unit && id / 0x100 % 0x2_0000 == h
  {
    var id := 0x8000_0000 + prio * 0x400_0000 + h * 0x100 + unit;
    assert id / 0x100 == 0x80_0000 + prio * 0x4_0000 + h;
  }

  lemma GroupWithDest(g: nat, dest: nat)
    requires g < 0x2_0000 && g % 0x100 == 0 && dest < 0x100
    ensures g + dest < 0x2_0000 && (g + dest) / 0x100 == g / 0x100 && (g + dest) / 0x100 * 0x100 == g
  {
  }

  /** Whatever the priority and the destination, the frame is read as one of its group from its unit. */
  lemma IdIsRead(f: Frame, g: nat, unit: nat)
    requires HasId(f, g, unit)
    ensures f.Extended() && f.Unit() == unit && f.Group() == g
  {
    var prio: nat, dest: nat :|
      && prio < 8 && dest < 0x100 && f.canId == CanId(prio, g, dest, unit)
      && if g / 0x100 % 0x100 < 240 then g % 0x100 == 0 else dest == 0;
    if g / 0x100 % 0x100 < 240 {
      GroupWithDest(g, dest);
    }
    IdParts(prio, g + dest, unit);
  }

  /** A frame of a single-frame row from the session's unit is delivered at once, as many bytes as it has. */
  lemma SingleFrame(st: State, unit: nat, list: seq<Pgn>, r: nat, f: Frame, cfg: Config)
    requires Bound(st, unit, list) && FirstRow(list, r) && !list[r].fast && HasId(f, list[r].pgn, unit)
    ensures Step(st, f, cfg) == (st, Some(Delivery(list[r], f.data[..f.dlc])))
  {
    IdIsRead(f, list[r].pgn, unit);
    SearchFindsFirst(list, r);
  }

  /** A frame that is not extended, or comes from another unit, does nothing. */
  lemma NotForUs(st: State, unit: nat, f: Frame, cfg: Config)
    requires st.unit == Some(unit)
    requires f.canId < 0x8000_0000 || (f.canId < 0x1_0000_0000 && f.canId % 0x100 != unit)
    ensures Step(st, f, cfg) == (st, None)
  {
  }

  /** A frame of a group for which the list has no row does nothing. */
  lemma NotListed(st: State, unit: nat, list: seq<Pgn>, g: nat, f: Frame, cfg: Config)
    requires Bound(st, unit, list) && HasId(f, g, unit) && forall q :: 0 <= q < |list| ==> list[q].pgn != g
    ensures Step(st, f, cfg) == (st, None)
  {
    IdIsRead(f, g, unit);
    SearchFindsNone(list, g);
  }

  /** Table a is the first with a row for the group of its row r, which is the first one there. */
  ghost predicate FirstIn(tables: seq<seq<Pgn>>, a: nat, r: nat) {
    && a < |tables| && FirstRow(tables[a], r)
    && forall b, q :: 0 <= b < a && 0 <= q < |tables[b]| ==> tables[b][q].pgn != tables[a][r].pgn
  }

  lemma {:induction false} FirstTableFound(tables: seq<seq<Pgn>>, a: nat, r: nat)
    requires FirstIn(tables, a, r)
    ensures FirstWith(tables, tables[a][r].pgn) == Some(tables[a])
    decreases a
  {
    if a == 0 {
      SearchFindsFirst(tables[0], r);
    } else {
      SearchFindsNone(tables[0], tables[a][r].pgn);
      assert forall b :: 0 <= b < |tables| - 1 ==> tables[1..][b] == tables[b + 1];
      FirstTableFound(tables[1..], a - 1, r);
    }
  }

  /** The session has this unit, or will take it: it is listed under it, or under none. */
  ghost predicate Takes(st: State, cfg: Config, unit: nat) {
    st.unit == Some(unit) || (st.unit == None && (cfg.listed == None || cfg.listed == Some(unit)))
  }

  /** A session without a list, to which a frame of its unit comes: the group is looked up in the tables in
      order, a single-frame row is delivered, and the table is kept if the row tells the device's type. */
  lemma UndecidedSession(st: State, a: nat, r: nat, unit: nat, f: Frame, cfg: Config)
    requires st.list == None && Takes(st, cfg, unit) && cfg.tables == TABLES
    requires FirstIn(TABLES, a, r) && HasId(f, TABLES[a][r].pgn, unit)
    ensures var (row, next) := (TABLES[a][r], Step(st, f, cfg));
            && next.0.unit == Some(unit) && next.0.list == (if row.kind > 0 then Some(TABLES[a]) else None)
            && (!row.fast ==> next.1 == Some(Delivery(row, f.data[..f.dlc])))
  {
    IdIsRead(f, TABLES[a][r].pgn, unit);
    FirstTableFound(TABLES, a, r);
    SearchFindsFirst(TABLES[a], r);
  }

  /** A session listed under another unit than its first frame's does not take that frame. */
  lemma ListedElsewhere(st: State, g: nat, unit: nat, other: nat, f: Frame, cfg: Config)
    requires st.unit == None && cfg.listed == Some(other) && other != unit && HasId(f, g, unit)
    ensures Step(st, f, cfg) == (st.(unit := Some(other)), None)
  {
    IdIsRead(f, g, unit);
  }

  /** Unit and list, once there, stay. */
  lemma UnitAndListStay(st: State, f: Frame, cfg: Config)
    ensures st.unit.Some? ==> Step(st, f, cfg).0.unit == st.unit
    ensures st.list.Some? ==> Step(st, f, cfg).0.list == st.list
  {
  }

  /** Traffic, told by its identifiers, that leaves a packet alone whose next counter is c. */
  ghost predicate Passes(f: Frame, unit: nat, list: seq<Pgn>, c: nat) {
    || f.canId < 0x8000_0000
    || (f.canId < 0x1_0000_0000 && f.canId % 0x100 != unit)
    || (f.data[0] % 32 != 0 && f.data[0] != c)
    || (exists r: nat :: FirstRow(list, r) && !list[r].fast && HasId(f, list[r].pgn, unit))
    || (exists g: nat :: HasId(f, g, unit) && forall q :: 0 <= q < |list| ==> list[q].pgn != g)
  }

  lemma PassesIsHarmless(f: Frame, unit: nat, list: seq<Pgn>, c: nat)
    requires Passes(f, unit, list, c)
    ensures Harmless(f, unit, list, c)
  {
    if r: nat :| FirstRow(list, r) && !list[r].fast && HasId(f, list[r].pgn, unit) {
      IdIsRead(f, list[r].pgn, unit);
      SearchFindsFirst(list, r);
    } else if g: nat :| HasId(f, g, unit) && forall q :: 0 <= q < |list| ==> list[q].pgn != g {
      IdIsRead(f, g, unit);
      SearchFindsNone(list, g);
    }
  }

  /** Part i of payload p under counter s, as it goes out on the bus under row r. */
  ghost predicate OnBus(f: Frame, unit: nat, list: seq<Pgn>, r: nat, p: seq<byte>, s: nat, i: nat) {
    FirstRow(list, r) && list[r].fast && HasId(f, list[r].pgn, unit) && IsPart(f, p, s, i)
  }

  /** Every payload of 7 to 223 bytes, sent under any fast row in frames with its identifier, is delivered byte
      for byte under that row at its last frame and not before, through any traffic that passes it by. */
  lemma PayloadArrives(st: State, unit: nat, list: seq<Pgn>, r: nat, p: seq<byte>, s: nat,
                       parts: seq<Frame>, gaps: seq<seq<Frame>>, cfg: Config)
    requires Bound(st, unit, list) && r < |list| && 7 <= |p| <= 223 && s in {0, 32, 64, 96, 128, 160, 192, 224}
    requires |parts| == |gaps| == 1 + |p| / 7 && gaps[0] == []
    requires forall i :: 0 <= i < |parts| ==> OnBus(parts[i], unit, list, r, p, s, i)
    requires forall i, f :: 0 < i < |gaps| && f in gaps[i] ==> Passes(f, unit, list, s + i)
    ensures var t := Weave(parts, gaps);
            && t != [] && NoFastOutput(st, t[..|t|-1], cfg)
            && OutAt(st, t, cfg, |t| - 1) == Some(Delivery(list[r], p))
  {
    assert OnBus(parts[0], unit, list, r, p, s, 0);
    SearchFindsFirst(list, r);
    forall i | 0 <= i < |parts|
      ensures From(parts[i], unit, list, list[r]) && IsPart(parts[i], p, s, i)
    {
      assert OnBus(parts[i], unit, list, r, p, s, i);
      IdIsRead(parts[i], list[r].pgn, unit);
    }
    forall i | 0 < i < |gaps|
      ensures AllHarmless(gaps[i], unit, list, s + i)
    {
      forall f | f in gaps[i]
        ensures Harmless(f, unit, list, s + i)
      {
        PassesIsHarmless(f, unit, list, s + i);
      }
    }
    Completeness(st, unit, list, seq(|parts|, i => list[r]), p, s, parts, gaps, cfg);
  }
}
