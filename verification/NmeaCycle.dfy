/** driver_nmea0183.c: the end-of-cycle detector of nmea_parse. */
module NmeaCycle {
  import opened Options

  /** What a sentence means to the detector once its decoder has run: the number of its phrase
      (0 when no decoder ran), the timestamp it registered, and whether its phrase continues a cycle. */
  datatype Sentence = Sentence(tag: nat, stamp: Option<real>, continuer: bool)

  datatype Mask = Mask(clear: bool, report: bool)

  /** The word cycle_enders is the set of its bit positions. */
  datatype State = State(thisTime: real, lastTime: real, lastTag: nat, enders: set<nat>,
                         continues: bool, reliable: bool)

  const FRESH := State(0.0, 0.0, 0, {}, false, false)

  predicate TimeEqual(a: real, b: real) {
    -0.01 < a - b < 0.01
  }

  // ----- one sentence

  /** Timestamp bookkeeping and the learning of cycle enders. */
  function Learn(st: State, s: Sentence): State {
    var continues := st.continues || s.continuer;
    match s.stamp
    case Some(t) =>
      var ends := !TimeEqual(t, st.thisTime) && st.lastTag > 0 && !continues;
      st.(thisTime := t, lastTime := st.thisTime, continues := continues,
          enders := if ends then st.enders + {st.lastTag} else st.enders)
    case None =>
      st.(continues := continues,
          enders := if continues then st.enders - {st.lastTag} + {s.tag} else st.enders)
  }

  function Step(st: State, s: Sentence): State {
    var l := Learn(st, s);
    l.(lastTag := if s.stamp.Some? then s.tag else st.lastTag, reliable := st.reliable || l.enders != {})
  }

  function Signal(st: State, s: Sentence): Mask {
    var l := Learn(st, s);
    Mask(s.stamp.Some? && !TimeEqual(s.stamp.value, st.thisTime),
         (s.stamp.Some? || l.continues) && s.tag in l.enders)
  }

  class Session {
    var thisFracTime: real
    var lastFracTime: real
    var latchFracTime: bool
    var lastTag: nat
    var cycleEnders: set<nat>
    var cycleContinue: bool
    var cycleEndReliable: bool

    ghost function Abstract(): State
      reads this
    {
      State(thisFracTime, lastFracTime, lastTag, cycleEnders, cycleContinue, cycleEndReliable)
    }

    constructor ()
      ensures Abstract() == FRESH
    {
      thisFracTime, lastFracTime, latchFracTime := 0.0, 0.0, false;
      lastTag, cycleEnders, cycleContinue, cycleEndReliable := 0, {}, false, false;
    }

    method RegisterFractionalTime(t: real)
      modifies this
      ensures Abstract() == old(Abstract()).(thisTime := t, lastTime := old(thisFracTime)) && latchFracTime
    {
      lastFracTime := thisFracTime;
      thisFracTime := t;
      latchFracTime := true;
    }

    /** nmea_parse from the dispatch on, with the decoder's effect on the detector given by s. */
    method Parse(s: Sentence) returns (mask: Mask)
      modifies this
      ensures Abstract() == Step(old(Abstract()), s)
      ensures mask == Signal(old(Abstract()), s)
    {
      mask := Mask(false, false);
      latchFracTime := false;
      if s.stamp.Some? {
        RegisterFractionalTime(s.stamp.value);
      }
      if s.continuer {
        cycleContinue := true;
      }
      if latchFracTime {
        if !TimeEqual(thisFracTime, lastFracTime) {
          mask := mask.(clear := true);
          if lastTag > 0 && lastTag !in cycleEnders && !cycleContinue {
            cycleEnders := cycleEnders + {lastTag};
          }
        }
      } else if cycleContinue {
        cycleEnders := cycleEnders - {lastTag};
        cycleEnders := cycleEnders + {s.tag};
      }
      if (latchFracTime || cycleContinue) && s.tag in cycleEnders {
        mask := mask.(report := true);
      }
      if latchFracTime {
        lastTag := s.tag;
      }
      if cycleEnders != {} {
        cycleEndReliable := true;
      }
    }
  }

  /** Timestamps count as different from a hundredth of a second on: one that differs from the last starts a
      cycle and, unless there are continuation sentences, makes the phrase stamped before it an ender; one that
      does not differ starts nothing and teaches nothing. */
  lemma TimestampMeans(st: State, s: Sentence, t: real)
    requires s.stamp == Some(t)
    ensures t - st.thisTime >= 0.01 || st.thisTime - t >= 0.01 ==>
              && Signal(st, s).clear
              && Step(st, s).enders == if st.lastTag > 0 && !st.continues && !s.continuer then st.enders + {st.lastTag}
                                       else st.enders
    ensures -0.01 < t - st.thisTime < 0.01 ==> !Signal(st, s).clear && Step(st, s).enders == st.enders
    ensures Step(st, s).thisTime == t && Step(st, s).lastTime == st.thisTime && Step(st, s).lastTag == s.tag
  {
  }

  /** A sentence without a timestamp starts nothing, and teaches nothing before a continuation; after one it
      takes the place of the phrase stamped last among the enders, and is reported. */
  lemma NoTimestampMeans(st: State, s: Sentence)
    requires s.stamp == None
    ensures !Signal(st, s).clear && Step(st, s).thisTime == st.thisTime && Step(st, s).lastTag == st.lastTag
    ensures !st.continues && !s.continuer ==> Step(st, s).enders == st.enders && !Signal(st, s).report
    ensures st.continues || s.continuer ==>
              Step(st, s).enders == st.enders - {st.lastTag} + {s.tag} && Signal(st, s).report
  {
  }

  // ----- runs

  function After(st: State, ss: seq<Sentence>): State
    decreases |ss|
  {
    if ss == [] then st else After(Step(st, ss[0]), ss[1..])
  }

  function Signals(st: State, ss: seq<Sentence>): (ms: seq<Mask>)
    ensures |ms| == |ss|
    decreases |ss|
  {
    if ss == [] then [] else [Signal(st, ss[0])] + Signals(Step(st, ss[0]), ss[1..])
  }

  lemma {:induction false} RunConcat(st: State, a: seq<Sentence>, b: seq<Sentence>)
    ensures After(st, a + b) == After(After(st, a), b)
    ensures Signals(st, a + b) == Signals(st, a) + Signals(After(st, a), b)
    decreases |a|
  {
    if a == [] {
      assert a + b == b;
    } else {
      assert (a + b)[0] == a[0] && (a + b)[1..] == a[1..] + b;
      RunConcat(Step(st, a[0]), a[1..], b);
    }
  }

  // ----- fixed cycles

  /** One place in a device's cycle: its phrase number, and whether it carries the cycle's time. */
  datatype Slot = Slot(tag: nat, stamped: bool)

  function Sent(c: seq<Slot>, t: real): (ss: seq<Sentence>)
    ensures |ss| == |c|
  {
    seq(|c|, i requires 0 <= i < |c| => Sentence(c[i].tag, if c[i].stamped then Some(t) else None, false))
  }

  /** The cycle c sent once for every time. */
  function Train(c: seq<Slot>, times: seq<real>): (ss: seq<Sentence>)
    ensures |ss| == |times| * |c|
  {
    if times == [] then []
    else
      Distribute(|times|, |c|);
      Train(c, times[..|times|-1]) + Sent(c, times[|times|-1])
  }

  lemma Distribute(n: nat, m: nat)
    requires n > 0
    ensures n * m == (n - 1) * m + m
  {
  }

  /** f and l are the first and last stamped places of c, and stamped phrases have numbers. */
  ghost predicate IsCycle(c: seq<Slot>, f: nat, l: nat) {
    && f <= l < |c| && c[f].stamped && c[l].stamped
    && (forall i :: 0 <= i < |c| && c[i].stamped ==> f <= i <= l && c[i].tag > 0)
  }

  ghost predicate Apart(times: seq<real>) {
    forall k :: 0 < k < |times| ==> times[k] - times[k - 1] >= 0.01 || times[k - 1] - times[k] >= 0.01
  }

  lemma {:induction false} Unstamped(st: State, c: seq<Slot>, t: real)
    requires !st.continues && forall i :: 0 <= i < |c| ==> !c[i].stamped
    ensures After(st, Sent(c, t)) == (if c == [] then st else st.(reliable := st.reliable || st.enders != {}))
    ensures forall i :: 0 <= i < |c| ==> Signals(st, Sent(c, t))[i] == Mask(false, false)
    decreases |c|
  {
    if c != [] {
      var ss := Sent(c, t);
      assert ss[1..] == Sent(c[1..], t);
      Unstamped(Step(st, ss[0]), c[1..], t);
      forall i | 0 < i < |c|
        ensures Signals(st, ss)[i] == Mask(false, false)
      {
        assert Signals(st, ss)[i] == Signals(Step(st, ss[0]), ss[1..])[i - 1];
      }
    }
  }

  function FinalTag(tag: nat, c: seq<Slot>): nat
    decreases |c|
  {
    if c == [] then tag else FinalTag(if c[0].stamped then c[0].tag else tag, c[1..])
  }

  lemma {:induction false} FinalTagIs(tag: nat, c: seq<Slot>, l: int)
    requires -1 <= l < |c| && (l >= 0 ==> c[l].stamped)
    requires forall i :: l < i < |c| ==> !c[i].stamped
    ensures FinalTag(tag, c) == if l >= 0 then c[l].tag else tag
    decreases |c|
  {
    if c != [] {
      FinalTagIs(if c[0].stamped then c[0].tag else tag, c[1..], if l >= 0 then l - 1 else -1);
    }
  }

  /** After the first stamped sentence of a cycle: no more starts, no more learning. */
  lemma {:induction false} Rest(st: State, c: seq<Slot>, t: real)
    requires !st.continues && st.thisTime == t
    ensures var r := After(st, Sent(c, t));
            !r.continues && r.thisTime == t && r.enders == st.enders && r.lastTag == FinalTag(st.lastTag, c)
    ensures forall i :: 0 <= i < |c| ==>
              Signals(st, Sent(c, t))[i] == Mask(false, c[i].stamped && c[i].tag in st.enders)
    decreases |c|
  {
    if c != [] {
      var ss := Sent(c, t);
      assert ss[1..] == Sent(c[1..], t);
      Rest(Step(st, ss[0]), c[1..], t);
      forall i | 0 < i < |c|
        ensures Signals(st, ss)[i] == Mask(false, c[i].stamped && c[i].tag in st.enders)
      {
        assert Signals(st, ss)[i] == Signals(Step(st, ss[0]), ss[1..])[i - 1];
      }
    }
  }

  /** The cycle enders once the time t has begun a cycle. */
  function EndersAt(st: State, t: real): set<nat> {
    if (t - st.thisTime >= 0.01 || st.thisTime - t >= 0.01) && st.lastTag > 0 then st.enders + {st.lastTag}
    else st.enders
  }

  /** A cycle from its first timestamp on. */
  lemma FromFirst(st: State, c: seq<Slot>, l: nat, t: real)
    requires !st.continues && l < |c| && c[0].stamped && c[l].stamped
    requires forall i :: 0 <= i < |c| && c[i].stamped ==> i <= l
    ensures var r := After(st, Sent(c, t));
            !r.continues && r.thisTime == t && r.enders == EndersAt(st, t) && r.lastTag == c[l].tag
    ensures forall i :: 0 <= i < |c| ==>
              Signals(st, Sent(c, t))[i] ==
              Mask(i == 0 && (t - st.thisTime >= 0.01 || st.thisTime - t >= 0.01),
                   c[i].stamped && c[i].tag in EndersAt(st, t))
  {
    var ss, tail := Sent(c, t), c[1..];
    var st' := Step(st, ss[0]);
    assert ss[1..] == Sent(tail, t);
    Rest(st', tail, t);
    FinalTagIs(c[0].tag, tail, l - 1);
    forall i | 0 < i < |c|
      ensures Signals(st, ss)[i] == Mask(false, c[i].stamped && c[i].tag in st'.enders)
    {
      assert Signals(st, ss)[i] == Signals(st', Sent(tail, t))[i - 1] && tail[i - 1] == c[i];
    }
  }

  /** What comes before the first timestamp changes nothing and raises nothing. */
  lemma CycleParts(st: State, c: seq<Slot>, f: nat, l: nat, t: real) returns (st': State)
    requires IsCycle(c, f, l) && !st.continues
    ensures !st'.continues && st'.thisTime == st.thisTime && st'.lastTag == st.lastTag && st'.enders == st.enders
    ensures After(st, Sent(c, t)) == After(st', Sent(c[f..], t))
    ensures forall i :: 0 <= i < |c| ==>
              Signals(st, Sent(c, t))[i] == if i < f then Mask(false, false) else Signals(st', Sent(c[f..], t))[i - f]
  {
    var head, tail := c[..f], c[f..];
    assert Sent(c, t) == Sent(head, t) + Sent(tail, t);
    RunConcat(st, Sent(head, t), Sent(tail, t));
    Unstamped(st, head, t);
    st' := After(st, Sent(head, t));
  }

  /** One whole cycle, from any state without continuation. */
  lemma OneCycle(st: State, c: seq<Slot>, f: nat, l: nat, t: real)
    requires IsCycle(c, f, l) && !st.continues
    ensures var r := After(st, Sent(c, t));
            !r.continues && r.thisTime == t && r.enders == EndersAt(st, t) && r.lastTag == c[l].tag
    ensures forall i :: 0 <= i < |c| ==>
              Signals(st, Sent(c, t))[i] ==
              Mask(i == f && (t - st.thisTime >= 0.01 || st.thisTime - t >= 0.01),
                   c[i].stamped && c[i].tag in EndersAt(st, t))
  {
    var st' := CycleParts(st, c, f, l, t);
    FromFirst(st', c[f..], l - f, t);
    forall i | 0 <= i < |c|
      ensures Signals(st, Sent(c, t))[i] ==
              Mask(i == f && (t - st.thisTime >= 0.01 || st.thisTime - t >= 0.01),
                   c[i].stamped && c[i].tag in EndersAt(st, t))
    {
      assert i >= f ==> c[f..][i - f] == c[i];
    }
  }

  /** The enders in force from the second cycle on. */
  function LockedEnders(st: State, c: seq<Slot>, l: nat, t: real): set<nat>
    requires l < |c|
  {
    EndersAt(st, t) + {c[l].tag}
  }

  lemma {:induction false} WholeTrain(st: State, c: seq<Slot>, f: nat, l: nat, times: seq<real>)
    requires IsCycle(c, f, l) && Apart(times) && !st.continues && times != []
    ensures var r := After(st, Train(c, times));
            !r.continues && r.thisTime == times[|times|-1] && r.lastTag == c[l].tag &&
            r.enders == if |times| == 1 then EndersAt(st, times[0]) else LockedEnders(st, c, l, times[0])
    decreases |times|
  {
    var init, t := times[..|times|-1], times[|times|-1];
    RunConcat(st, Train(c, init), Sent(c, t));
    if init != [] {
      WholeTrain(st, c, f, l, init);
    }
    OneCycle(After(st, Train(c, init)), c, f, l, t);
  }

  lemma Spread(k: nat, d: nat, m: nat)
    ensures (k + 1 + d) * m >= k * m + m
  {
    assert (k + 1 + d) * m == k * m + m + d * m;
  }

  lemma InTrain(n: nat, m: nat, k: nat, i: nat)
    requires k < n && i < m
    ensures k * m + i < n * m
  {
    Spread(k, n - k - 1, m);
  }

  /** The cycle that follows a train. */
  lemma NextCycle(st: State, c: seq<Slot>, f: nat, l: nat, times: seq<real>, t: real, i: nat)
    requires IsCycle(c, f, l) && Apart(times) && !st.continues && times != [] && i < |c|
    requires var last := times[|times| - 1]; t - last >= 0.01 || last - t >= 0.01
    ensures var n := |Train(c, times)|;
            Signals(st, Train(c, times) + Sent(c, t))[n + i] ==
            Mask(i == f, c[i].stamped && c[i].tag in LockedEnders(st, c, l, times[0]))
  {
    RunConcat(st, Train(c, times), Sent(c, t));
    WholeTrain(st, c, f, l, times);
    OneCycle(After(st, Train(c, times)), c, f, l, t);
  }

  lemma {:induction false} LockedFrom(st: State, c: seq<Slot>, f: nat, l: nat, times: seq<real>, k: nat, i: nat)
    requires IsCycle(c, f, l) && Apart(times) && !st.continues
    requires 1 <= k < |times| && i < |c|
    ensures k * |c| + i < |Train(c, times)|
    ensures Signals(st, Train(c, times))[k * |c| + i] ==
            Mask(i == f, c[i].stamped && c[i].tag in LockedEnders(st, c, l, times[0]))
    decreases |times|
  {
    InTrain(|times|, |c|, k, i);
    var init, t := times[..|times|-1], times[|times|-1];
    if k < |init| {
      RunConcat(st, Train(c, init), Sent(c, t));
      LockedFrom(st, c, f, l, init, k, i);
    } else {
      NextCycle(st, c, f, l, init, t, i);
    }
  }

  /** Lock-on: from the second cycle on, starts are signalled exactly on the first stamped sentence, and ends
      exactly on the stamped sentences whose phrase ends the cycle, was an ender before, or came last before a
      first timestamp that differs. */
  lemma LockOn(st: State, c: seq<Slot>, f: nat, l: nat, times: seq<real>, k: nat, i: nat)
    requires IsCycle(c, f, l) && !st.continues && 1 <= k < |times| && i < |c|
    requires forall j :: 0 < j < |times| ==> times[j] - times[j - 1] >= 0.01 || times[j - 1] - times[j] >= 0.01
    ensures k * |c| + i < |Train(c, times)|
    ensures Signals(st, Train(c, times))[k * |c| + i].clear <==> i == f
    ensures Signals(st, Train(c, times))[k * |c| + i].report <==>
            c[i].stamped &&
            (c[i].tag == c[l].tag || c[i].tag in st.enders ||
             (c[i].tag == st.lastTag && (times[0] - st.thisTime >= 0.01 || st.thisTime - times[0] >= 0.01)))
  {
    LockedFrom(st, c, f, l, times, k, i);
  }

  /** Place i of the k-th cycle: a start exactly at f and an end exactly at l. */
  ghost predicate Locked(ms: seq<Mask>, len: nat, k: nat, i: nat, f: nat, l: nat) {
    k * len + i < |ms| && ms[k * len + i] == Mask(i == f, i == l)
  }

  /** In the k-th cycle of a train the detector signals one start and one end, where they belong. */
  ghost predicate LockedIn(c: seq<Slot>, f: nat, l: nat, times: seq<real>, k: nat) {
    forall i: nat :: i < |c| ==> Locked(Signals(FRESH, Train(c, times)), |c|, k, i, f, l)
  }

  /** A fresh session locks on to a fixed cycle after one cycle, and does so exactly when the phrase
      that ends the cycle carries no other timestamp in it. */
  lemma FreshLockOn(c: seq<Slot>, f: nat, l: nat, times: seq<real>, k: nat)
    requires IsCycle(c, f, l) && 1 <= k < |times|
    requires forall j :: 0 < j < |times| ==> times[j] - times[j - 1] >= 0.01 || times[j - 1] - times[j] >= 0.01
    ensures LockedIn(c, f, l, times, k)
        <==> forall i :: 0 <= i < |c| && c[i].stamped && i != l ==> c[i].tag != c[l].tag
  {
    var ms := Signals(FRESH, Train(c, times));
    forall i: nat | i < |c|
      ensures k * |c| + i < |ms|
      ensures Locked(ms, |c|, k, i, f, l) <==> ((c[i].stamped && c[i].tag == c[l].tag) <==> i == l)
    {
      LockOn(FRESH, c, f, l, times, k, i);
    }
    if LockedIn(c, f, l, times, k) {
      forall i | 0 <= i < |c| && c[i].stamped && i != l
        ensures c[i].tag != c[l].tag
      {
        assert Locked(ms, |c|, k, i, f, l);
      }
    }
  }

  /** Phrases 1, 2 and 1 again, each with the time: the phrase that ends the cycle also starts it, and the
      detector never locks on. */
  lemma RepeatedPhraseDoesNotLock(times: seq<real>, k: nat)
    requires 1 <= k < |times|
    requires forall j :: 0 < j < |times| ==> times[j] - times[j - 1] >= 0.01 || times[j - 1] - times[j] >= 0.01
    ensures !LockedIn([Slot(1, true), Slot(2, true), Slot(1, true)], 0, 2, times, k)
  {
    var c := [Slot(1, true), Slot(2, true), Slot(1, true)];
    assert c[0].stamped && c[0].tag == c[2].tag;
    FreshLockOn(c, 0, 2, times, k);
  }

  /** Until lock-on nothing is reported. */
  lemma FirstCycleIsSilent(c: seq<Slot>, f: nat, l: nat, t: real, i: nat)
    requires IsCycle(c, f, l) && i < |c|
    ensures Signals(FRESH, Sent(c, t))[i] == Mask(i == f && (t >= 0.01 || t <= -0.01), false)
  {
    OneCycle(FRESH, c, f, l, t);
  }

  /** Enders count as reliable once there are any. */
  lemma {:induction false} ReliableOnceLearnt(st: State, ss: seq<Sentence>)
    ensures After(st, ss).reliable <==>
            st.reliable || exists n :: 0 < n <= |ss| && After(st, ss[..n]).enders != {}
    decreases |ss|
  {
    if ss != [] {
      var st', rest := Step(st, ss[0]), ss[1..];
      ReliableOnceLearnt(st', rest);
      assert ss[..1] == [ss[0]] && [ss[0]][1..] == [];
      assert After(st, ss[..1]) == After(st', []) == st';
      forall n | 0 < n <= |ss|
        ensures After(st, ss[..n]) == After(st', rest[..n - 1])
      {
        assert ss[..n][0] == ss[0] && ss[..n][1..] == rest[..n - 1];
      }
      assert forall n :: 0 < n <= |rest| ==> After(st', rest[..n]) == After(st, ss[..n + 1]);
    }
  }

  // ----- continuation sentences

  /** A continuation sentence is never forgotten: a sentence without a timestamp is reported as the end of a
      cycle exactly when one has come by then. */
  lemma {:induction false} ContinuationIsForever(st: State, ss: seq<Sentence>, i: nat)
    requires i < |ss| && ss[i].stamp.None?
    ensures Signals(st, ss)[i].report <==> st.continues || exists j :: 0 <= j <= i && ss[j].continuer
    decreases |ss|
  {
    if i > 0 {
      var st', rest := Step(st, ss[0]), ss[1..];
      ContinuationIsForever(st', rest, i - 1);
      assert forall j :: 0 <= j < i ==> rest[j] == ss[j + 1];
      if j :| 0 <= j <= i && ss[j].continuer {
        assert j == 0 || rest[j - 1].continuer;
      }
    }
  }
}
