/** driver_ais.c, driver_nmea2000.c: joining the two parts of an AIS type 24 report. */
module AisType24 {
  import opened Options

  datatype Part = A(mmsi: nat, name: string) | B(mmsi: nat)

  datatype Slot = Slot(mmsi: nat, name: string)

  datatype Answer = PartA | PartB | Both(name: string)

  datatype Queue = Queue(ships: seq<Slot>, index: nat)

  const N := 8
  const EMPTY := Slot(0, "")
  const FRESH := Queue([EMPTY, EMPTY, EMPTY, EMPTY, EMPTY, EMPTY, EMPTY, EMPTY], 0)

  // ----- the circular queue

  /** The lowest slot from i on that holds m; past the end when there is none. */
  function FirstMatch(ships: seq<Slot>, m: nat, i: nat): (r: nat)
    requires i <= |ships|
    ensures i <= r <= |ships| && (r < |ships| ==> ships[r].mmsi == m)
    ensures forall j :: i <= j < r ==> ships[j].mmsi != m
    decreases |ships| - i
  {
    if i == |ships| || ships[i].mmsi == m then i else FirstMatch(ships, m, i + 1)
  }

  predicate Sized(q: Queue) {
    |q.ships| == N && q.index < N
  }

  function Step(q: Queue, p: Part): (Queue, Answer)
    requires Sized(q)
  {
    match p
    case A(m, name) => (Queue(q.ships[q.index := Slot(m, name)], (q.index + 1) % N), PartA)
    case B(m) =>
      var i := FirstMatch(q.ships, m, 0);
      if i == N then (q, PartB)
      else (q.(ships := q.ships[i := Slot(0, q.ships[i].name)]), Both(q.ships[i].name))
  }

  class Context {
    var ships: array<Slot>
    var index: nat

    ghost predicate Valid()
      reads this
    {
      ships.Length == N && index < N
    }

    ghost function Abstract(): (q: Queue)
      reads this, ships
      requires Valid()
      ensures Sized(q)
    {
      Queue(ships[..], index)
    }

    constructor ()
      ensures Valid() && fresh(ships) && Abstract() == FRESH
    {
      ships := new Slot[N](i => EMPTY);
      index := 0;
    }

    method Stash(m: nat, name: string) returns (r: Answer)
      requires Valid()
      modifies this`index, ships
      ensures Valid() && (Abstract(), r) == Step(old(Abstract()), A(m, name))
    {
      ships[index] := Slot(m, name);
      index := index + 1;
      index := index % N;
      r := PartA;
    }

    method Match(m: nat) returns (r: Answer)
      requires Valid()
      modifies ships
      ensures Valid() && (Abstract(), r) == Step(old(Abstract()), B(m))
    {
      var i := 0;
      while i < N
        modifies ships
        invariant i <= N && ships[..] == old(ships[..])
        invariant FirstMatch(ships[..], m, 0) == FirstMatch(ships[..], m, i)
      {
        if ships[i].mmsi == m {
          r := Both(ships[i].name);
          ships[i] := ships[i].(mmsi := 0);
          return;
        }
        i := i + 1;
      }
      r := PartB;
    }
  }

  function After(run: seq<Part>): (q: Queue)
    ensures Sized(q)
    decreases |run|
  {
    if run == [] then FRESH else Step(After(run[..|run| - 1]), run[|run| - 1]).0
  }

  /** The answer to the i-th part of a run. */
  function AnswerAt(run: seq<Part>, i: nat): Answer
    requires i < |run|
  {
    Step(After(run[..i]), run[i]).1
  }

  // ----- what the queue stands for: every part A so far, and which of them were used

  datatype Stashed = Stashed(mmsi: nat, name: string, open: bool)

  /** Stash j is one of the last eight, unused, and from m. */
  predicate IsCandidate(log: seq<Stashed>, m: nat, j: nat) {
    j < |log| <= j + 8 && log[j].open && log[j].mmsi == m
  }

  /** The newest stash kept in slot i. */
  function Occupant(n: nat, i: nat): (j: Option<nat>)
    requires i < N
    ensures j.Some? <==> i < n
    ensures j.Some? ==> j.value < n <= j.value + N && j.value % N == i
  {
    if i < n then Some(n - 1 - (n - 1 - i) % N) else None
  }

  /** The candidate in the lowest slot from i on. */
  lemma InSlot(n: nat, k: nat, i: nat)
    requires k < n <= k + 8 && k % 8 == i
    ensures Occupant(n, i) == Some(k)
  {
  }

  /** The stash of the window kept in slot i can be no other than its occupant. */
  lemma OccupiedBy(log: seq<Stashed>, m: nat, i: nat)
    requires i < N
    ensures forall k: nat :: IsCandidate(log, m, k) && k % N == i ==> Occupant(|log|, i) == Some(k)
  {
    forall k: nat | IsCandidate(log, m, k) && k % N == i
      ensures Occupant(|log|, i) == Some(k)
    {
      InSlot(|log|, k, i);
    }
  }

  function Pick(log: seq<Stashed>, m: nat, i: nat): (j: Option<nat>)
    requires i <= N
    ensures j.Some? ==> IsCandidate(log, m, j.value) && i <= j.value % N
    ensures forall k: nat :: IsCandidate(log, m, k) && i <= k % N ==> j.Some? && j.value % N <= k % N
    decreases N - i
  {
    if i == N then None
    else
      var j := Occupant(|log|, i);
      OccupiedBy(log, m, i);
      if j.Some? && IsCandidate(log, m, j.value) then j else Pick(log, m, i + 1)
  }

  function Note(log: seq<Stashed>, p: Part): seq<Stashed> {
    match p
    case A(m, name) => log + [Stashed(m, name, true)]
    case B(m) =>
      var j := Pick(log, m, 0);
      if m == 0 || j.None? then log else log[j.value := log[j.value].(open := false)]
  }

  function Log(run: seq<Part>): seq<Stashed>
    decreases |run|
  {
    if run == [] then [] else Note(Log(run[..|run| - 1]), run[|run| - 1])
  }

  function SlotOf(s: Stashed): Slot {
    Slot(if s.open then s.mmsi else 0, s.name)
  }

  ghost predicate Holds(q: Queue, log: seq<Stashed>) {
    && Sized(q) && q.index == |log| % N
    && (forall j :: 0 <= j < |log| <= j + N ==> q.ships[j % N] == SlotOf(log[j]))
    && (forall i :: |log| <= i < N ==> q.ships[i] == EMPTY)
  }

  lemma SlotAt(q: Queue, log: seq<Stashed>, i: nat)
    requires Holds(q, log) && i < N
    ensures q.ships[i] == if i < |log| then SlotOf(log[Occupant(|log|, i).value]) else EMPTY
  {
  }

  /** The scan stops at the slot of the picked stash. */
  lemma ScanFindsPick(q: Queue, log: seq<Stashed>, m: nat)
    requires Holds(q, log) && m != 0
    ensures var i, j := FirstMatch(q.ships, m, 0), Pick(log, m, 0);
            if i == N then j.None? else j.Some? && j.value % N == i
  {
    var i, j := FirstMatch(q.ships, m, 0), Pick(log, m, 0);
    if i < N {
      SlotAt(q, log, i);
      assert IsCandidate(log, m, Occupant(|log|, i).value);
    }
    if j.Some? {
      assert q.ships[j.value % N] == SlotOf(log[j.value]);
    }
  }

  lemma OtherSlot(j: nat, k: nat)
    requires j < k < j + N
    ensures j % N != k % N
  {
  }

  lemma NextIndex(n: nat)
    ensures (n % N + 1) % N == (n + 1) % N
    ensures n < N ==> n % N == n
  {
  }

  lemma StashHolds(q: Queue, log: seq<Stashed>, p: Part)
    requires Holds(q, log) && p.A?
    ensures Holds(Step(q, p).0, Note(log, p))
  {
    var n, s := |log|, Stashed(p.mmsi, p.name, true);
    var ships, log' := q.ships[n % N := Slot(p.mmsi, p.name)], log + [s];
    NextIndex(n);
    forall j | 0 <= j < n + 1 <= j + N
      ensures ships[j % N] == SlotOf(log'[j])
    {
      if j < n {
        OtherSlot(j, n);
        assert log'[j] == log[j] && ships[j % N] == q.ships[j % N];
      }
    }
    assert Step(q, p).0 == Queue(ships, (n % N + 1) % N) && Note(log, p) == log';
  }

  /** Using stash j empties its slot. */
  lemma UsedHolds(q: Queue, log: seq<Stashed>, j: nat)
    requires Holds(q, log) && j < |log| <= j + N
    ensures Holds(q.(ships := q.ships[j % N := Slot(0, log[j].name)]), log[j := log[j].(open := false)])
  {
    var q', log' := q.(ships := q.ships[j % N := Slot(0, log[j].name)]), log[j := log[j].(open := false)];
    forall k | 0 <= k < |log'| <= k + N
      ensures q'.ships[k % N] == SlotOf(log'[k])
    {
      if k != j {
        OtherSlot(if k < j then k else j, if k < j then j else k);
      }
    }
  }

  lemma MatchHolds(q: Queue, log: seq<Stashed>, p: Part)
    requires Holds(q, log) && p.B? && p.mmsi != 0
    ensures Holds(Step(q, p).0, Note(log, p))
    ensures var j := Pick(log, p.mmsi, 0);
            Step(q, p).1 == if j.None? then PartB else Both(log[j.value].name)
  {
    ScanFindsPick(q, log, p.mmsi);
    var j := Pick(log, p.mmsi, 0);
    if j.Some? {
      assert q.ships[j.value % N] == SlotOf(log[j.value]);
      UsedHolds(q, log, j.value);
    }
  }

  /** A part B from MMSI 0 matches empty and used slots, and leaves them as they are. */
  lemma ZeroHolds(q: Queue, log: seq<Stashed>, p: Part)
    requires Holds(q, log) && p == B(0)
    ensures Step(q, p).0 == q && Note(log, p) == log
  {
    var i := FirstMatch(q.ships, 0, 0);
    if i < N {
      assert q.ships[i := Slot(0, q.ships[i].name)] == q.ships;
    }
  }

  lemma {:induction false} QueueHoldsLog(run: seq<Part>)
    ensures Holds(After(run), Log(run))
    decreases |run|
  {
    if run != [] {
      var before, p := run[..|run| - 1], run[|run| - 1];
      QueueHoldsLog(before);
      if p.A? {
        StashHolds(After(before), Log(before), p);
      } else if p.mmsi != 0 {
        MatchHolds(After(before), Log(before), p);
      } else {
        ZeroHolds(After(before), Log(before), p);
      }
    }
  }

  // ----- main results

  /** A part B completes a report exactly when one of the last eight part A stashes is its sender's and
      unused; the name attached is that stash's. */
  lemma PairsWithinWindow(run: seq<Part>, i: nat)
    requires i < |run| && run[i].B? && run[i].mmsi != 0
    ensures var log, m := Log(run[..i]), run[i].mmsi;
            && (AnswerAt(run, i).Both? <==> exists j: nat :: IsCandidate(log, m, j))
            && (AnswerAt(run, i).Both? ==> exists j: nat :: IsCandidate(log, m, j) && AnswerAt(run, i) == Both(log[j].name))
  {
    QueueHoldsLog(run[..i]);
    MatchHolds(After(run[..i]), Log(run[..i]), run[i]);
  }

  /** The log's stashes are the run's part As, in order. */
  function Sent(run: seq<Part>): seq<(nat, string)>
    decreases |run|
  {
    if run == [] then []
    else
      var p := run[|run| - 1];
      Sent(run[..|run| - 1]) + if p.A? then [(p.mmsi, p.name)] else []
  }

  lemma {:induction false} LogIsSent(run: seq<Part>)
    ensures |Log(run)| == |Sent(run)|
    ensures forall j :: 0 <= j < |Log(run)| ==> (Log(run)[j].mmsi, Log(run)[j].name) == Sent(run)[j]
    decreases |run|
  {
    if run != [] {
      LogIsSent(run[..|run| - 1]);
    }
  }

  function Boths(run: seq<Part>, m: nat): nat
    decreases |run|
  {
    if run == [] then 0
    else
      var last := |run| - 1;
      Boths(run[..last], m) + if run[last] == B(m) && AnswerAt(run, last).Both? then 1 else 0
  }

  function PartAs(run: seq<Part>, m: nat): nat
    decreases |run|
  {
    if run == [] then 0
    else PartAs(run[..|run| - 1], m) + if run[|run| - 1].A? && run[|run| - 1].mmsi == m then 1 else 0
  }

  function Used(log: seq<Stashed>, m: nat): nat
    decreases |log|
  {
    if log == [] then 0
    else Used(log[..|log| - 1], m) + if !log[|log| - 1].open && log[|log| - 1].mmsi == m then 1 else 0
  }

  function Kept(log: seq<Stashed>, m: nat): (n: nat)
    ensures Used(log, m) <= n
    decreases |log|
  {
    if log == [] then 0 else Kept(log[..|log| - 1], m) + if log[|log| - 1].mmsi == m then 1 else 0
  }

  lemma {:induction false} UsingOne(log: seq<Stashed>, j: nat, m: nat)
    requires j < |log| && log[j].open
    ensures var log' := log[j := log[j].(open := false)];
            && Used(log', m) == Used(log, m) + (if log[j].mmsi == m then 1 else 0)
            && Kept(log', m) == Kept(log, m)
    decreases |log|
  {
    var log', n := log[j := log[j].(open := false)], |log| - 1;
    if j == n {
      assert log'[..n] == log[..n];
    } else {
      UsingOne(log[..n], j, m);
      assert log'[..n] == log[..n][j := log[j].(open := false)];
    }
  }

  lemma {:induction false} BothsAreUses(run: seq<Part>, m: nat)
    requires m != 0
    ensures Boths(run, m) == Used(Log(run), m)
    ensures PartAs(run, m) == Kept(Log(run), m)
    decreases |run|
  {
    if run != [] {
      var before, p := run[..|run| - 1], run[|run| - 1];
      var log := Log(before);
      BothsAreUses(before, m);
      QueueHoldsLog(before);
      match p
      case A(k, name) =>
        assert Log(run)[..|log|] == log;
      case B(k) =>
        if k != 0 {
          MatchHolds(After(before), log, p);
          var j := Pick(log, k, 0);
          if j.Some? {
            UsingOne(log, j.value, m);
          }
        }
    }
  }

  /** No sender gets more complete reports than it sent part As, however often it repeats part B. */
  lemma NoReportTwice(run: seq<Part>, m: nat)
    requires m != 0
    ensures Boths(run, m) <= PartAs(run, m)
  {
    BothsAreUses(run, m);
  }

  /** Every slot is filled, and no stash in the window has been used. */
  ghost predicate AllWaiting(log: seq<Stashed>) {
    |log| >= 8 && forall j: nat :: j < |log| <= j + 8 ==> log[j].open
  }

  lemma ZeroScan(q: Queue, log: seq<Stashed>)
    requires Holds(q, log)
    ensures FirstMatch(q.ships, 0, 0) < N <==> (exists j: nat :: IsCandidate(log, 0, j)) || !AllWaiting(log)
  {
    var s := FirstMatch(q.ships, 0, 0);
    assert |log| < N ==> q.ships[|log|] == EMPTY;
    if s < N {
      SlotAt(q, log, s);
      if AllWaiting(log) {
        assert IsCandidate(log, 0, Occupant(|log|, s).value);
      }
    } else {
      forall j: nat | j < |log| <= j + N
        ensures log[j].open && log[j].mmsi != 0
      {
        assert q.ships[j % N] == SlotOf(log[j]);
      }
    }
  }

  /** For MMSI 0 the rule fails, in just these runs: no stash from 0 is waiting, yet some slot was never
      filled or holds a used stash. */
  lemma ZeroMatchesEmpty(run: seq<Part>, i: nat)
    requires i < |run| && run[i] == B(0)
    ensures var log := Log(run[..i]);
            var waiting := exists j: nat :: IsCandidate(log, 0, j);
            (AnswerAt(run, i).Both? <==> waiting) <==> waiting || AllWaiting(log)
  {
    QueueHoldsLog(run[..i]);
    ZeroScan(After(run[..i]), Log(run[..i]));
  }

  /** The very first message, a part B from MMSI 0, already counts as complete. */
  lemma ZeroAlone()
    ensures AnswerAt([B(0)], 0) == Both("")
    ensures Boths([B(0)], 0) == 1 && PartAs([B(0)], 0) == 0
  {
    var run := [B(0)];
    assert run[..0] == [] && FirstMatch(FRESH.ships, 0, 0) == 0;
  }
}
