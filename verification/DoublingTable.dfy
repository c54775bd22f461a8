/** Tables of 256 entries built by doubling: entry 2p from entry p, entry p+q from entries p and q.
    The entries are left abstract: they are words to the caller. */
module DoublingTable {

  datatype Algebra<!W> = Algebra(zero: W, one: W, twice: W -> W, plus: (W, W) -> W)

  const POWERS: set<nat> := {1, 2, 4, 8, 16, 32, 64, 128}

  ghost predicate DoubleAt<W>(a: Algebra<W>, t: seq<W>, p: nat) {
    2 * p < |t| && t[2 * p] == a.twice(t[p])
  }

  ghost predicate SumAt<W>(a: Algebra<W>, t: seq<W>, p: nat, q: nat) {
    p + q < |t| && t[p + q] == a.plus(t[q], t[p])
  }

  /** The first i entries are built. */
  ghost predicate IsPrefix<W>(a: Algebra<W>, t: seq<W>, i: nat) {
    && i <= |t| == 256 && t[0] == a.zero && t[1] == a.one
    && (forall p :: p in POWERS && 2 * p < i ==> DoubleAt(a, t, p))
    && (forall p, q :: p in POWERS && 1 < p < i && 0 <= q < p ==> SumAt(a, t, p, q))
  }

  ghost predicate IsTable<W>(a: Algebra<W>, t: seq<W>) {
    IsPrefix(a, t, 256)
  }

  lemma {:induction false} SamePower<W>(a: Algebra<W>, s: seq<W>, t: seq<W>, p: nat)
    requires IsTable(a, s) && IsTable(a, t) && p in POWERS
    ensures s[p] == t[p]
  {
    if p > 1 {
      SamePower(a, s, t, p / 2);
      assert DoubleAt(a, s, p / 2) && DoubleAt(a, t, p / 2);
    }
  }

  function HighBit(n: nat): (p: nat)
    requires 1 < n < 256
    ensures p in POWERS && 1 < p <= n < 2 * p
  {
    if n < 4 then 2 else if n < 8 then 4 else if n < 16 then 8 else if n < 32 then 16
    else if n < 64 then 32 else if n < 128 then 64 else 128
  }

  lemma {:induction false} SameEntry<W>(a: Algebra<W>, s: seq<W>, t: seq<W>, n: nat)
    requires IsTable(a, s) && IsTable(a, t) && n < 256
    ensures s[n] == t[n]
  {
    if n > 1 {
      var p := HighBit(n);
      SamePower(a, s, t, p);
      SameEntry(a, s, t, n - p);
      assert SumAt(a, s, p, n - p) && SumAt(a, t, p, n - p);
    }
  }

  /** There is only one such table. */
  lemma TableIsUnique<W>(a: Algebra<W>, s: seq<W>, t: seq<W>)
    requires IsTable(a, s) && IsTable(a, t)
    ensures s == t
  {
    forall n | 0 <= n < 256
      ensures s[n] == t[n]
    {
      SameEntry(a, s, t, n);
    }
  }

  /** t keeps the first i entries of s and repeats them with h added. */
  ghost predicate IsExtension<W>(a: Algebra<W>, s: seq<W>, t: seq<W>, i: nat, h: W) {
    && |s| == |t| && 2 * i <= |t|
    && (forall k :: 0 <= k < i ==> t[k] == s[k])
    && (forall k :: 0 <= k < i ==> t[i + k] == a.plus(s[k], h))
  }

  lemma PrefixStep<W>(a: Algebra<W>, s: seq<W>, t: seq<W>, i: nat, h: W)
    requires IsPrefix(a, s, i) && i in POWERS && 1 < i && h == a.twice(s[i / 2])
    requires IsExtension(a, s, t, i, h) && a.plus(a.zero, h) == h
    ensures IsPrefix(a, t, 2 * i) && t[i] == h
  {
    assert t[i + 0] == a.plus(s[0], h);
    forall p | p in POWERS && 2 * p < 2 * i
      ensures DoubleAt(a, t, p)
    {
      if 2 * p < i {
        assert DoubleAt(a, s, p);
      }
    }
    forall p, q | p in POWERS && 1 < p < 2 * i && 0 <= q < p
      ensures SumAt(a, t, p, q)
    {
      if p < i {
        assert SumAt(a, s, p, q);
      } else {
        assert t[i + q] == a.plus(s[q], h);
      }
    }
  }

  lemma SumOfSums<W>(a: Algebra<W>, t: seq<W>, p: nat, h: nat, j: nat)
    requires SumAt(a, t, p + h, j) && SumAt(a, t, h, j) && SumAt(a, t, p, h)
    requires a.plus(t[j], a.plus(t[h], t[p])) == a.plus(a.plus(t[j], t[h]), t[p])
    ensures SumAt(a, t, p, h + j)
  {
    assert p + (h + j) == (p + h) + j;
  }

  ghost predicate SplitAt<W>(a: Algebra<W>, t: seq<W>, k: nat, j: nat) { SumAt(a, t, 16 * k, j) }

  ghost predicate HighAt<W>(a: Algebra<W>, t: seq<W>, p: nat, q: nat) { SumAt(a, t, 16 * p, 16 * q) }

  lemma SumFromNibbles<W>(a: Algebra<W>, t: seq<W>, r: nat, k: nat, j: nat)
    requires SplitAt(a, t, r + k, j) && SplitAt(a, t, k, j) && HighAt(a, t, r, k)
    requires a.plus(t[j], a.plus(t[16 * k], t[16 * r])) == a.plus(a.plus(t[j], t[16 * k]), t[16 * r])
    ensures SumAt(a, t, 16 * r, 16 * k + j)
  {
    SumOfSums(a, t, 16 * r, 16 * k, j);
  }
}
