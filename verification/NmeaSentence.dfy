/** driver_nmea0183.c: splitting a sentence into fields, and its checksum; packet.c: the check made of it. */
module NmeaSentence {
  import opened Bytes

  const NUL: byte := 0
  const CR: byte := 13
  const LF: byte := 10
  const BANG: byte := 33
  const DOLLAR: byte := 36
  const STAR: byte := 42
  const COMMA: byte := 44

  const NMEA_MAX := 91

  /** A C string, without its NUL. */
  predicate IsText(s: seq<byte>) {
    NUL !in s
  }

  // ----- fields

  function Split(s: seq<byte>): (fs: seq<seq<byte>>)
    ensures |fs| >= 1
  {
    if s == [] then [[]]
    else if s[0] == COMMA then [[]] + Split(s[1..])
    else
      var fs := Split(s[1..]);
      [[s[0]] + fs[0]] + fs[1..]
  }

  function Join(fs: seq<seq<byte>>): seq<byte> {
    if fs == [] then [] else if |fs| == 1 then fs[0] else fs[0] + [44] + Join(fs[1..])
  }

  /** The fields put together again with commas are the text, and none holds a comma. */
  lemma {:induction false} SplitJoins(s: seq<byte>)
    ensures Join(Split(s)) == s && forall f :: f in Split(s) ==> 44 !in f
  {
    if s != [] {
      SplitJoins(s[1..]);
      var fs := Split(s[1..]);
      if s[0] == COMMA {
        assert ([[]] + fs)[1..] == fs;
        assert [] + [COMMA] + s[1..] == s;
      } else {
        var gs := [[s[0]] + fs[0]] + fs[1..];
        assert gs[1..] == fs[1..];
        assert Join(gs) == [s[0]] + Join(fs);
        assert [s[0]] + s[1..] == s;
      }
    }
  }

  /** Up to the first comma. */
  function FirstComma(s: seq<byte>): (k: nat)
    ensures k <= |s| && COMMA !in s[..k] && (k < |s| ==> s[k] == COMMA)
  {
    if s == [] || s[0] == COMMA then 0
    else
      var k := FirstComma(s[1..]);
      assert s[..k + 1] == [s[0]] + s[1..][..k];
      k + 1
  }

  lemma {:induction false} SplitAt(s: seq<byte>, k: nat)
    requires k <= |s| && COMMA !in s[..k] && (k < |s| ==> s[k] == COMMA)
    ensures Split(s) == if k < |s| then [s[..k]] + Split(s[k + 1..]) else [s]
    decreases k
  {
    if k > 0 {
      var t := s[1..];
      assert s[0] == s[..k][0] && t[..k - 1] == s[..k][1..];
      SplitAt(t, k - 1);
      assert [s[0]] + t[..k - 1] == s[..k] && [s[0]] + t == s;
      assert k < |s| ==> t[k..] == s[k + 1..];
    }
  }

  /** The part before the first comma, and what follows it. */
  lemma CutAtComma(s: seq<byte>) returns (f: seq<byte>, left: seq<byte>)
    ensures var k := FirstComma(s);
            if k < |s| then f == s[..k] && left == s[k + 1..] && |left| == |s| - k - 1 && Split(s) == [f] + Split(left)
            else Split(s) == [s]
  {
    var k := FirstComma(s);
    SplitAt(s, k);
    f, left := s[..k], if k < |s| then s[k + 1..] else [];
  }

  /** A comma at the end adds an empty field. */
  lemma {:induction false} SplitTrailing(s: seq<byte>)
    ensures Split(s + [COMMA]) == Split(s) + [[]]
  {
    if s == [] {
      assert [COMMA][1..] == [];
      assert s + [COMMA] == [COMMA];
    } else {
      SplitTrailing(s[1..]);
      assert (s + [COMMA])[1..] == s[1..] + [COMMA] && (s + [COMMA])[0] == s[0];
    }
  }

  /** Where the scan for the checksum stops; a char past 127 is negative, so less than a space. */
  function StopAt(c: seq<byte>): (k: nat)
    ensures k <= |c|
  {
    if c == [] || c[0] == STAR || c[0] < 32 || c[0] >= 128 then 0 else 1 + StopAt(c[1..])
  }

  /** The sentence as it fits the copy. */
  function Copied(sentence: seq<byte>): (c: seq<byte>)
    ensures |c| < NMEA_MAX
  {
    if |sentence| < NMEA_MAX then sentence else sentence[..NMEA_MAX - 1]
  }

  /** The copy cut at the checksum, whose star becomes a comma. */
  function Cut(c: seq<byte>): (e: seq<byte>)
    ensures |e| <= |c|
  {
    var k := StopAt(c);
    if k < |c| && c[k] == STAR then c[..k] + [COMMA] else c[..k]
  }

  /** What is split: everything but the leading dollar sign. */
  function Splittable(sentence: seq<byte>): (t: seq<byte>)
    ensures |t| < NMEA_MAX - 1
  {
    var e := Cut(Copied(sentence));
    if e == [] then [] else e[1..]
  }

  /** A C string s lies at index at. */
  predicate TextAt(a: seq<byte>, at: nat, s: seq<byte>) {
    at + |s| < |a| && a[at..at + |s|] == s && a[at + |s|] == NUL && IsText(s)
  }

  lemma TextElsewhere(a: seq<byte>, b: seq<byte>, at: nat, s: seq<byte>, end: nat)
    requires TextAt(a, at, s) && at + |s| < end <= |a| && end <= |b| && a[..end] == b[..end]
    ensures TextAt(b, at, s)
  {
    assert b[at..at + |s|] == b[..end][at..at + |s|] == a[..end][at..at + |s|];
    assert b[at + |s|] == b[..end][at + |s|] == a[..end][at + |s|];
  }

  method CopySentence(sentence: seq<byte>, fieldcopy: array<byte>) returns (ghost c: seq<byte>)
    requires fieldcopy.Length == NMEA_MAX + 1
    modifies fieldcopy
    ensures c == Copied(sentence) && fieldcopy[..|c|] == c && fieldcopy[|c|] == NUL
  {
    var n := if |sentence| < NMEA_MAX then |sentence| else NMEA_MAX - 1;
    forall i | 0 <= i < n {
      fieldcopy[i] := sentence[i];
    }
    fieldcopy[n] := NUL;
    c := sentence[..n];
  }

  method FindStop(fieldcopy: array<byte>, ghost c: seq<byte>) returns (p: nat)
    requires |c| < fieldcopy.Length && fieldcopy[..|c|] == c && fieldcopy[|c|] == NUL
    ensures p == StopAt(c) && (p < |c| ==> fieldcopy[p] == c[p]) && (p == |c| ==> fieldcopy[p] == NUL)
  {
    p := 0;
    assert c[0..] == c;
    while fieldcopy[p] != STAR && 32 <= fieldcopy[p] < 128
      invariant p <= |c| && StopAt(c) == p + StopAt(c[p..])
      decreases |c| - p
    {
      assert p < |c| && c[p..][0] == c[p] == fieldcopy[..|c|][p] && c[p..][1..] == c[p + 1..];
      p := p + 1;
    }
    assert p < |c| ==> c[p..][0] == c[p] == fieldcopy[..|c|][p];
  }

  method CopyAndCut(sentence: seq<byte>, fieldcopy: array<byte>) returns (t: nat)
    requires fieldcopy.Length == NMEA_MAX + 1
    modifies fieldcopy
    ensures t == |Cut(Copied(sentence))| && fieldcopy[..t + 1] == Cut(Copied(sentence)) + [NUL]
  {
    ghost var c := CopySentence(sentence, fieldcopy);
    var p := FindStop(fieldcopy, c);
    assert fieldcopy[..p] == c[..p] by {
      assert fieldcopy[..p] == fieldcopy[..|c|][..p];
    }
    if fieldcopy[p] == STAR {
      fieldcopy[p] := COMMA;
      p := p + 1;
    }
    fieldcopy[p] := NUL;
    t := p;
  }

  lemma CharOfText(a: seq<byte>, p: nat, rest: seq<byte>, i: nat)
    requires TextAt(a, p, rest) && i <= |rest|
    ensures a[p + i] == if i < |rest| then rest[i] else NUL
    ensures i < |rest| ==> rest[i..][0] == rest[i] != NUL && rest[i..][1..] == rest[i + 1..]
  {
    assert i < |rest| ==> a[p..p + |rest|][i] == a[p + i];
  }

  /** strchr for a comma in the text from p on. */
  method FindComma(a: array<byte>, p: nat, ghost rest: seq<byte>) returns (found: bool, q: nat)
    requires TextAt(a[..], p, rest)
    ensures q == p + FirstComma(rest) && found == (FirstComma(rest) < |rest|)
  {
    q := p;
    assert rest[0..] == rest;
    CharOfText(a[..], p, rest, 0);
    while a[q] != NUL && a[q] != COMMA
      invariant p <= q <= p + |rest| && FirstComma(rest) == q - p + FirstComma(rest[q - p..])
      invariant a[q] == if q < p + |rest| then rest[q - p] else NUL
      decreases p + |rest| - q
    {
      CharOfText(a[..], p, rest, q - p);
      q := q + 1;
      CharOfText(a[..], p, rest, q - p);
    }
    CharOfText(a[..], p, rest, q - p);
    found := a[q] == COMMA;
  }

  /** A NUL put over the first comma of the text at p ends the field before it. */
  lemma NulAtComma(was: seq<byte>, a: seq<byte>, p: nat, rest: seq<byte>, f: seq<byte>, left: seq<byte>)
    requires |f| < |rest| && f == rest[..|f|] && left == rest[|f| + 1..]
    requires TextAt(was, p, rest) && a == was[p + |f| := NUL]
    ensures a[..p] == was[..p] && TextAt(a, p, f) && TextAt(a, p + |f| + 1, left)
  {
    var k := |f|;
    assert a[p..p + k] == was[p..p + |rest|][..k];
    assert a[p + k + 1..p + |rest|] == was[p..p + |rest|][k + 1..];
  }

  /** One round of the splitting loop: the field from p, cut at the next comma. */
  method CutField(a: array<byte>, p: nat, ghost rest: seq<byte>)
    returns (found: bool, next: nat, ghost f: seq<byte>, ghost left: seq<byte>)
    requires TextAt(a[..], p, rest)
    modifies a
    ensures a[..p] == old(a[..p])
    ensures !found ==> Split(rest) == [rest] && a[..] == old(a[..])
    ensures found ==> p < next == p + |f| + 1 && next + |left| == p + |rest| && Split(rest) == [f] + Split(left)
    ensures found ==> TextAt(a[..], p, f) && TextAt(a[..], next, left)
  {
    next := p;
    found, next := FindComma(a, p, rest);
    f, left := CutAtComma(rest);
    if found {
      ghost var was := a[..];
      NulAtComma(was, was[next := NUL], p, rest, f, left);
      a[next] := NUL;
      assert a[..] == was[next := NUL];
      next := next + 1;
      assert a[..p] == a[..][..p] == was[..p];
    }
  }

  /** The fields found so far lie before end. */
  predicate FieldsAt(a: seq<byte>, field: seq<nat>, fs: seq<seq<byte>>, end: nat) {
    && |fs| <= |field| && end <= |a|
    && forall i :: 0 <= i < |fs| ==> TextAt(a, field[i], fs[i]) && field[i] + |fs[i]| < end
  }

  lemma FieldsStay(a: seq<byte>, b: seq<byte>, field: seq<nat>, fs: seq<seq<byte>>, end: nat)
    requires FieldsAt(a, field, fs, end) && end <= |b| && a[..end] == b[..end]
    ensures FieldsAt(b, field, fs, end)
  {
    forall i | 0 <= i < |fs|
      ensures TextAt(b, field[i], fs[i])
    {
      TextElsewhere(a, b, field[i], fs[i], end);
    }
  }

  lemma FieldsGrow(a: seq<byte>, field: seq<nat>, more: seq<nat>, fs: seq<seq<byte>>, f: seq<byte>, end: nat, next: nat)
    requires FieldsAt(a, field, fs, end) && |field| == |more| && |fs| < |field| && field[..|fs|] == more[..|fs|]
    requires TextAt(a, more[|fs|], f) && end <= next <= |a| && more[|fs|] + |f| < next
    ensures FieldsAt(a, more, fs + [f], next)
  {
    forall i | 0 <= i < |fs| + 1
      ensures TextAt(a, more[i], (fs + [f])[i]) && more[i] + |(fs + [f])[i]| < next
    {
      if i < |fs| {
        assert more[i] == more[..|fs|][i] == field[..|fs|][i] == field[i];
      }
    }
  }

  /** Recording the field that starts at p, and cutting it off the rest. */
  method TakeField(a: array<byte>, field: array<nat>, count: nat, p: nat, ghost rest: seq<byte>, ghost fs: seq<seq<byte>>)
    returns (found: bool, next: nat, ghost f: seq<byte>, ghost left: seq<byte>)
    requires TextAt(a[..], p, rest)
    requires count == |fs| < field.Length && FieldsAt(a[..], field[..], fs, p)
    modifies a, field
    ensures !found ==> Split(rest) == [rest] && a[p + |rest|] == NUL && FieldsAt(a[..], field[..], fs, p)
    ensures found ==> p < next && next + |left| == p + |rest| && Split(rest) == [f] + Split(left)
    ensures found ==> TextAt(a[..], next, left)
    ensures found ==> FieldsAt(a[..], field[..], fs + [f], next)
  {
    ghost var wasA, wasF := a[..], field[..];
    field[count] := p;
    found, next, f, left := CutField(a, p, rest);
    assert wasA[..p] == a[..p];
    FieldsStay(wasA, a[..], wasF, fs, p);
    if found {
      FieldsGrow(a[..], wasF, field[..], fs, f, p, next);
    } else {
      assert forall i :: 0 <= i < |fs| ==> field[..][i] == wasF[i];
    }
  }

  lemma Associate(fs: seq<seq<byte>>, f: seq<byte>, rest: seq<seq<byte>>)
    ensures fs + ([f] + rest) == fs + [f] + rest
  {
  }

  /** Splitting the text that lies from index 1 on, t being the index of its NUL. */
  method CutFields(a: array<byte>, field: array<nat>, t: nat, ghost text: seq<byte>)
    returns (count: nat, ghost fs: seq<seq<byte>>)
    requires |text| < NMEA_MAX - 1 && field.Length == NMEA_MAX && t == 1 + |text| && TextAt(a[..], 1, text)
    modifies a, field
    ensures count == |fs| < NMEA_MAX && a[t] == NUL
    ensures Split(text)[..|Split(text)| - 1] == fs
    ensures FieldsAt(a[..], field[..], fs, a.Length)
  {
    count, fs := 0, [];
    var p, more := 1, true;
    ghost var rest := text;
    assert [] + Split(rest) == Split(text);
    while more && p <= t
      modifies a, field
      invariant 1 <= p <= t && count == |fs| < p && a[t] == NUL
      invariant more ==> p + |rest| == t && TextAt(a[..], p, rest)
      invariant !more ==> Split(rest) == [rest]
      invariant fs + Split(rest) == Split(text)
      invariant FieldsAt(a[..], field[..], fs, p)
      decreases more, t - p
    {
      var next;
      ghost var f, left;
      more, next, f, left := TakeField(a, field, count, p, rest, fs);
      if more {
        Associate(fs, f, Split(left));
        count, p := count + 1, next;
        fs, rest := fs + [f], left;
      }
    }
    assert Split(text) == fs + [rest];
  }

  /** Field i of a sentence: a part of its text, or empty past the last. */
  function FieldOf(sentence: seq<byte>, i: nat): seq<byte> {
    var fs := Split(Splittable(sentence));
    if i < |fs| - 1 then fs[i] else []
  }

  method FillRest(a: array<byte>, field: array<nat>, count: nat, e: nat, ghost fs: seq<seq<byte>>)
    requires count == |fs| <= field.Length && e < a.Length && a[e] == NUL && FieldsAt(a[..], field[..], fs, a.Length)
    modifies field
    ensures forall i: nat :: i < field.Length ==> TextAt(a[..], field[i], if i < count then fs[i] else [])
  {
    ghost var was := field[..];
    for i := count to field.Length
      modifies field
      invariant field[..count] == was[..count]
      invariant forall j: nat :: count <= j < i ==> field[j] == e
    {
      field[i] := e;
    }
    forall i: nat | i < count
      ensures TextAt(a[..], field[i], fs[i])
    {
      assert field[i] == field[..count][i] == was[i];
    }
  }

  lemma SplittableIsText(sentence: seq<byte>)
    requires IsText(sentence)
    ensures IsText(Splittable(sentence))
  {
  }

  /** The head of nmea_parse: an overlong sentence is refused; any other is split, field[i] being the
      index in fieldcopy where field i starts. */
  method SplitSentence(sentence: seq<byte>, fieldcopy: array<byte>, field: array<nat>) returns (ok: bool, count: nat)
    requires IsText(sentence) && fieldcopy.Length == NMEA_MAX + 1 && field.Length == NMEA_MAX
    modifies fieldcopy, field
    ensures ok == (|sentence| <= 91)
    ensures ok ==> count == |Split(Splittable(sentence))| - 1 < NMEA_MAX
    ensures ok ==> forall i: nat :: i < NMEA_MAX ==> TextAt(fieldcopy[..], field[i], FieldOf(sentence, i))
    ensures !ok ==> fieldcopy[..] == old(fieldcopy[..]) && field[..] == old(field[..])
  {
    if |sentence| > NMEA_MAX {
      return false, 0;
    }
    ok := true;
    var t := CopyAndCut(sentence, fieldcopy);
    ghost var text, e := Splittable(sentence), Cut(Copied(sentence));
    SplittableIsText(sentence);
    assert fieldcopy[t] == fieldcopy[..t + 1][t] == NUL;
    assert t > 0 ==> fieldcopy[1..t] == fieldcopy[..t + 1][1..t] == e[1..];
    count := 0;
    ghost var fs: seq<seq<byte>> := [];
    if 1 <= t {
      count, fs := CutFields(fieldcopy, field, t, text);
    }
    FillRest(fieldcopy, field, count, t, fs);
    assert forall i: nat :: FieldOf(sentence, i) == if i < count then fs[i] else [];
  }

  // ----- what the fields are

  /** k is the sentence's first star, and all before it is printable. */
  predicate StarAt(sentence: seq<byte>, k: nat) {
    && 1 <= k < |sentence| <= NMEA_MAX && sentence[k] == STAR
    && forall i :: 0 <= i < k ==> sentence[i] != STAR && 32 <= sentence[i] < 128
  }

  lemma {:induction false} StopIs(c: seq<byte>, k: nat)
    requires k <= |c| && forall i :: 0 <= i < k ==> c[i] != STAR && 32 <= c[i] < 128
    requires k < |c| ==> c[k] == STAR || c[k] < 32 || c[k] >= 128
    ensures StopAt(c) == k
    decreases k
  {
    if k > 0 {
      StopIs(c[1..], k - 1);
    }
  }

  /** When the star is among the 90 characters copied, the fields are exactly the parts of the body. */
  lemma AllFieldsOfStarred(sentence: seq<byte>, k: nat)
    requires StarAt(sentence, k) && k < NMEA_MAX - 1
    ensures var body := sentence[1..k]; Split(Splittable(sentence)) == Split(body) + [[]]
  {
    var c := Copied(sentence);
    StopIs(c, k);
    assert Cut(c)[1..] == sentence[1..k] + [COMMA];
    SplitTrailing(sentence[1..k]);
  }

  /** A star that is the 91st character is not copied, and the last field is lost. */
  lemma LastFieldIsLost(sentence: seq<byte>)
    requires StarAt(sentence, NMEA_MAX - 1)
    ensures Splittable(sentence) == sentence[1..NMEA_MAX - 1]
  {
    StopIs(Copied(sentence), NMEA_MAX - 1);
  }

  /** A sentence with no star before its first unprintable character, k, is taken up to there, without a
      closing comma; so its last field is lost. */
  lemma WithoutStar(sentence: seq<byte>, k: nat)
    requires 1 <= k <= |sentence| <= 90
    requires forall i :: 0 <= i < k ==> sentence[i] != 42 && 32 <= sentence[i] < 128
    requires k < |sentence| ==> sentence[k] < 32 || sentence[k] >= 128
    ensures Splittable(sentence) == sentence[1..k]
    ensures var parts := Split(sentence[1..k]);
            forall i: nat :: FieldOf(sentence, i) == if i < |parts| - 1 then parts[i] else []
  {
    assert Copied(sentence) == sentence;
    StopIs(sentence, k);
    assert sentence[..k][1..] == sentence[1..k];
  }

  /** Fields 0 to count - 1 joined with commas give the body back exactly when the star was copied. */
  lemma FieldsJoinToBody(sentence: seq<byte>, k: nat)
    requires StarAt(sentence, k)
    ensures var fs, body := Split(Splittable(sentence)), sentence[1..k];
            Join(fs[..|fs| - 1]) == body <==> k < 90
  {
    var body, fs := sentence[1..k], Split(Splittable(sentence));
    SplitJoins(body);
    if k < NMEA_MAX - 1 {
      AllFieldsOfStarred(sentence, k);
      assert fs[..|fs| - 1] == Split(body);
    } else {
      LastFieldIsLost(sentence);
      JoinFront(fs);
    }
  }

  /** A sentence that ends with a line feed, as the sniffer leaves them, loses nothing. */
  lemma FieldsOfLine(sentence: seq<byte>, k: nat)
    requires 1 <= k < |sentence| <= 91 && sentence[k] == 42 && sentence[|sentence| - 1] == 10
    requires forall i :: 0 <= i < k ==> sentence[i] != 42 && 32 <= sentence[i] < 128
    ensures var fs, body := Split(Splittable(sentence)), sentence[1..k];
            && fs == Split(body) + [[]] && Join(fs[..|fs| - 1]) == body
            && forall i: nat :: FieldOf(sentence, i) == if i < |Split(body)| then Split(body)[i] else []
  {
    AllFieldsOfStarred(sentence, k);
    FieldsJoinToBody(sentence, k);
  }

  lemma {:induction false} JoinFront(fs: seq<seq<byte>>)
    requires fs != []
    ensures |Join(fs[..|fs| - 1])| <= |Join(fs)|
    ensures |Join(fs[..|fs| - 1])| == |Join(fs)| ==> Join(fs) == []
  {
    if |fs| > 1 {
      JoinFront(fs[1..]);
      assert fs[..|fs| - 1][1..] == fs[1..][..|fs| - 2];
    }
  }
}
