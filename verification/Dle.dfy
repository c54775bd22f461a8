/** driver_tsip.c, driver_evermore.c and their part of packet.c: frames stuffed with DLE. */
module Dle {
  import opened Bytes

  const DLE: byte := 0x10
  const STX: byte := 0x02
  const ETX: byte := 0x03

  // ----- stuffing

  /** Every DLE doubled. */
  function Stuff(p: seq<byte>): seq<byte> {
    if p == [] then [] else (if p[0] == DLE then [DLE, DLE] else [p[0]]) + Stuff(p[1..])
  }

  lemma {:induction false} StuffConcat(a: seq<byte>, b: seq<byte>)
    ensures Stuff(a + b) == Stuff(a) + Stuff(b)
  {
    if a == [] {
      assert a + b == b;
    } else {
      StuffConcat(a[1..], b);
      assert (a + b)[1..] == a[1..] + b && (a + b)[0] == a[0];
    }
  }

  lemma StuffOne(b: byte)
    ensures Stuff([b]) == if b == 0x10 then [0x10, 0x10] else [b]
  {
    assert [b][1..] == [];
  }

  lemma StuffNext(p: seq<byte>, i: nat)
    requires i < |p|
    ensures Stuff(p[..i + 1]) == Stuff(p[..i]) + if p[i] == DLE then [DLE, DLE] else [p[i]]
  {
    assert p[..i + 1] == p[..i] + [p[i]];
    StuffConcat(p[..i], [p[i]]);
    StuffOne(p[i]);
  }

  lemma {:induction false} StuffLength(p: seq<byte>)
    ensures |p| <= |Stuff(p)| <= 2 * |p|
  {
    if p != [] {
      StuffLength(p[1..]);
    }
  }

  function Count(s: seq<byte>, b: byte): nat {
    if s == [] then 0 else (if s[0] == b then 1 else 0) + Count(s[1..], b)
  }

  lemma {:induction false} CountConcat(s: seq<byte>, t: seq<byte>, b: byte)
    ensures Count(s + t, b) == Count(s, b) + Count(t, b)
  {
    if s == [] {
      assert s + t == t;
    } else {
      CountConcat(s[1..], t, b);
      assert (s + t)[1..] == s[1..] + t && (s + t)[0] == s[0];
    }
  }

  lemma {:induction false} StuffCounts(p: seq<byte>)
    ensures Count(Stuff(p), DLE) == 2 * Count(p, DLE) && |Stuff(p)| == |p| + Count(p, DLE)
  {
    if p != [] {
      StuffCounts(p[1..]);
      var first := if p[0] == DLE then [DLE, DLE] else [p[0]];
      CountConcat(first, Stuff(p[1..]), DLE);
      assert Count(first, DLE) == if p[0] == DLE then 2 else 0 by {
        assert [DLE, DLE][1..] == [DLE] && [DLE][1..] == [] && [p[0]][1..] == [];
      }
    }
  }

  // ----- TSIP

  function TsipFrame(id: byte, p: seq<byte>): seq<byte> {
    [DLE, id] + Stuff(p) + [DLE, ETX]
  }

  /** *cp++ = b, and once more if it is a DLE. */
  method PutStuffed(msgbuf: array<byte>, at: nat, b: byte) returns (n: nat)
    requires at + 2 <= msgbuf.Length
    modifies msgbuf
    ensures at < n <= at + 2 && msgbuf[..n] == old(msgbuf[..at]) + Stuff([b])
  {
    StuffOne(b);
    n := at;
    msgbuf[n] := b;
    n := n + 1;
    if b == DLE {
      msgbuf[n] := DLE;
      n := n + 1;
    }
  }

  method PutTwo(msgbuf: array<byte>, at: nat, b: byte, c: byte) returns (n: nat)
    requires at + 2 <= msgbuf.Length
    modifies msgbuf
    ensures n == at + 2 && msgbuf[..n] == old(msgbuf[..at]) + [b, c]
  {
    msgbuf[at] := b;
    n := at + 1;
    msgbuf[n] := c;
    n := n + 1;
  }

  /** tsip_write, as far as the bytes handed to the device. */
  method TsipWrite(msgbuf: array<byte>, id: byte, buf: seq<byte>) returns (n: nat)
    requires 2 * |buf| + 4 <= msgbuf.Length
    modifies msgbuf
    ensures n <= msgbuf.Length && msgbuf[..n] == TsipFrame(id, buf) == [0x10, id] + Stuff(buf) + [0x10, 0x03]
  {
    msgbuf[0] := DLE;
    msgbuf[1] := id;
    n := 2;
    for i := 0 to |buf|
      modifies msgbuf
      invariant 2 <= n <= 2 + 2 * i && msgbuf[..n] == [DLE, id] + Stuff(buf[..i])
    {
      StuffNext(buf, i);
      StuffOne(buf[i]);
      n := PutStuffed(msgbuf, n, buf[i]);
    }
    assert buf[..|buf|] == buf;
    n := PutTwo(msgbuf, n, DLE, ETX);
  }

  /** What the unstuffing loop collects from index i on, and where it stops; the byte after the last
      one may be looked at. */
  function Scan(s: seq<byte>, n: nat, i: nat): (seq<byte>, nat)
    requires n < |s|
    decreases |s| - i
  {
    if i >= n then ([], i)
    else if s[i] == DLE then
      if s[i + 1] == ETX then ([], i + 1)
      else
        var (rest, stop) := Scan(s, n, i + 2);
        ([s[i + 1]] + rest, stop)
    else
      var (rest, stop) := Scan(s, n, i + 1);
      ([s[i]] + rest, stop)
  }

  /** tsip_parse_input, as far as the packet's identifier and unstuffed data; none when it is not a packet. */
  method TsipUnstuff(s: seq<byte>, n: nat, buf: array<byte>) returns (ok: bool, id: byte, len: nat, stop: nat)
    requires n < |s| && n <= buf.Length
    modifies buf
    ensures ok == (n >= 4 && s[0] == DLE)
    ensures ok ==> id == s[1] && len <= n && buf[..len] == Scan(s, n, 2).0 && stop == Scan(s, n, 2).1
  {
    ok, id, len, stop := false, 0, 0, 0;
    if n < 4 || s[0] != DLE {
      return;
    }
    ok := true;
    stop := 2;
    while stop < n
      modifies buf
      invariant 2 <= stop <= |s| && len <= stop - 2 && len <= n
      invariant buf[..len] + Scan(s, n, stop).0 == Scan(s, n, 2).0 && Scan(s, n, stop).1 == Scan(s, n, 2).1
      decreases |s| - stop
    {
      if s[stop] == DLE {
        stop := stop + 1;
        if s[stop] == ETX {
          break;
        }
      }
      buf[len] := s[stop];
      len := len + 1;
      stop := stop + 1;
    }
    id := s[1];
  }

  lemma {:induction false} ScanStuffed(before: seq<byte>, p: seq<byte>, after: seq<byte>, n: nat)
    requires |before| + |Stuff(p)| <= n < |before + Stuff(p) + after|
    ensures var s := before + Stuff(p) + after;
            var (rest, stop) := Scan(s, n, |before| + |Stuff(p)|);
            Scan(s, n, |before|) == (p + rest, stop)
    decreases |p|
  {
    var s := before + Stuff(p) + after;
    if p == [] {
      var (rest, stop) := Scan(s, n, |before|);
      assert p + rest == rest;
    } else {
      var first := if p[0] == DLE then [DLE, DLE] else [p[0]];
      ScanStuffed(before + first, p[1..], after, n);
      assert before + first + Stuff(p[1..]) + after == s;
      assert s[|before|] == first[0] && (|first| == 2 ==> s[|before| + 1] == DLE);
      var (rest, stop) := Scan(s, n, |before| + |Stuff(p)|);
      assert [p[0]] + (p[1..] + rest) == p + rest;
    }
  }

  /** Whatever the payload, unstuffing a written packet gives its identifier and payload back, and the
      scan runs up to the closing ETX and no further. */
  lemma TsipRoundTrip(id: byte, p: seq<byte>, past: byte)
    ensures var f := TsipFrame(id, p);
            && |f| >= 4 && f[0] == 0x10 && f[1] == id && f[|f| - 2] == 0x10 && f[|f| - 1] == 0x03
            && Scan(f + [past], |f|, 2) == (p, |f| - 1)
  {
    var f := TsipFrame(id, p);
    var s := [DLE, id] + Stuff(p) + [DLE, ETX, past];
    assert f + [past] == s;
    ScanStuffed([DLE, id], p, [DLE, ETX, past], |f|);
    var i := 2 + |Stuff(p)|;
    assert s[i] == DLE && s[i + 1] == ETX;
    assert p + [] == p;
  }

  // ----- EverMore

  function Sum(p: seq<byte>): nat {
    if p == [] then 0 else Sum(p[..|p| - 1]) + p[|p| - 1]
  }

  lemma SumSnoc(s: seq<byte>, b: byte)
    ensures Sum([]) == 0 && Sum(s + [b]) == Sum(s) + b
  {
    assert (s + [b])[..|s|] == s;
  }

  /** A char is signed, and its sign is extended when it is added to an unsigned int. */
  function AddChar(crc: word, b: byte): word {
    var x := crc as int + if b < 128 then b else 0x1_0000_0000 + b - 256;
    if x < 0x1_0000_0000 then x else x - 0x1_0000_0000
  }

  type word = x: int | 0 <= x < 0x1_0000_0000

  function EvermoreBody(p: seq<byte>): seq<byte>
    requires |p| < 254
  {
    [|p| + 2] + p + [Sum(p) % 256]
  }

  function EvermoreFrame(p: seq<byte>): seq<byte>
    requires |p| < 254
  {
    [DLE, STX] + Stuff(EvermoreBody(p)) + [DLE, ETX]
  }

  lemma CrcStep(crc: word, total: nat, b: byte)
    requires crc % 256 == total % 256
    ensures AddChar(crc, b) % 256 == (total + b) % 256
  {
  }

  lemma Associate(a: seq<byte>, b: seq<byte>, c: seq<byte>, d: seq<byte>, e: seq<byte>)
    ensures a + (b + c + d) + e == a + b + c + d + e == a + b + c + (d + e)
  {
  }

  lemma BodyParts(p: seq<byte>, len: byte, crc: byte)
    ensures Stuff([len] + p + [crc]) == Stuff([len]) + Stuff(p) + Stuff([crc])
  {
    StuffConcat([len], p);
    StuffConcat([len] + p, [crc]);
  }

  lemma FrameParts(p: seq<byte>, len: byte, crc: byte)
    requires |p| < 254 && len == |p| + 2 && crc == Sum(p) % 256
    ensures EvermoreFrame(p) == [DLE, STX] + Stuff([len]) + Stuff(p) + Stuff([crc]) + [DLE, ETX]
    ensures EvermoreFrame(p) == [DLE, STX] + Stuff([len]) + Stuff(p) + (Stuff([crc]) + [DLE, ETX])
  {
    BodyParts(p, len, crc);
    Associate([DLE, STX], Stuff([len]), Stuff(p), Stuff([crc]), [DLE, ETX]);
  }

  /** The payload, and the sum of its bytes. */
  method PutPayload(msgbuf: array<byte>, at: nat, buf: seq<byte>) returns (n: nat, crc: word)
    requires at + 2 * |buf| <= msgbuf.Length
    modifies msgbuf
    ensures at <= n <= at + 2 * |buf| && msgbuf[..n] == old(msgbuf[..at]) + Stuff(buf)
    ensures crc % 256 == Sum(buf) % 256
  {
    n, crc := at, 0;
    ghost var head := msgbuf[..at];
    for i := 0 to |buf|
      modifies msgbuf
      invariant at <= n <= at + 2 * i && msgbuf[..n] == head + Stuff(buf[..i])
      invariant crc % 256 == Sum(buf[..i]) % 256
    {
      StuffNext(buf, i);
      StuffOne(buf[i]);
      CrcStep(crc, Sum(buf[..i]), buf[i]);
      assert buf[..i + 1][..i] == buf[..i];
      n := PutStuffed(msgbuf, n, buf[i]);
      crc := AddChar(crc, buf[i]);
    }
    assert buf[..|buf|] == buf;
  }

  method EvermoreSend(msgbuf: array<byte>, buf: seq<byte>) returns (n: nat)
    requires |buf| < 254 && 2 * |buf| + 8 <= msgbuf.Length
    modifies msgbuf
    ensures n <= msgbuf.Length && msgbuf[..n] == EvermoreFrame(buf)
    ensures msgbuf[..n] == [0x10, 0x02] + Stuff([|buf| + 2] + buf + [Sum(buf) % 256]) + [0x10, 0x03]
  {
    n := PutTwo(msgbuf, 0, DLE, STX);
    assert msgbuf[..n] == [DLE, STX];
    n := PutStuffed(msgbuf, n, |buf| + 2);
    var crc;
    n, crc := PutPayload(msgbuf, n, buf);
    var sum: byte := crc % 256;
    n := PutStuffed(msgbuf, n, sum);
    n := PutTwo(msgbuf, n, DLE, ETX);
    FrameParts(buf, |buf| + 2, sum);
  }

  /** n bytes read from index i, each DLE among them followed by one that is skipped. */
  function Take(s: seq<byte>, i: nat, n: nat): (seq<byte>, nat)
    requires i + 2 * n <= |s|
    decreases n
  {
    if n == 0 then ([], i)
    else
      var (rest, stop) := Take(s, if s[i] == DLE then i + 2 else i + 1, n - 1);
      ([s[i]] + rest, stop)
  }

  method TakeBytes(buf: seq<byte>, start: nat, n: nat, buf2: array<byte>)
    requires start + 2 * n <= |buf| && n <= buf2.Length
    modifies buf2
    ensures buf2[..n] == Take(buf, start, n).0
  {
    var cp := start;
    for tp := 0 to n
      modifies buf2
      invariant 0 <= cp && cp + 2 * (n - tp) <= |buf|
      invariant buf2[..tp] + Take(buf, cp, n - tp).0 == Take(buf, start, n).0
    {
      ghost var done, left := buf2[..tp], Take(buf, if buf[cp] == DLE then cp + 2 else cp + 1, n - tp - 1).0;
      assert done + ([buf[cp]] + left) == done + [buf[cp]] + left;
      buf2[tp] := buf[cp];
      assert buf2[..tp + 1] == done + [buf[cp]];
      cp := cp + 1;
      if buf2[tp] == DLE {
        cp := cp + 1;
      }
    }
  }

  function LengthAt(buf: seq<byte>): (at: nat)
    requires |buf| >= 4
    ensures at < |buf|
  {
    if buf[2] == DLE then 3 else 2
  }

  /** The unstuffing at the head of evermore_parse. */
  method EvermoreUnstuff(buf: seq<byte>, buf2: array<byte>) returns (datalen: nat)
    requires |buf| >= 4 && buf[LengthAt(buf)] >= 2 && LengthAt(buf) + 2 * (buf[LengthAt(buf)] as int) <= |buf| + 3
    requires 255 <= buf2.Length
    modifies buf2
    ensures datalen == buf[LengthAt(buf)] - 2
    ensures buf2[..datalen] == Take(buf, LengthAt(buf) + 1, datalen).0
  {
    var cp := 2;
    if buf[cp] == DLE {
      cp := cp + 1;
    }
    datalen := buf[cp];
    cp := cp + 1;
    datalen := datalen - 2;
    TakeBytes(buf, cp, datalen, buf2);
  }

  lemma {:induction false} TakeStuffed(before: seq<byte>, p: seq<byte>, after: seq<byte>)
    requires |before| + 2 * |p| <= |before + Stuff(p) + after|
    ensures Take(before + Stuff(p) + after, |before|, |p|) == (p, |before| + |Stuff(p)|)
    decreases |p|
  {
    var s := before + Stuff(p) + after;
    if p != [] {
      var first := if p[0] == DLE then [DLE, DLE] else [p[0]];
      assert before + first + Stuff(p[1..]) + after == s;
      assert s[|before|] == p[0];
      TakeStuffed(before + first, p[1..], after);
      assert [p[0]] + p[1..] == p;
    }
  }

  /** evermore_parse gives back every payload evermore_control_send can send, whatever its length byte
      and its checksum happen to be; more may follow in the buffer. */
  lemma EvermoreRoundTrip(p: seq<byte>, more: seq<byte>)
    requires |p| < 254 && |p| <= |more|
    ensures var s := EvermoreFrame(p) + more;
            var at := LengthAt(s);
            s[at] == |p| + 2 && at + 2 * (s[at] as int) <= |s| + 3 && Take(s, at + 1, |p|).0 == p
  {
    var len: byte, crc: byte := |p| + 2, Sum(p) % 256;
    FrameParts(p, len, crc);
    StuffLength(p);
    StuffOne(len);
    var before, after := [DLE, STX] + Stuff([len]), Stuff([crc]) + [DLE, ETX] + more;
    var s := EvermoreFrame(p) + more;
    assert s == before + Stuff(p) + after;
    TakeStuffed(before, p, after);
  }
}
