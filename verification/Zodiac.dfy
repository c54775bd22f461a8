/** driver_zodiac.c: forwarding RTCM corrections in checksummed messages; little-endian hosts. */
module Zodiac {
  import opened Bytes
  import opened Options

  type word = x: int | 0 <= x < 0x1_0000

  const SYNC: word := 0x81ff
  const RTCM_MESSAGE: word := 1351

  // ----- words

  function Sum(ws: seq<word>): nat {
    if ws == [] then 0 else Sum(ws[..|ws| - 1]) + ws[|ws| - 1]
  }

  lemma SumSnoc(ws: seq<word>, w: word)
    ensures Sum([]) == 0 && Sum(ws + [w]) == Sum(ws) + w
  {
    assert (ws + [w])[..|ws|] == ws;
  }

  predicate SumsToZero(ws: seq<word>) {
    Sum(ws) % 0x1_0000 == 0
  }

  function Checksum(ws: seq<word>): word {
    (0x1_0000 - Sum(ws) % 0x1_0000) % 0x1_0000
  }

  /** A word list followed by its checksum sums to zero. */
  lemma ChecksumCompletes(ws: seq<word>)
    ensures SumsToZero(ws + [Checksum(ws)])
  {
    assert (ws + [Checksum(ws)])[..|ws|] == ws;
  }

  /** zodiac_checksum: a sum of unsigned shorts, negated as one. */
  method ZodiacChecksum(w: seq<word>) returns (r: word)
    ensures r == Checksum(w)
  {
    var csum: word := 0;
    for k := 0 to |w|
      invariant csum == Sum(w[..k]) % 0x1_0000
    {
      assert w[..k + 1][..k] == w[..k];
      csum := (csum as int + w[k] as int) % 0x1_0000;
    }
    assert w[..|w|] == w;
    r := (0x1_0000 - csum as int) % 0x1_0000;
  }

  function Lo(w: word): byte { w % 256 }

  function Hi(w: word): byte { w / 256 }

  function Wire(ws: seq<word>): (s: seq<byte>)
    ensures |s| == 2 * |ws|
  {
    if ws == [] then [] else [Lo(ws[0]), Hi(ws[0])] + Wire(ws[1..])
  }

  /** The low byte of each word goes first. */
  lemma {:induction false} WireAt(ws: seq<word>, i: nat)
    requires i < |ws|
    ensures Wire(ws)[2 * i] == ws[i] % 256 && Wire(ws)[2 * i + 1] == ws[i] / 256
  {
    if i > 0 {
      WireAt(ws[1..], i - 1);
    }
  }

  /** Bytes laid over words, a zero byte completing the last one. */
  function Words(s: seq<byte>): (ws: seq<word>)
    ensures |ws| == |s| / 2 + |s| % 2
  {
    if s == [] then []
    else if |s| == 1 then [s[0]]
    else [s[0] + 256 * s[1] as int] + Words(s[2..])
  }

  function Padded(s: seq<byte>): seq<byte> {
    if |s| % 2 == 0 then s else s + [0]
  }

  lemma {:induction false} WireOfWords(s: seq<byte>)
    ensures Wire(Words(s)) == Padded(s)
    decreases |s|
  {
    if |s| >= 2 {
      WireOfWords(s[2..]);
      assert Words(s)[1..] == Words(s[2..]);
      assert s == [s[0], s[1]] + s[2..];
    } else if |s| == 1 {
      assert Words(s)[1..] == [] && s == [s[0]];
    }
  }

  lemma {:induction false} WordsOfWire(ws: seq<word>)
    ensures Words(Wire(ws)) == ws
  {
    if ws != [] {
      WordsOfWire(ws[1..]);
      var s := Wire(ws);
      assert s[2..] == Wire(ws[1..]) && s[0] == Lo(ws[0]) && s[1] == Hi(ws[0]);
      assert [ws[0]] + ws[1..] == ws;
    }
  }

  lemma {:induction false} WireConcat(a: seq<word>, b: seq<word>)
    ensures Wire(a + b) == Wire(a) + Wire(b)
  {
    if a == [] {
      assert a + b == b;
    } else {
      WireConcat(a[1..], b);
      assert (a + b)[1..] == a[1..] + b && (a + b)[0] == a[0];
    }
  }

  // ----- messages

  function Header(kind: word, ndata: word): (h: seq<word>)
    ensures |h| == 5
  {
    var h := [SYNC, kind, ndata, 0];
    h + [Checksum(h)]
  }

  function Data(sn: word, chunk: seq<byte>): (ws: seq<word>)
    ensures |ws| == 2 + |chunk| / 2 + |chunk| % 2
  {
    var ws := [sn] + Words(chunk);
    ws + [Checksum(ws)]
  }

  function Message(sn: word, chunk: seq<byte>): (ws: seq<word>)
    requires |chunk| <= 64
  {
    Header(RTCM_MESSAGE, 1 + |chunk| / 2 + |chunk| % 2) + Data(sn, chunk)
  }

  /** The sequence number wraps after 32768. */
  function NextSn(sn: word): word {
    if sn > 32767 then 0 else sn + 1
  }

  function Messages(sn: word, buf: seq<byte>): seq<word>
    decreases |buf|
  {
    if buf == [] then []
    else
      var len := if |buf| > 64 then 64 else |buf|;
      Message(NextSn(sn), buf[..len]) + Messages(NextSn(sn), buf[len..])
  }

  function SnAfter(sn: word, buf: seq<byte>): word
    decreases |buf|
  {
    if buf == [] then sn else SnAfter(NextSn(sn), buf[if |buf| > 64 then 64 else |buf|..])
  }

  lemma NextMessage(sn: word, buf: seq<byte>, len: nat)
    requires buf != [] && len == if |buf| > 64 then 64 else |buf|
    ensures Wire(Messages(sn, buf)) == Wire(Message(NextSn(sn), buf[..len])) + Wire(Messages(NextSn(sn), buf[len..]))
    ensures SnAfter(sn, buf) == SnAfter(NextSn(sn), buf[len..])
  {
    WireConcat(Message(NextSn(sn), buf[..len]), Messages(NextSn(sn), buf[len..]));
  }

  lemma Associate(a: seq<byte>, b: seq<byte>, c: seq<byte>)
    ensures a + (b + c) == a + b + c
  {
  }

  class Session {
    var sn: word
    var sent: seq<byte>

    constructor ()
      ensures sn == 0 && sent == []
    {
      sn, sent := 0, [];
    }

    /** Shorts in little-endian format, to a device that takes them all. */
    method EndWrite(data: seq<word>)
      modifies this`sent
      ensures sent == old(sent) + Wire(data)
    {
      var buf: seq<byte> := [];
      for n := 0 to |data|
        invariant sent == old(sent) && buf == Wire(data[..n])
      {
        assert data[..n + 1] == data[..n] + [data[n]];
        WireConcat(data[..n], [data[n]]);
        assert Wire([data[n]]) == [Lo(data[n]), Hi(data[n])] + Wire([data[n]][1..]) && [data[n]][1..] == [];
        buf := buf + [Lo(data[n]), Hi(data[n])];
      }
      assert data[..|data|] == data;
      sent := sent + buf;
    }

    method Spew(kind: word, dat: seq<word>)
      requires 1 <= |dat| <= 0x1_0000
      modifies this`sent
      ensures sent == old(sent) + Wire(Header(kind, |dat| - 1) + dat)
    {
      var h: seq<word> := [SYNC, kind, |dat| - 1, 0];
      var csum := ZodiacChecksum(h);
      EndWrite(h + [csum]);
      EndWrite(dat);
      WireConcat(Header(kind, |dat| - 1), dat);
    }

    method SendRtcm(rtcmbuf: seq<byte>)
      requires |rtcmbuf| <= 64
      modifies this
      ensures sn == NextSn(old(sn))
      ensures sent == old(sent) + Wire(Message(sn, rtcmbuf))
    {
      var n := 1 + |rtcmbuf| / 2 + |rtcmbuf| % 2;
      if sn > 32767 {
        sn := 0;
      } else {
        sn := sn + 1;
      }
      var data := [sn] + Words(rtcmbuf);
      var csum := ZodiacChecksum(data[..n]);
      assert data[..n] == data;
      Spew(RTCM_MESSAGE, data + [csum]);
    }

    /** One round: the next len bytes from at on. */
    method SendNext(rtcmbuf: seq<byte>, at: nat, len: nat)
      requires at < |rtcmbuf| && len == if |rtcmbuf| - at > 64 then 64 else |rtcmbuf| - at
      modifies this
      ensures SnAfter(sn, rtcmbuf[at + len..]) == SnAfter(old(sn), rtcmbuf[at..])
      ensures sent + Wire(Messages(sn, rtcmbuf[at + len..])) == old(sent) + Wire(Messages(old(sn), rtcmbuf[at..]))
    {
      ghost var left := rtcmbuf[at..];
      NextMessage(sn, left, len);
      Associate(sent, Wire(Message(NextSn(sn), left[..len])), Wire(Messages(NextSn(sn), left[len..])));
      assert left[len..] == rtcmbuf[at + len..] && left[..len] == rtcmbuf[at..at + len];
      SendRtcm(rtcmbuf[at..at + len]);
    }

    method ZodiacSendRtcm(rtcmbuf: seq<byte>)
      modifies this
      ensures sn == SnAfter(old(sn), rtcmbuf)
      ensures sent == old(sent) + Wire(Messages(old(sn), rtcmbuf))
    {
      var at := 0;
      assert rtcmbuf[0..] == rtcmbuf;
      while |rtcmbuf| - at > 0
        modifies this
        invariant at <= |rtcmbuf|
        invariant SnAfter(sn, rtcmbuf[at..]) == SnAfter(old(sn), rtcmbuf)
        invariant sent + Wire(Messages(sn, rtcmbuf[at..])) == old(sent) + Wire(Messages(old(sn), rtcmbuf))
      {
        var len := if |rtcmbuf| - at > 64 then 64 else |rtcmbuf| - at;
        SendNext(rtcmbuf, at, len);
        at := at + len;
      }
    }
  }

  // ----- the receiving end

  datatype Packet = Packet(sn: word, payload: seq<byte>)

  /** A device that takes whole messages only, whose header words and data words sum to zero. */
  function Receive(ws: seq<word>): Option<seq<Packet>>
    decreases |ws|
  {
    if ws == [] then Some([])
    else if |ws| < 5 || ws[0] != 0x81ff || ws[1] != 1351 || !SumsToZero(ws[..5]) then None
    else
      var end := 6 + ws[2] as int;
      if ws[2] == 0 || end > |ws| || !SumsToZero(ws[5..end]) then None
      else
        var rest := Receive(ws[end..]);
        if rest.None? then None else Some([Packet(ws[5], Wire(ws[6..end - 1]))] + rest.value)
  }

  /** The packets a buffer should arrive as: 64 bytes each while they last, the last one padded to a
      whole number of words. */
  function Packets(sn: word, buf: seq<byte>): seq<Packet>
    decreases |buf|
  {
    if buf == [] then []
    else
      var len := if |buf| > 64 then 64 else |buf|;
      [Packet(NextSn(sn), Padded(buf[..len]))] + Packets(NextSn(sn), buf[len..])
  }

  lemma MessageParts(sn: word, chunk: seq<byte>, rest: seq<word>)
    requires |chunk| <= 64
    ensures var ws := Message(sn, chunk) + rest;
            var end := |Message(sn, chunk)|;
            && end == 6 + ws[2] as int && ws[2] > 0 && ws[0] == SYNC && ws[1] == RTCM_MESSAGE && ws[5] == sn
            && ws[..5] == Header(RTCM_MESSAGE, ws[2]) && ws[5..end] == Data(sn, chunk)
            && ws[6..end - 1] == Words(chunk) && ws[end..] == rest
  {
    var d := Data(sn, chunk);
    assert d[1..|d| - 1] == Words(chunk);
    var ws := Message(sn, chunk) + rest;
    assert ws[6..|Message(sn, chunk)| - 1] == d[1..|d| - 1];
  }

  /** Both parts of every message sum to zero. */
  lemma PartsSumToZero(sn: word, chunk: seq<byte>, ndata: word)
    ensures SumsToZero(Header(RTCM_MESSAGE, ndata)) && SumsToZero(Data(sn, chunk))
  {
    ChecksumCompletes([SYNC, RTCM_MESSAGE, ndata, 0]);
    ChecksumCompletes([sn] + Words(chunk));
  }

  lemma {:induction false} MessagesReceived(sn: word, buf: seq<byte>)
    ensures Receive(Messages(sn, buf)) == Some(Packets(sn, buf))
    decreases |buf|
  {
    if buf != [] {
      var len := if |buf| > 64 then 64 else |buf|;
      var chunk, next := buf[..len], NextSn(sn);
      var rest := Messages(next, buf[len..]);
      MessagesReceived(next, buf[len..]);
      MessageParts(next, chunk, rest);
      PartsSumToZero(next, chunk, (Message(next, chunk) + rest)[2]);
      WireOfWords(chunk);
    }
  }

  function Payload(ps: seq<Packet>): seq<byte> {
    if ps == [] then [] else ps[0].payload + Payload(ps[1..])
  }

  lemma {:induction false} PayloadIsBuffer(sn: word, buf: seq<byte>)
    ensures Payload(Packets(sn, buf)) == Padded(buf)
    decreases |buf|
  {
    if buf != [] {
      var len := if |buf| > 64 then 64 else |buf|;
      PayloadIsBuffer(NextSn(sn), buf[len..]);
      var ps := Packets(sn, buf);
      assert ps[1..] == Packets(NextSn(sn), buf[len..]);
      assert buf == buf[..len] + buf[len..];
    }
  }

  /** Each message carries the number after that of the one before it; 0 comes after 32768. */
  ghost predicate Consecutive(sn: word, ps: seq<Packet>) {
    forall i: nat :: i < |ps| ==>
      ps[i].sn as int == Following(if i == 0 then sn else ps[i - 1].sn)
  }

  function Following(last: nat): nat {
    if last >= 32768 then 0 else last + 1
  }

  lemma ConsecutiveCons(sn: word, first: Packet, rest: seq<Packet>)
    requires first.sn as int == Following(sn) && Consecutive(first.sn, rest)
    ensures Consecutive(sn, [first] + rest)
  {
    var ps := [first] + rest;
    forall i: nat | i < |ps|
      ensures ps[i].sn as int == Following(if i == 0 then sn else ps[i - 1].sn)
    {
      if i > 0 {
        var j: nat := i - 1;
        assert rest[j].sn as int == Following(if j == 0 then first.sn else rest[j - 1].sn);
        assert ps[i] == rest[j] && ps[j] == if j == 0 then first else rest[j - 1];
      }
    }
  }

  lemma {:induction false} NumbersAreConsecutive(sn: word, buf: seq<byte>)
    ensures Consecutive(sn, Packets(sn, buf))
    decreases |buf|
  {
    if buf != [] {
      var len := if |buf| > 64 then 64 else |buf|;
      var first, rest := Packet(NextSn(sn), Padded(buf[..len])), Packets(NextSn(sn), buf[len..]);
      NumbersAreConsecutive(NextSn(sn), buf[len..]);
      ConsecutiveCons(sn, first, rest);
    }
  }

  predicate Full(ps: seq<Packet>) {
    forall i :: 0 <= i < |ps| - 1 ==> |ps[i].payload| == 64
  }

  lemma FullCons(p: Packet, ps: seq<Packet>)
    requires Full(ps) && (ps == [] || |p.payload| == 64)
    ensures Full([p] + ps)
  {
    var all := [p] + ps;
    forall i | 0 <= i < |all| - 1
      ensures |all[i].payload| == 64
    {
      if i > 0 {
        assert all[i] == ps[i - 1];
      }
    }
  }

  lemma {:induction false} PacketSizes(sn: word, buf: seq<byte>)
    ensures Full(Packets(sn, buf)) && |Packets(sn, buf)| == (|buf| + 63) / 64
    decreases |buf|
  {
    if buf != [] {
      var len := if |buf| > 64 then 64 else |buf|;
      PacketSizes(NextSn(sn), buf[len..]);
      FullCons(Packet(NextSn(sn), Padded(buf[..len])), Packets(NextSn(sn), buf[len..]));
      assert (|buf| + 63) / 64 == 1 + (|buf| - len + 63) / 64;
    }
  }

  /** What goes out on the wire, read back as words by a receiver that checks everything, is the buffer
      in order: nothing lost, nothing twice, at most one pad byte at the very end, in messages numbered on. */
  lemma BufferArrives(sn: word, buf: seq<byte>)
    ensures var r := Receive(Words(Wire(Messages(sn, buf))));
            && r.Some? && Payload(r.value) == Padded(buf) && |r.value| == (|buf| + 63) / 64 && Full(r.value)
            && Consecutive(sn, r.value)
  {
    NumbersAreConsecutive(sn, buf);
    WordsOfWire(Messages(sn, buf));
    MessagesReceived(sn, buf);
    PayloadIsBuffer(sn, buf);
    PacketSizes(sn, buf);
  }
}
