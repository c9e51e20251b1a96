/** What the framers make of a session: one region for each of its requests. */
module Sessions {
  import opened Bytes
  import opened Framers

  function AsByte(c: char): byte {
    c as int % 256
  }

  /** A string of 7-bit characters as bytes. */
  function Ascii(s: string): (bs: seq<byte>)
    ensures |bs| == |s|
  {
    seq(|s|, i requires 0 <= i < |s| => AsByte(s[i]))
  }

  /** Is byte k of m the last one of a request, with `next` behind m? */
  predicate LastByte(p: Protocol, m: Message, k: nat, next: seq<byte>)
    requires k < |m|
  {
    match p
    case SMTP => k >= 2 && m[k - 1] == 13 && m[k] == 10
    case FTP => k >= 2 && m[k - 1] == 13 && m[k] == 10
    case RTSP => k >= 4 && m[k - 3] == 13 && m[k - 2] == 10 && m[k - 1] == 13 && m[k] == 10
    case HTTP => k >= 4 && m[k - 3] == 13 && m[k - 2] == 10 && m[k - 1] == 13 && m[k] == 10
    case SIP =>
      && k >= 2 && m[k - 1] == 13
      && var rest := m[k + 1..] + next;
         Ascii("REGISTER") <= rest || Ascii("INVITE") <= rest || Ascii("ACK") <= rest || Ascii("BYE") <= rest
    case IPP =>
      && k >= 4 && ((m[k - 3] == 13 && m[k - 2] == 10 && m[k - 1] == 13 && m[k] == 10) || m[k] == 3)
      && Ascii("POST") <= m[k + 1..] + next
  }

  /** Byte `end` of m, or the end of m, comes before any last byte. */
  ghost predicate Unended(p: Protocol, m: Message, end: nat, next: seq<byte>)
    requires end <= |m|
  {
    forall k :: 0 <= k < end ==> !LastByte(p, m, k, next)
  }

  /** Complete requests, and a tail that is none. */
  ghost predicate Session(p: Protocol, ms: seq<Message>, tail: Message) {
    if ms == [] then Unended(p, tail, |tail|, [])
    else
      && ms[0] != []
      && var next := Concat(ms[1..]) + tail;
         LastByte(p, ms[0], |ms[0]| - 1, next) && Unended(p, ms[0], |ms[0]| - 1, next)
         && Session(p, ms[1..], tail)
  }

  function Slice(buf: seq<byte>, r: Region): Message {
    if r.start <= r.end < |buf| then buf[r.start..r.end + 1] else []
  }

  function Slices(buf: seq<byte>, rs: seq<Region>): (ms: seq<Message>)
    ensures |ms| == |rs|
  {
    seq(|rs|, i requires 0 <= i < |rs| => Slice(buf, rs[i]))
  }

  lemma FirstSlice(buf: seq<byte>, rs: seq<Region>)
    requires rs != []
    ensures Slices(buf, rs) == [Slice(buf, rs[0])] + Slices(buf, rs[1..])
  {
  }

  lemma CommandNames()
    ensures Ascii("REGISTER") == REGISTER && Ascii("INVITE") == INVITE && Ascii("ACK") == ACK
    ensures Ascii("BYE") == BYE && Ascii("POST") == POST
  {
  }

  lemma EndsWithTwo(mem: seq<byte>)
    ensures EndsWith(mem, CRLF) <==> |mem| >= 2 && mem[|mem| - 2] == 13 && mem[|mem| - 1] == 10
  {
    if |mem| >= 2 { assert mem[|mem| - 2..] == [mem[|mem| - 2], mem[|mem| - 1]]; }
  }

  lemma EndsWithFour(mem: seq<byte>)
    ensures EndsWith(mem, CRLFCRLF) <==>
            |mem| >= 4 && mem[|mem| - 4] == 13 && mem[|mem| - 3] == 10 && mem[|mem| - 2] == 13 && mem[|mem| - 1] == 10
  {
    if |mem| >= 4 { assert mem[|mem| - 4..] == [mem[|mem| - 4], mem[|mem| - 3], mem[|mem| - 2], mem[|mem| - 1]]; }
  }

  lemma CompleteMeans(p: Protocol, m: Message, k: nat, next: seq<byte>)
    requires k < |m|
    ensures Complete(p, m[..k + 1], m[k + 1..] + next) <==> LastByte(p, m, k, next)
  {
    hide Ascii, EndsWith;
    CommandNames();
    EndsWithTwo(m[..k + 1]);
    EndsWithFour(m[..k + 1]);
  }

  lemma CutIsLastByte(p: Protocol, buf: seq<byte>, start: nat, m: Message, next: seq<byte>, k: nat)
    requires start <= |buf| && buf[start..] == m + next && k < |m|
    ensures CutAfter(p, buf, start, start + k) <==> LastByte(p, m, k, next)
  {
    hide Complete, LastByte;
    assert buf[start..start + k + 1] == buf[start..][..k + 1] == m[..k + 1];
    assert buf[start + k + 1..] == buf[start..][k + 1..] == m[k + 1..] + next;
    CompleteMeans(p, m, k, next);
  }

  // ----- the regions of a session -----

  /** The bytes from `start` on, framed: nothing is left out but at most one byte. */
  ghost predicate FramedFrom(p: Protocol, buf: seq<byte>, start: nat, rs: seq<Region>) {
    if rs == [] then start == |buf| || (start == |buf| - 1 && start > 0)
    else rs[0].start == start && Framed(p, buf, rs)
  }

  /** What is cut first in the rest of the buffer, and how the cutting goes on. */
  lemma FirstOfFramed(p: Protocol, buf: seq<byte>, start: nat, rs: seq<Region>, to: nat)
    requires FramedFrom(p, buf, start, rs) && rs != [] && Tiles(rs, start, to)
    ensures start <= rs[0].end < |buf| && NoCutBefore(p, buf, start, rs[0].end)
    ensures CutAfter(p, buf, start, rs[0].end) ||
            (|rs| == 1 && rs[0].end == |buf| - 1 && (start < rs[0].end || |buf| == 1))
    ensures FramedFrom(p, buf, rs[0].end + 1, rs[1..])
    ensures |rs| > 1 ==> CutAfter(p, buf, start, rs[0].end)
    ensures Tiles(rs[1..], rs[0].end + 1, to)
  {
    hide CutAfter, NoCutBefore;
    if |rs| > 1 {
      assert rs[..|rs| - 1][0] == rs[0];
      var later := rs[1..];
      assert later[|later| - 1] == rs[|rs| - 1];
      assert later[..|later| - 1] == rs[..|rs| - 1][1..];
      assert rs[..|rs| - 1][1..] == rs[1..|rs| - 1];
    }
  }

  /** A complete request at `start` is the first region. */
  lemma RequestIsCut(p: Protocol, buf: seq<byte>, start: nat, rs: seq<Region>, to: nat, m: Message, next: seq<byte>)
    requires FramedFrom(p, buf, start, rs) && Tiles(rs, start, to)
    requires start <= |buf| && buf[start..] == m + next && m != []
    requires LastByte(p, m, |m| - 1, next) && Unended(p, m, |m| - 1, next)
    ensures rs != [] && rs[0] == Region(start, start + |m| - 1)
  {
    hide CutAfter, LastByte, Framed;
    LastByteIsThird(p, m, next);
    FirstOfFramed(p, buf, start, rs, to);
    var e := start + |m| - 1;
    CutIsLastByte(p, buf, start, m, next, |m| - 1);
    if rs[0].end < e {
      CutIsLastByte(p, buf, start, m, next, rs[0].end - start);
      assert false;
    }
  }

  lemma LastByteIsThird(p: Protocol, m: Message, next: seq<byte>)
    requires m != [] && LastByte(p, m, |m| - 1, next)
    ensures |m| >= 3
  {
  }

  /** A tail is one region, unless it is a single byte after a request. */
  lemma TailIsLast(p: Protocol, buf: seq<byte>, start: nat, rs: seq<Region>, to: nat, tail: Message)
    requires FramedFrom(p, buf, start, rs) && Tiles(rs, start, to)
    requires start <= |buf| && buf[start..] == tail && Unended(p, tail, |tail|, [])
    ensures rs == if |tail| > 1 || (start == 0 && tail != []) then [Region(start, |buf| - 1)] else []
  {
    hide CutAfter, LastByte, Framed;
    if rs != [] {
      FirstOfFramed(p, buf, start, rs, to);
      assert tail == tail + [];
      CutIsLastByte(p, buf, start, tail, [], rs[0].end - start);
      assert rs == [rs[0]];
    }
  }

  lemma {:induction false} SessionFrom(p: Protocol, buf: seq<byte>, start: nat, rs: seq<Region>, to: nat,
                                       ms: seq<Message>, tail: Message)
    requires FramedFrom(p, buf, start, rs) && Tiles(rs, start, to)
    requires start <= |buf| && buf[start..] == Concat(ms) + tail && Session(p, ms, tail)
    ensures Slices(buf, rs) == ms + if |tail| > 1 || (start == 0 && ms == [] && tail != []) then [tail] else []
    decreases |ms|
  {
    hide CutAfter, LastByte, Framed, FramedFrom, Unended, Slices, Tiles, Session;
    if ms == [] {
      assert Concat([]) + tail == tail;
      TailSlices(p, buf, start, rs, to, tail);
    } else {
      var m, next := ms[0], Concat(ms[1..]) + tail;
      assert Concat(ms) + tail == m + next;
      FirstRequest(p, ms, tail);
      RequestIsCut(p, buf, start, rs, to, m, next);
      FirstOfFramed(p, buf, start, rs, to);
      NextAt(buf, start, m, next);
      SessionFrom(p, buf, rs[0].end + 1, rs[1..], to, ms[1..], tail);
      FirstSlice(buf, rs);
    }
  }

  lemma FirstRequest(p: Protocol, ms: seq<Message>, tail: Message)
    requires Session(p, ms, tail) && ms != []
    ensures ms[0] != [] && Session(p, ms[1..], tail)
    ensures var next := Concat(ms[1..]) + tail;
            LastByte(p, ms[0], |ms[0]| - 1, next) && Unended(p, ms[0], |ms[0]| - 1, next)
  {
  }

  lemma NextAt(buf: seq<byte>, start: nat, m: Message, next: seq<byte>)
    requires start <= |buf| && buf[start..] == m + next
    ensures start + |m| <= |buf| && buf[start..start + |m|] == m && buf[start + |m|..] == next
  {
    assert buf[start + |m|..] == buf[start..][|m|..];
    assert buf[start..start + |m|] == buf[start..][..|m|];
  }

  lemma TailSlices(p: Protocol, buf: seq<byte>, start: nat, rs: seq<Region>, to: nat, tail: Message)
    requires FramedFrom(p, buf, start, rs) && Tiles(rs, start, to)
    requires start <= |buf| && buf[start..] == tail && Session(p, [], tail)
    ensures Slices(buf, rs) == if |tail| > 1 || (start == 0 && tail != []) then [tail] else []
  {
    hide CutAfter, LastByte, Framed, FramedFrom, Tiles;
    TailIsLast(p, buf, start, rs, to, tail);
    assert buf[start..|buf|] == tail;
  }

  /** The regions of a session are its requests and what is left; a single byte left over is in
      no region. */
  lemma SessionIsCut(p: Protocol, ms: seq<Message>, tail: Message, rs: seq<Region>)
    requires Session(p, ms, tail)
    requires var buf := Concat(ms) + tail; Fits(rs, buf) && if buf == [] then rs == [] else Framed(p, buf, rs)
    ensures Slices(Concat(ms) + tail, rs) == ms + if |tail| > 1 || (ms == [] && tail != []) then [tail] else []
  {
    hide Framed, Session;
    var buf := Concat(ms) + tail;
    if buf == [] {
      EmptySession(p, ms, tail);
    } else {
      FramedIsNotEmpty(p, buf, rs);
      FitsAt(rs, buf, 0);
      assert buf[0..] == buf;
      SessionFrom(p, buf, 0, rs, Stop(rs), ms, tail);
    }
  }

  lemma FramedIsNotEmpty(p: Protocol, buf: seq<byte>, rs: seq<Region>)
    requires Framed(p, buf, rs)
    ensures rs != []
  {
  }

  lemma EmptySession(p: Protocol, ms: seq<Message>, tail: Message)
    requires Session(p, ms, tail) && Concat(ms) + tail == []
    ensures ms == []
  {
  }

  /** Every buffer is a session, so the framers' results are all accounted for. */
  lemma {:induction false} AnySession(p: Protocol, buf: seq<byte>) returns (ms: seq<Message>, tail: Message)
    ensures Concat(ms) + tail == buf && Session(p, ms, tail)
    decreases |buf|
  {
    hide LastByte;
    if Unended(p, buf, |buf|, []) {
      ms, tail := [], buf;
    } else {
      var k := FirstLastByte(p, buf, |buf|);
      ms, tail := AnySession(p, buf[k + 1..]);
      var m, next := buf[..k + 1], buf[k + 1..];
      SameLastByte(p, buf, k + 1, k);
      forall j | 0 <= j < k ensures !LastByte(p, m, j, next) {
        SameLastByte(p, buf, k + 1, j);
      }
      assert ([m] + ms)[1..] == ms && Concat(ms) + tail == next;
      assert LastByte(p, m, |m| - 1, next) && Unended(p, m, |m| - 1, next);
      ms := [m] + ms;
      assert m + next == buf;
    }
  }

  lemma {:induction false} FirstLastByte(p: Protocol, m: Message, end: nat) returns (k: nat)
    requires end <= |m| && !Unended(p, m, end, [])
    ensures k < end && LastByte(p, m, k, []) && Unended(p, m, k, [])
  {
    hide LastByte;
    if Unended(p, m, end - 1, []) { k := end - 1; } else { k := FirstLastByte(p, m, end - 1); }
  }

  lemma SameLastByte(p: Protocol, m: Message, n: nat, k: nat)
    requires k < n <= |m|
    ensures LastByte(p, m[..n], k, m[n..]) <==> LastByte(p, m, k, [])
  {
    hide Ascii;
    assert m[..n][k + 1..] + m[n..] == m[k + 1..] + [];
  }

  /** The framers at work on a session. */
  method CutSession(p: Protocol, ms: seq<Message>, tail: Message) returns (regions: seq<Region>)
    requires Session(p, ms, tail)
    ensures Slices(Concat(ms) + tail, regions) == ms + if |tail| > 1 || (ms == [] && tail != []) then [tail] else []
  {
    regions := ExtractRequests(p, Concat(ms) + tail);
    SessionIsCut(p, ms, tail, regions);
  }
}
