/** aflnet.c's extract_requests_*: cutting a buffer into one region per request. */
module Framers {
  import opened Bytes
  import opened CLibrary

  const END_OF_ATTRIBUTES: byte := 3

  const CRLF: seq<byte> := [CR, LF]
  const CRLFCRLF: seq<byte> := [CR, LF, CR, LF]
  const REGISTER: seq<byte> := [82, 69, 71, 73, 83, 84, 69, 82]
  const INVITE: seq<byte> := [73, 78, 86, 73, 84, 69]
  const ACK: seq<byte> := [65, 67, 75]
  const BYE: seq<byte> := [66, 89, 69]
  const POST: seq<byte> := [80, 79, 83, 84]

  // ----- the six framers that scan for a terminator -----

  datatype Protocol = SMTP | FTP | RTSP | HTTP | SIP | IPP

  predicate EndsWith(mem: seq<byte>, t: seq<byte>) {
    |mem| >= |t| && mem[|mem| - |t|..] == t
  }

  /** Is the request in `mem` over, given the bytes that follow?  `|mem| - 1` is mem_count. */
  predicate Complete(p: Protocol, mem: seq<byte>, rest: seq<byte>)
    requires mem != []
  {
    var mem_count := |mem| - 1;
    match p
    case SMTP => mem_count > 1 && EndsWith(mem, CRLF)
    case FTP => mem_count > 1 && EndsWith(mem, CRLF)
    case RTSP => mem_count > 3 && EndsWith(mem, CRLFCRLF)
    case HTTP => mem_count >= 4 && EndsWith(mem, CRLFCRLF)
    case SIP =>
      && mem_count > 1 && mem[mem_count - 1] == CR
      && (REGISTER <= rest || INVITE <= rest || ACK <= rest || BYE <= rest)
    case IPP =>
      && mem_count > 3 && (EndsWith(mem, CRLFCRLF) || mem[mem_count] == END_OF_ATTRIBUTES)
      && POST <= rest
  }

  /** A request that starts at `start` is over with byte `pos`. */
  predicate CutAfter(p: Protocol, buf: seq<byte>, start: nat, pos: nat)
    requires start <= pos < |buf|
  {
    Complete(p, buf[start..pos + 1], buf[pos + 1..])
  }

  predicate NoCutBefore(p: Protocol, buf: seq<byte>, start: nat, end: nat)
    requires start <= end <= |buf|
  {
    forall pos :: start <= pos < end ==> !CutAfter(p, buf, start, pos)
  }

  /** Regions are whole requests, cut at the first chance. */
  ghost predicate WholeRequests(p: Protocol, buf: seq<byte>, rs: seq<Region>) {
    forall i :: 0 <= i < |rs| ==>
      && rs[i].start <= rs[i].end < |buf|
      && NoCutBefore(p, buf, rs[i].start, rs[i].end)
      && CutAfter(p, buf, rs[i].start, rs[i].end)
  }

  /** Every region is a whole request, except that the last may be cut short by the end of
      the buffer; a single byte after the last whole request is in no region. */
  ghost predicate Framed(p: Protocol, buf: seq<byte>, rs: seq<Region>) {
    && rs != []
    && var last := rs[|rs| - 1];
       && WholeRequests(p, buf, rs[..|rs| - 1])
       && last.start <= last.end < |buf| && NoCutBefore(p, buf, last.start, last.end)
       && (|| (last.end == |buf| - 1 && (last.start < last.end || |buf| == 1))
           || (last.end == |buf| - 2 && CutAfter(p, buf, last.start, last.end)))
  }

  method ExtractRequests(p: Protocol, buf: seq<byte>) returns (regions: seq<Region>)
    ensures Fits(regions, buf)
    ensures if buf == [] then regions == [] else Framed(p, buf, regions)
  {
    hide Complete, Tiles, CutAfter, WholeRequests, NoCutBefore, Framed;
    NothingYet(p, buf);
    var byte_count := 0;
    var mem: seq<byte> := [];
    regions := [];
    var cur_start, cur_end := 0, 0;
    while byte_count < |buf|
      invariant cur_start <= cur_end == byte_count <= |buf|
      invariant mem == buf[cur_start..byte_count]
      invariant Tiles(regions, 0, cur_start) && Stop(regions) == cur_start
      invariant WholeRequests(p, buf, regions) && NoCutBefore(p, buf, cur_start, cur_end)
      invariant byte_count == |buf| - 1 ==> cur_start == byte_count
      invariant byte_count == |buf| ==> cur_start + 1 == |buf| || buf == []
      decreases |buf| - byte_count
    {
      mem := mem + [buf[byte_count]];
      byte_count := byte_count + 1;
      assert mem == buf[cur_start..byte_count];
      CompleteIsCut(p, buf, cur_start, byte_count - 1);
      if Complete(p, mem, buf[byte_count..]) {
        OneMoreRequest(p, buf, regions, cur_start, cur_end);
        regions := AddRegion(regions, cur_start, cur_end);
        mem := [];
        cur_start := cur_end + 1;
        cur_end := cur_start;
      } else {
        NoCutYet(p, buf, cur_start, cur_end);
        cur_end := cur_end + 1;
        if cur_end == |buf| - 1 {
          CutShort(p, buf, regions, cur_start);
          regions := AddRegion(regions, cur_start, cur_end);
          return;
        }
      }
    }
    if |regions| == 0 && |buf| > 0 {
      CutShort(p, buf, [], 0);
      regions := AddRegion([], 0, |buf| - 1);
    }
    if buf != [] { OneByteLeft(p, buf, regions); }
  }

  lemma NothingYet(p: Protocol, buf: seq<byte>)
    ensures Tiles([], 0, 0) && WholeRequests(p, buf, []) && NoCutBefore(p, buf, 0, 0)
  {
  }

  lemma OneMoreRequest(p: Protocol, buf: seq<byte>, rs: seq<Region>, start: nat, end: nat)
    requires WholeRequests(p, buf, rs) && start <= end < |buf|
    requires NoCutBefore(p, buf, start, end) && CutAfter(p, buf, start, end)
    ensures WholeRequests(p, buf, rs + [Region(start, end)])
    ensures NoCutBefore(p, buf, end + 1, end + 1)
  {
    hide CutAfter;
  }

  lemma NoCutYet(p: Protocol, buf: seq<byte>, start: nat, end: nat)
    requires start <= end < |buf| && NoCutBefore(p, buf, start, end) && !CutAfter(p, buf, start, end)
    ensures NoCutBefore(p, buf, start, end + 1)
  {
  }

  lemma CutShort(p: Protocol, buf: seq<byte>, rs: seq<Region>, start: nat)
    requires start < |buf| && (start < |buf| - 1 || |buf| == 1)
    requires WholeRequests(p, buf, rs) && NoCutBefore(p, buf, start, |buf| - 1)
    ensures Framed(p, buf, rs + [Region(start, |buf| - 1)])
  {
    hide CutAfter, NoCutBefore, WholeRequests;
    assert (rs + [Region(start, |buf| - 1)])[..|rs|] == rs;
  }

  /** The loop only runs to the end of the buffer when a single byte follows the last cut. */
  lemma OneByteLeft(p: Protocol, buf: seq<byte>, rs: seq<Region>)
    requires buf != [] && rs != [] && (Framed(p, buf, rs) || (WholeRequests(p, buf, rs) && Stop(rs) + 1 == |buf|))
    ensures Framed(p, buf, rs)
  {
    hide CutAfter, NoCutBefore;
    assert forall i :: 0 <= i < |rs| - 1 ==> rs[..|rs| - 1][i] == rs[i];
  }

  lemma CompleteIsCut(p: Protocol, buf: seq<byte>, start: nat, pos: nat)
    requires start <= pos < |buf|
    ensures Complete(p, buf[start..pos + 1], buf[pos + 1..]) <==> CutAfter(p, buf, start, pos)
    ensures CutAfter(p, buf, start, pos) ==> pos >= start + 2
    ensures CutAfter(p, buf, start, pos) && p in {SIP, IPP} ==> pos + 3 < |buf|
  {
  }

  method AddRegion(regions: seq<Region>, start: nat, end: nat) returns (r: seq<Region>)
    requires Tiles(regions, 0, start) && start <= end
    ensures r == regions + [Region(start, end)] && Tiles(r, 0, end + 1)
    ensures Stop(r) == end + 1
  {
    r := regions + [Region(start, end)];
    assert Tiles([Region(start, end)], start, end + 1);
    TilesAppend(regions, [Region(start, end)], 0, start, end + 1);
  }

  /** SIP and IPP look ahead for the next request line, so they never lose a byte. */
  lemma LookaheadCoversAll(p: Protocol, buf: seq<byte>, rs: seq<Region>)
    requires p in {SIP, IPP} && Framed(p, buf, rs)
    ensures Stop(rs) == |buf|
  {
    var last := rs[|rs| - 1];
    CompleteIsCut(p, buf, last.start, last.end);
  }

  /** The bytes from `start` up to `end` are whole requests, each cut at the first chance. */
  predicate AllWhole(p: Protocol, buf: seq<byte>, start: nat, end: nat)
    requires start <= end <= |buf|
    decreases end - start
  {
    start == end ||
    exists pos :: start <= pos < end &&
      NoCutBefore(p, buf, start, pos) && CutAfter(p, buf, start, pos) && AllWhole(p, buf, pos + 1, end)
  }

  lemma {:induction false} RegionsAreWhole(p: Protocol, buf: seq<byte>, rs: seq<Region>, start: nat, end: nat)
    requires start <= end <= |buf| && Tiles(rs, start, end) && WholeRequests(p, buf, rs)
    ensures AllWhole(p, buf, start, end)
    decreases |rs|
  {
    hide CutAfter, NoCutBefore;
    if rs != [] {
      TilesBound(rs[1..], rs[0].end + 1, end);
      RegionsAreWhole(p, buf, rs[1..], rs[0].end + 1, end);
    }
  }

  /** There is only one way to cut: past some whole requests the others remain. */
  lemma {:induction false} WholeRemain(p: Protocol, buf: seq<byte>, rs: seq<Region>, start: nat, mid: nat, end: nat)
    requires start <= mid <= end <= |buf| && Tiles(rs, start, mid) && WholeRequests(p, buf, rs)
    requires AllWhole(p, buf, start, end)
    ensures AllWhole(p, buf, mid, end)
    decreases |rs|
  {
    hide CutAfter;
    if rs != [] {
      TilesBound(rs[1..], rs[0].end + 1, mid);
      var pos :| start <= pos < end &&
        NoCutBefore(p, buf, start, pos) && CutAfter(p, buf, start, pos) && AllWhole(p, buf, pos + 1, end);
      assert pos == rs[0].end;
      WholeRemain(p, buf, rs[1..], rs[0].end + 1, mid, end);
    }
  }

  /** The others cover the buffer unless all of it but one byte is whole requests; then that
      byte is in no region. */
  lemma OneTrailingByteIsLost(p: Protocol, buf: seq<byte>, rs: seq<Region>)
    requires Fits(rs, buf) && Framed(p, buf, rs)
    ensures Stop(rs) == |buf| || Stop(rs) == |buf| - 1
    ensures Stop(rs) == |buf| - 1 <==> |buf| > 1 && AllWhole(p, buf, 0, |buf| - 1)
  {
    hide CutAfter, NoCutBefore;
    var n := |rs| - 1;
    var last := rs[n];
    FitsAt(rs, buf, n);
    if last.end == |buf| - 2 {
      assert rs[..n] + [last] == rs;
      assert WholeRequests(p, buf, rs);
      RegionsAreWhole(p, buf, rs, 0, |buf| - 1);
    } else if |buf| > 1 && AllWhole(p, buf, 0, |buf| - 1) {
      TilesUpTo(rs, n, 0, Stop(rs));
      WholeRemain(p, buf, rs[..n], 0, last.start, |buf| - 1);
      OpenRequest(p, buf, last.start);
      assert false;
    }
  }

  lemma OpenRequest(p: Protocol, buf: seq<byte>, start: nat)
    requires start < |buf| - 1 && NoCutBefore(p, buf, start, |buf| - 1)
    ensures !AllWhole(p, buf, start, |buf| - 1)
  {
    hide CutAfter;
  }

  /** For instance the X of "ab\r\nX" under SMTP framing. */
  method LostByte() returns (rs: seq<Region>)
    ensures rs == [Region(0, 3)]
  {
    var buf: seq<byte> := [97, 98, CR, LF, 88];
    rs := ExtractRequests(SMTP, buf);
    FramesOfLostByte(rs);
  }

  lemma FramesOfLostByte(rs: seq<Region>)
    requires var buf: seq<byte> := [97, 98, CR, LF, 88]; Fits(rs, buf) && Framed(SMTP, buf, rs)
    ensures rs == [Region(0, 3)]
  {
    hide CutAfter;
    var buf: seq<byte> := [97, 98, CR, LF, 88];
    FitsAt(rs, buf, 0);
    OnlyCut(buf);
    assert forall i :: 0 <= i < |rs| - 1 ==> rs[..|rs| - 1][i] == rs[i];
    CompleteIsCut(SMTP, buf, rs[0].start, rs[0].end);
    if |rs| > 1 {
      FitsAt(rs, buf, 1);
      CompleteIsCut(SMTP, buf, rs[1].start, rs[1].end);
    }
  }

  lemma OnlyCut(buf: seq<byte>)
    requires buf == [97, 98, CR, LF, 88]
    ensures CutAfter(SMTP, buf, 0, 3) && !CutAfter(SMTP, buf, 0, 2)
  {
    assert buf[0..4][2..] == CRLF;
    assert buf[0..3][1..] == [98, CR];
  }
}
