/** extract_response_codes_ftp and extract_response_codes_smtp: the same scan of a response
    buffer for lines, each starting with a status code. */
module Responses {
  import opened Bytes
  import opened CLibrary

  /** The scanner between two bytes: line buffer, how much of it is filled, and the codes.
      The line buffer keeps stale bytes of earlier lines. */
  datatype Scan = Scan(mem: seq<byte>, mem_count: nat, codes: seq<nat>, stopped: bool) {
    predicate Ok() {
      mem_count < |mem| && 1024 <= |mem|
    }
  }

  function Start(): (s: Scan)
    ensures s.Ok()
  {
    Scan(seq(1024, _ => 0), 0, [0], false)
  }

  function Advance(s: Scan, b: byte): (r: Scan)
    requires s.Ok()
    ensures r.Ok()
  {
    if s.stopped then s
    else
      var mem := s.mem[s.mem_count := b];
      if s.mem_count > 0 && mem[s.mem_count - 1] == CR && mem[s.mem_count] == LF then
        var message_code := Atoi(mem[..3]);
        if message_code == 0 then s.(mem := mem, stopped := true)
        else Scan(mem, 0, s.codes + [message_code], false)
      else
        var count := s.mem_count + 1;
        Scan(if count == |mem| then mem + seq(|mem|, _ => 0) else mem, count, s.codes, false)
  }

  function ScanAll(buf: seq<byte>): (s: Scan)
    ensures s.Ok()
  {
    if buf == [] then Start() else Advance(ScanAll(buf[..|buf| - 1]), buf[|buf| - 1])
  }

  function Codes(buf: seq<byte>): seq<nat> {
    ScanAll(buf).codes
  }

  /** The loop of both extractors. */
  method ExtractResponseCodes(buf: seq<byte>) returns (state_sequence: seq<nat>)
    ensures state_sequence == Codes(buf)
  {
    var byte_count, mem_count := 0, 0;
    var mem: seq<byte> := seq(1024, _ => 0);
    state_sequence := [0];
    assert buf[..0] == [];
    while byte_count < |buf|
      invariant 0 <= byte_count <= |buf|
      invariant Scan(mem, mem_count, state_sequence, false) == ScanAll(buf[..byte_count])
    {
      assert buf[..byte_count + 1][..byte_count] == buf[..byte_count];
      mem := mem[mem_count := buf[byte_count]];
      byte_count := byte_count + 1;
      if mem_count > 0 && mem[mem_count - 1] == CR && mem[mem_count] == LF {
        var message_code := Atoi(mem[..3]);
        if message_code == 0 {
          StoppedStaysStopped(buf, byte_count);
          break;
        }
        state_sequence := state_sequence + [message_code];
        mem_count := 0;
      } else {
        mem_count := mem_count + 1;
        if mem_count == |mem| {
          mem := mem + seq(|mem|, _ => 0);
        }
      }
    }
    assert buf[..|buf|] == buf;
  }

  lemma {:induction false} StoppedStaysStopped(buf: seq<byte>, k: nat)
    requires k <= |buf| && ScanAll(buf[..k]).stopped
    ensures ScanAll(buf) == ScanAll(buf[..k])
    decreases |buf|
  {
    if k < |buf| {
      var shorter := buf[..|buf| - 1];
      assert shorter[..k] == buf[..k];
      StoppedStaysStopped(shorter, k);
    } else {
      assert buf[..k] == buf;
    }
  }

  /** What the server has sent so far yields a prefix of what it will have sent in the end. */
  lemma {:induction false} CodesOfPrefix(buf: seq<byte>, k: nat)
    requires k <= |buf|
    ensures Codes(buf[..k]) <= Codes(buf)
    decreases |buf|
  {
    if k < |buf| {
      var shorter := buf[..|buf| - 1];
      assert shorter[..k] == buf[..k];
      CodesOfPrefix(shorter, k);
      assert Codes(shorter) <= Codes(buf);
    } else {
      assert buf[..k] == buf;
    }
  }

  /** The sequence starts with state 0 and never comes back to it. */
  lemma {:induction false} OnlyTheFirstIsZero(buf: seq<byte>)
    ensures Codes(buf) != [] && Codes(buf)[0] == 0
    ensures forall i :: 1 <= i < |Codes(buf)| ==> Codes(buf)[i] != 0
  {
    if buf != [] { OnlyTheFirstIsZero(buf[..|buf| - 1]); }
  }

  // ----- what a response is scanned to -----

  lemma ScanSnoc(buf: seq<byte>, b: byte)
    ensures ScanAll(buf + [b]) == Advance(ScanAll(buf), b)
  {
    assert (buf + [b])[..|buf + [b]| - 1] == buf;
  }

  lemma AtoiThreeDigits(code: nat)
    requires 100 <= code <= 999
    ensures Atoi([48 + code / 100, 48 + code / 10 % 10, 48 + code % 10]) == code
  {
    AtoiDigits(code / 100, code / 10 % 10, code % 10);
  }

  lemma AtoiDigits(x: nat, y: nat, z: nat)
    requires x < 10 && y < 10 && z < 10
    ensures Atoi([48 + x, 48 + y, 48 + z]) == 100 * x + 10 * y + z
  {
    var s: seq<byte> := [48 + x, 48 + y, 48 + z];
    assert s[1..] == [48 + y, 48 + z];
    assert s[1..][1..] == [48 + z];
    assert s[1..][1..][1..] == [];
    assert Decimal(s, 0) == Decimal(s[1..], x);
    assert Decimal(s[1..], x) == Decimal(s[1..][1..], 10 * x + y);
    assert Decimal(s[1..][1..], 10 * x + y) == 10 * (10 * x + y) + z;
  }

  /** No carriage return with a line feed behind it. */
  ghost predicate NoLineEnd(s: seq<byte>) {
    forall k :: 0 < k < |s| ==> !(s[k - 1] == 13 && s[k] == 10)
  }

  /** The scan is about to begin a line. */
  ghost predicate AtLineStart(buf: seq<byte>) {
    !ScanAll(buf).stopped && ScanAll(buf).mem_count == 0
  }

  /** Bytes without a line end only fill the line buffer. */
  lemma {:induction false} Fills(buf: seq<byte>, w: seq<byte>)
    requires AtLineStart(buf) && NoLineEnd(w)
    ensures var s := ScanAll(buf + w);
            !s.stopped && s.mem_count == |w| && s.codes == ScanAll(buf).codes && s.mem[..|w|] == w
    decreases |w|
  {
    hide Advance, ScanAll;
    if w == [] {
      assert buf + w == buf;
    } else {
      var shorter, b := w[..|w| - 1], w[|w| - 1];
      Fills(buf, shorter);
      assert w == shorter + [b] && buf + w == (buf + shorter) + [b];
      ScanSnoc(buf + shorter, b);
      FillsOne(ScanAll(buf + shorter), shorter, b);
    }
  }

  lemma FillsOne(s: Scan, w: seq<byte>, b: byte)
    requires s.Ok() && !s.stopped && s.mem_count == |w| && s.mem[..|w|] == w && NoLineEnd(w + [b])
    ensures var r := Advance(s, b);
            !r.stopped && r.mem_count == |w| + 1 && r.codes == s.codes && r.mem[..|w| + 1] == w + [b]
  {
    assert (w + [b])[|w|] == b && (|w| > 0 ==> (w + [b])[|w| - 1] == w[|w| - 1] == s.mem[..|w|][|w| - 1]);
  }

  /** The line feed that ends a line of three bytes or more: its first three bytes are read. */
  lemma LineEnds(buf: seq<byte>, w: seq<byte>)
    requires AtLineStart(buf) && NoLineEnd(w) && |w| >= 3 && w[|w| - 1] == 13
    ensures var s, code := ScanAll(buf + w + [10]), Atoi(w[..3]);
            if code == 0 then s.stopped && s.codes == ScanAll(buf).codes
            else !s.stopped && s.mem_count == 0 && s.codes == ScanAll(buf).codes + [code] && s.mem[2] == w[2]
  {
    hide Atoi, ScanAll;
    Fills(buf, w);
    ScanSnoc(buf + w, 10);
    var s := ScanAll(buf + w);
    assert s.mem[..|w|][|w| - 1] == 13;
    assert s.mem[|w| := 10][..3] == s.mem[..|w|][..3] == w[..3];
  }

  type ThreeDigits = c: nat | 100 <= c <= 999 witness 100

  /** A line of a reply: a three-digit code, then any text. */
  datatype Reply = Reply(code: ThreeDigits, text: seq<byte>)
  {
    ghost predicate Ok() {
      NoLineEnd(text + [13])
    }

    function Line(): seq<byte> {
      [48 + code / 100, 48 + code / 10 % 10, 48 + code % 10] + text + [13, 10]
    }
  }

  function Lines(replies: seq<Reply>): seq<byte> {
    if replies == [] then [] else Lines(replies[..|replies| - 1]) + replies[|replies| - 1].Line()
  }

  function CodesIn(replies: seq<Reply>): (codes: seq<nat>)
    ensures |codes| == |replies|
  {
    seq(|replies|, i requires 0 <= i < |replies| => replies[i].code)
  }

  lemma ReplyScanned(buf: seq<byte>, r: Reply)
    requires AtLineStart(buf) && r.Ok()
    ensures AtLineStart(buf + r.Line()) && Codes(buf + r.Line()) == Codes(buf) + [r.code]
  {
    hide Atoi, Advance, ScanAll;
    var digits: seq<byte> := [48 + r.code / 100, 48 + r.code / 10 % 10, 48 + r.code % 10];
    var w := digits + r.text + [13];
    forall k | 0 < k < |w| ensures !(w[k - 1] == 13 && w[k] == 10) {
      if k >= 4 { assert w[k - 1] == (r.text + [13])[k - 4] && w[k] == (r.text + [13])[k - 3]; }
    }
    assert w[..3] == digits;
    AtoiThreeDigits(r.code);
    LineEnds(buf, w);
    assert buf + r.Line() == buf + w + [10];
  }

  /** Replies with any text are read as their codes, and an unfinished line adds nothing. */
  lemma {:induction false} CodesOfReplies(replies: seq<Reply>, rest: seq<byte>)
    requires (forall r :: r in replies ==> r.Ok()) && NoLineEnd(rest)
    ensures AtLineStart(Lines(replies)) && Codes(Lines(replies) + rest) == [0] + CodesIn(replies)
    decreases |replies|
  {
    hide Advance, ScanAll;
    NothingScanned();
    if replies != [] {
      var shorter, last := replies[..|replies| - 1], replies[|replies| - 1];
      CodesOfReplies(shorter, []);
      assert Lines(shorter) + [] == Lines(shorter);
      ReplyScanned(Lines(shorter), last);
      assert CodesIn(replies) == CodesIn(shorter) + [last.code];
    }
    Fills(Lines(replies), rest);
  }

  /** Three bytes that read as no code: the digits 000, or a first byte that is neither digit
      nor sign nor white space. */
  predicate NoCode(w: seq<byte>)
    requires |w| >= 3
  {
    w[..3] == [48, 48, 48] || !(48 <= w[0] <= 57 || w[0] in {43, 45} || w[0] == 32 || 9 <= w[0] <= 13)
  }

  lemma NoCodeIsZero(w: seq<byte>)
    requires |w| >= 3 && NoCode(w)
    ensures Atoi(w[..3]) == 0
  {
    if w[..3] == [48, 48, 48] { AtoiDigits(0, 0, 0); }
  }

  /** A line without a code ends the sequence, whatever follows. */
  lemma NoCodeStops(replies: seq<Reply>, line: seq<byte>, rest: seq<byte>)
    requires forall r :: r in replies ==> r.Ok()
    requires |line| >= 3 && NoCode(line) && NoLineEnd(line + [13])
    ensures Codes(Lines(replies) + line + [13, 10] + rest) == [0] + CodesIn(replies)
  {
    hide Atoi, NoCode, Advance, ScanAll;
    CodesOfReplies(replies, []);
    var buf, w := Lines(replies), line + [13];
    assert buf + [] == buf;
    NoCodeIsZero(line);
    assert w[..3] == line[..3];
    LineEnds(buf, w);
    var all := Lines(replies) + line + [13, 10] + rest;
    assert all[..|buf + w| + 1] == buf + w + [10];
    StoppedStaysStopped(all, |buf + w| + 1);
  }

  /** The line buffer is not cleared: behind a reply 221, an empty line reads as code 1. */
  lemma EmptyLineReadsOn()
    ensures Codes([50, 50, 49, 13, 10, 13, 10]) == [0, 221, 1]
  {
    hide Atoi, Advance, ScanAll;
    var w: seq<byte> := [50, 50, 49, 13];
    NothingScanned();
    AtoiDigits(2, 2, 1);
    assert w[..3] == [50, 50, 49];
    LineEnds([], w);
    var line := [] + w + [10];
    ScanSnoc(line, 13);
    ScanSnoc(line + [13], 10);
    EmptyLine(ScanAll(line));
    assert line + [13] + [10] == [50, 50, 49, 13, 10, 13, 10];
  }

  lemma NothingScanned()
    ensures AtLineStart([]) && Codes([]) == [0]
  {
  }

  lemma EmptyLine(s: Scan)
    requires s.Ok() && !s.stopped && s.mem_count == 0 && s.mem[2] == 49
    ensures Advance(Advance(s, 13), 10).codes == s.codes + [1]
  {
    hide Atoi;
    assert s.mem[0 := 13][1 := 10][..3] == [13, 10, 49];
    ReadsStaleDigit();
  }

  lemma ReadsStaleDigit()
    ensures Atoi([13, 10, 49]) == 1
  {
    assert [13, 10, 49][1..] == [10, 49] && [10, 49][1..] == [49] && [49][1..] == [];
    assert SkipWhile(IsSpace, [10, 49]) == SkipWhile(IsSpace, [49]) == [49];
    assert SkipWhile(IsSpace, [13, 10, 49]) == SkipWhile(IsSpace, [10, 49]);
    assert Decimal([49], 0) == Decimal([49][1..], 1) == 1;
  }

  // ----- replies of a bare code -----

  /** A three-digit code as a line of its own. */
  function StatusLine(code: nat): seq<byte>
    requires 100 <= code <= 999
  {
    [48 + code / 100, 48 + code / 10 % 10, 48 + code % 10, CR, LF]
  }

  function StatusLines(codes: seq<nat>): seq<byte>
    requires forall i :: 0 <= i < |codes| ==> 100 <= codes[i] <= 999
  {
    if codes == [] then [] else StatusLines(codes[..|codes| - 1]) + StatusLine(codes[|codes| - 1])
  }

  /** The extractor reads a response of status lines back as its codes, after state 0. */
  lemma {:induction false} CodesOfStatusLines(codes: seq<nat>)
    requires forall i :: 0 <= i < |codes| ==> 100 <= codes[i] <= 999
    ensures Codes(StatusLines(codes)) == [0] + codes && AtLineStart(StatusLines(codes))
  {
    hide Advance, ScanAll;
    NothingScanned();
    if codes != [] {
      var shorter, code := codes[..|codes| - 1], codes[|codes| - 1];
      CodesOfStatusLines(shorter);
      ReplyScanned(StatusLines(shorter), Reply(code, []));
      assert Reply(code, []).Line() == StatusLine(code);
      assert codes == shorter + [code];
    }
  }
}
