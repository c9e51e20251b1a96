/** What dictionary lines mean, in the terms of someone who writes them by hand. */
module DictLines {
  import opened Bytes
  import opened CLibrary
  import opened Tokens

  /** One byte of a token as it can be written between quotes: itself, or a quote or backslash
      behind a backslash, or two hexadecimal digits behind `\x`. */
  datatype Piece = Itself(b: byte) | Quoted(b: byte) | Hex(high: byte, low: byte)
  {
    predicate Ok() {
      match this
      case Itself(b) => 32 <= b <= 127 && b != 92
      case Quoted(b) => b == 92 || b == 34
      case Hex(high, low) => Digit(high) < 16 && Digit(low) < 16
    }

    function Text(): seq<byte> {
      match this
      case Itself(b) => [b]
      case Quoted(b) => [92, b]
      case Hex(high, low) => [92, 120, high, low]
    }

    function Value(): byte {
      match this
      case Itself(b) => b
      case Quoted(b) => b
      case Hex(high, low) => (16 * (Digit(high) % 16) + Digit(low) % 16)
    }
  }

  /** The value of a hexadecimal digit in either case, 16 for other bytes. */
  function Digit(b: byte): nat {
    if 48 <= b <= 57 then b - 48
    else if 97 <= b <= 102 then b - 97 + 10
    else if 65 <= b <= 70 then b - 65 + 10
    else 16
  }

  function TextOf(ps: seq<Piece>): seq<byte> {
    if ps == [] then [] else ps[0].Text() + TextOf(ps[1..])
  }

  function ValuesOf(ps: seq<Piece>): seq<byte> {
    if ps == [] then [] else [ps[0].Value()] + ValuesOf(ps[1..])
  }

  lemma OnePiece(p: Piece, rest: seq<byte>)
    requires p.Ok()
    ensures Unescape(p.Text() + rest) == Prepend([p.Value()], Unescape(rest))
  {
    var s := p.Text() + rest;
    assert s[|p.Text()|..] == rest;
    match p
    case Itself(b) => assert s[1..] == rest;
    case Quoted(b) => assert s[2..] == rest;
    case Hex(high, low) => HexPiece(high, low, rest);
  }

  lemma HexPiece(high: byte, low: byte, rest: seq<byte>)
    requires Hex(high, low).Ok()
    ensures Unescape([92, 120, high, low] + rest) == Prepend([Hex(high, low).Value()], Unescape(rest))
  {
    var s := [92, 120, high, low] + rest;
    assert s[4..] == rest && IsXdigit(high) && IsXdigit(low);
    assert HexValue(high) == Digit(high) && HexValue(low) == Digit(low);
  }

  /** Whatever way its bytes are written, a token is read back. */
  lemma {:induction false} PiecesAreRead(ps: seq<Piece>)
    requires forall i :: 0 <= i < |ps| ==> ps[i].Ok()
    ensures Unescape(TextOf(ps)) == Plain(ValuesOf(ps))
    decreases |ps|
  {
    if ps != [] {
      PiecesAreRead(ps[1..]);
      OnePiece(ps[0], TextOf(ps[1..]));
    }
  }

  /** And there is nothing else that can be read. */
  lemma {:induction false} OnlyPiecesAreRead(s: seq<byte>) returns (ps: seq<Piece>)
    requires Unescape(s).Plain?
    ensures TextOf(ps) == s && forall i :: 0 <= i < |ps| ==> ps[i].Ok()
    decreases |s|
  {
    hide Unescape;
    if s == [] {
      ps := [];
    } else {
      var p, rest := FirstPiece(s);
      var more := OnlyPiecesAreRead(rest);
      ps := [p] + more;
      assert ps[1..] == more;
    }
  }

  lemma FirstPiece(s: seq<byte>) returns (p: Piece, rest: seq<byte>)
    requires Unescape(s).Plain? && s != []
    ensures p.Ok() && s == p.Text() + rest && |rest| < |s| && Unescape(rest).Plain?
  {
    p := if s[0] != BACKSLASH then Itself(s[0])
         else if |s| > 1 && (s[1] == BACKSLASH || s[1] == QUOTE) then Quoted(s[1])
         else Hex(s[2], s[3]);
    rest := s[|p.Text()|..];
  }

  ghost predicate Spaces(s: seq<byte>) {
    forall i :: 0 <= i < |s| ==> s[i] == 32 || 9 <= s[i] <= 13
  }

  ghost predicate Digits(s: seq<byte>) {
    forall i :: 0 <= i < |s| ==> 48 <= s[i] <= 57
  }

  /** Letters, digits and underscores. */
  ghost predicate Name(s: seq<byte>) {
    forall i :: 0 <= i < |s| ==> 48 <= s[i] <= 57 || 65 <= s[i] <= 90 || 97 <= s[i] <= 122 || s[i] == 95
  }

  /** White space and equals signs. */
  ghost predicate Assigns(s: seq<byte>) {
    forall i :: 0 <= i < |s| ==> s[i] == 61 || s[i] == 32 || 9 <= s[i] <= 13
  }

  /** `name@level = "text"` is a keyword of at most 128 bytes, skipped above its level. */
  lemma AssignmentIsRead(space: seq<byte>, name: seq<byte>, level: seq<byte>, equals: seq<byte>, ps: seq<Piece>,
                         tail: seq<byte>, dict_level: nat)
    requires Spaces(space) && Name(name) && Digits(level) && Assigns(equals) && Spaces(tail)
    requires ps != [] && forall i :: 0 <= i < |ps| ==> ps[i].Ok()
    requires Decimal(level, 0) < 0x8000_0000
    ensures var at := if level == [] then [] else [64] + level;
            var line := space + (name + (at + (equals + ([34] + TextOf(ps)))) + [34] + tail);
            Meaning(line, dict_level) ==
            if level != [] && Decimal(level, 0) > dict_level then Skipped
            else if |ps| > 128 then Fatal(TooBig) else Keyword(ValuesOf(ps))
  {
    hide Unescape, Decimal, Meaning;
    var e := Entry(space, name, level, equals, TextOf(ps), tail);
    PiecesAreRead(ps);
    AsManyValues(ps);
    EntryParses(e, dict_level);
  }

  lemma {:induction false} AsManyValues(ps: seq<Piece>)
    ensures |ValuesOf(ps)| == |ps| && (ps != [] ==> TextOf(ps) != [])
    decreases |ps|
  {
    if ps != [] { AsManyValues(ps[1..]); }
  }

  /** Blank lines and comments mean nothing. */
  lemma CommentsAreSkipped(space: seq<byte>, rest: seq<byte>, dict_level: nat)
    requires Spaces(space)
    ensures Meaning(space, dict_level) == Skipped
    ensures Meaning(space + ([35] + rest), dict_level) == Skipped
  {
    hide SkipWhile, TrimRight;
    OnlySpaces(space);
    Passed(space, [35] + rest);
    TrimKeepsFirst([35] + rest);
  }

  /** What does not end with a quote is no entry. */
  lemma QuoteIsMissing(space: seq<byte>, body: seq<byte>, tail: seq<byte>, dict_level: nat)
    requires Spaces(space) && Spaces(tail) && body != []
    requires body[0] != 35 && !Spaces([body[0]]) && !Spaces([body[|body| - 1]]) && body[|body| - 1] != 34
    ensures Meaning(space + (body + tail), dict_level) == Fatal(MalformedValue)
  {
    hide SkipWhile, TrimRight;
    assert [body[0]][0] == body[0] && [body[|body| - 1]][0] == body[|body| - 1];
    Passed(space, body + tail);
    TrimTail(body, tail);
  }

  /** Nor what has anything but a quote behind its name. */
  lemma OpeningQuoteIsMissing(name: seq<byte>, b: byte, rest: seq<byte>, dict_level: nat)
    requires Name(name) && !Name([b]) && !Assigns([b]) && b != 34 && b != 64 && (name == [] ==> b != 35)
    ensures Meaning(name + ([b] + rest + [34]), dict_level) == Fatal(MalformedKeyword)
  {
    hide SkipWhile, TrimRight;
    assert [b][0] == b;
    var after := [b] + rest;
    var line := name + ([b] + rest + [34]);
    assert line == (name + after) + [34] && (name + after) + [34] + [] == line;
    assert line[0] == if name == [] then b else name[0];
    Stops(IsSpace, line);
    TrimTail(name + after + [34], []);
    assert line[..|line| - 1] == name + after;
    SkipAll(IsLabel, name, after);
    Stops(IsLabel, after);
    Stops(IsSeparator, after);
  }

  lemma {:induction false} OnlySpaces(space: seq<byte>)
    requires Spaces(space)
    ensures SkipWhile(IsSpace, space) == [] && TrimRight([]) == []
    decreases |space|
  {
    if space != [] { OnlySpaces(space[1..]); }
  }

  lemma {:induction false} TrimKeepsFirst(s: seq<byte>)
    requires s != [] && !IsSpace(s[0])
    ensures TrimRight(s) != [] && TrimRight(s)[0] == s[0]
    decreases |s|
  {
    if IsSpace(s[|s| - 1]) { TrimKeepsFirst(s[..|s| - 1]); }
  }

  /** What is printed: 32 to 126 as they are but for quote and backslash, the rest in
      lower-case hexadecimal; nothing for tokens shorter than 3 or longer than 32. */
  lemma PrintedBytes(b: byte, c: Compared)
    ensures EscapeOne(b) ==
            if 32 <= b <= 126 && b != 34 && b != 92 then [b]
            else [92, 120, if b / 16 < 10 then b / 16 + 48 else b / 16 - 10 + 97,
                  if b % 16 < 10 then b % 16 + 48 else b % 16 - 10 + 97]
    ensures Dumped(c) == if |c.ptr| < 3 || |c.ptr| > 32 then [] else [34] + Escape(c.Printed()) + [34, 10]
  {
  }

  /** fgets with room for `room` bytes: up to and with the first newline. */
  lemma {:induction false} LineMeans(file: seq<byte>, pos: nat, room: nat)
    requires pos <= |file|
    ensures var e := LineEnd(file, pos, room);
            && pos <= e <= |file| && e <= pos + room && (forall i :: pos <= i < e - 1 ==> file[i] != 10)
            && (e == |file| || e == pos + room || (e > pos && file[e - 1] == 10))
    decreases room
  {
    if room > 0 && pos < |file| && file[pos] != 10 { LineMeans(file, pos + 1, room - 1); }
  }
}
