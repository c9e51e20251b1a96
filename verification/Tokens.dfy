/** Dictionary tokens: the printer of libtokencap and the dictionary parser of afl-fuzz. */
module Tokens {
  import opened Bytes
  import opened CLibrary

  const MIN_AUTO_EXTRA := 3
  const MAX_AUTO_EXTRA := 32
  const MAX_DICT_FILE := 128
  const MAX_LINE := 8192

  const NEWLINE: byte := 10
  const QUOTE: byte := 34
  const HASH: byte := 35
  const EQUALS: byte := 61
  const AT_SIGN: byte := 64
  const BACKSLASH: byte := 92
  const UNDERSCORE: byte := 95
  const LOWER_X: byte := 120

  // ----- the printer -----

  function HexDigit(d: nat): (b: byte)
    requires d < 16
    ensures IsXdigit(b) && HexValue(b) == d
  {
    if d < 10 then 48 + d else 87 + d
  }

  predicate NeedsEscape(b: byte) {
    b < 32 || b >= 127 || b == QUOTE || b == BACKSLASH
  }

  function EscapeOne(b: byte): seq<byte> {
    if NeedsEscape(b) then [BACKSLASH, LOWER_X, HexDigit(b / 16), HexDigit(b % 16)] else [b]
  }

  function Escape(t: seq<byte>): seq<byte> {
    if t == [] then [] else EscapeOne(t[0]) + Escape(t[1..])
  }

  lemma {:induction false} EscapeSnoc(t: seq<byte>, b: byte)
    ensures Escape(t + [b]) == Escape(t) + EscapeOne(b)
  {
    hide EscapeOne;
    if t == [] {
      assert (t + [b])[1..] == [] && Escape([]) == [];
    } else {
      EscapeSnoc(t[1..], b);
      assert (t + [b])[1..] == t[1..] + [b];
    }
  }

  /** A C string up to its terminator. */
  function UntilNul(s: seq<byte>): (t: seq<byte>)
    ensures 0 !in t && t <= s
    ensures |t| < |s| ==> s[|t|] == 0
  {
    if s == [] || s[0] == 0 then [] else [s[0]] + UntilNul(s[1..])
  }

  /** A buffer the target compared. */
  datatype Compared = Compared(ptr: seq<byte>, is_text: bool)
  {
    predicate InRange() {
      MIN_AUTO_EXTRA <= |ptr| <= MAX_AUTO_EXTRA
    }

    /** The bytes that get printed: a text stops at its NUL. */
    function Printed(): seq<byte> {
      if is_text then UntilNul(ptr) else ptr
    }
  }

  function TokenLine(t: seq<byte>): seq<byte> {
    [QUOTE] + Escape(t) + [QUOTE, NEWLINE]
  }

  function Dumped(c: Compared): seq<byte> {
    if c.InRange() then TokenLine(c.Printed()) else []
  }

  /** The switch inside __tokencap_dump; sprintf adds a terminator. */
  method Emit(buf: array<byte>, pos: nat, b: byte) returns (newPos: nat)
    requires pos + 4 < buf.Length
    modifies buf
    ensures pos < newPos <= pos + 4
    ensures buf[..newPos] == old(buf[..pos]) + EscapeOne(b)
  {
    if NeedsEscape(b) {
      buf[pos], buf[pos + 1], buf[pos + 2], buf[pos + 3], buf[pos + 4] :=
        BACKSLASH, LOWER_X, HexDigit(b / 16), HexDigit(b % 16), 0;
      newPos := pos + 4;
    } else {
      buf[pos] := b;
      newPos := pos + 1;
    }
  }

  /** __tokencap_dump: what is appended to the output file.  The buffer it is put together in
      has room for every token, terminator included. */
  method DumpToken(ptr: seq<byte>, is_text: bool) returns (out: seq<byte>)
    ensures out == Dumped(Compared(ptr, is_text))
  {
    if |ptr| < MIN_AUTO_EXTRA || |ptr| > MAX_AUTO_EXTRA {
      return [];
    }
    hide Escape, EscapeOne, UntilNul, Compared.Printed;
    EscapeEmpty();
    var buf := new byte[MAX_AUTO_EXTRA * 4 + 1];
    var i, pos := 0, 0;
    while i < |ptr| && !(is_text && ptr[i] == 0)
      invariant 0 <= i <= |ptr| && 0 <= pos <= 4 * i
      invariant is_text ==> 0 !in ptr[..i]
      invariant buf[..pos] == Escape(ptr[..i])
    {
      EscapeSnoc(ptr[..i], ptr[i]);
      assert ptr[..i + 1] == ptr[..i] + [ptr[i]];
      pos := Emit(buf, pos, ptr[i]);
      i := i + 1;
    }
    buf[pos] := 0;
    PrintedIs(ptr, is_text, i);
    EscapedHasNoNul(ptr[..i]);
    UntilNulIs(buf[..], pos);
    assert buf[..][..pos] == buf[..pos];
    return [QUOTE] + UntilNul(buf[..]) + [QUOTE, NEWLINE];
  }

  lemma PrintedIs(ptr: seq<byte>, is_text: bool, i: nat)
    requires i <= |ptr| && (is_text ==> 0 !in ptr[..i])
    requires i < |ptr| ==> is_text && ptr[i] == 0
    ensures Compared(ptr, is_text).Printed() == ptr[..i]
  {
    assert ptr[..|ptr|] == ptr;
    if is_text { UntilNulIs(ptr, i); }
  }

  lemma EscapeEmpty()
    ensures Escape([]) == []
  {
  }

  lemma {:induction false} UntilNulIs(s: seq<byte>, n: nat)
    requires n <= |s| && 0 !in s[..n] && (n < |s| ==> s[n] == 0)
    ensures UntilNul(s) == s[..n]
    decreases n
  {
    if n > 0 {
      assert s[0] == s[..n][0] && s[1..][..n - 1] == s[..n][1..];
      UntilNulIs(s[1..], n - 1);
    }
  }

  lemma {:induction false} EscapedHasNoNul(t: seq<byte>)
    ensures forall b :: b in Escape(t) ==> 32 <= b < 127
  {
    if t != [] { EscapedHasNoNul(t[1..]); }
  }

  // ----- character classes of the C locale -----

  predicate IsLabel(b: byte) {
    IsDigit(b) || 65 <= b <= 90 || 97 <= b <= 122 || b == UNDERSCORE
  }

  predicate IsSeparator(b: byte) {
    IsSpace(b) || b == EQUALS
  }

  predicate IsXdigit(b: byte) {
    IsDigit(b) || 65 <= b <= 70 || 97 <= b <= 102
  }

  /** Position of the lower-cased digit in "0123456789abcdef". */
  function HexValue(b: byte): (d: nat)
    requires IsXdigit(b)
    ensures d < 16
  {
    if b <= 57 then b - 48 else if b <= 70 then b - 55 else b - 87
  }

  // ----- the parser -----

  datatype Failure = MalformedValue | MalformedKeyword | EmptyKeyword | NonPrintable | InvalidEscaping | TooBig

  datatype Unescaped = Plain(data: seq<byte>) | Broken(failure: Failure)

  function Prepend(d: seq<byte>, u: Unescaped): Unescaped {
    if u.Plain? then Plain(d + u.data) else u
  }

  predicate StartsHexEscape(s: seq<byte>) {
    |s| >= 4 && s[1] == LOWER_X && IsXdigit(s[2]) && IsXdigit(s[3])
  }

  function Unescape(s: seq<byte>): Unescaped {
    if s == [] then Plain([])
    else if s[0] < 32 || s[0] >= 128 then Broken(NonPrintable)
    else if s[0] != BACKSLASH then Prepend([s[0]], Unescape(s[1..]))
    else if |s| > 1 && (s[1] == BACKSLASH || s[1] == QUOTE) then Prepend([s[1]], Unescape(s[2..]))
    else if !StartsHexEscape(s) then Broken(InvalidEscaping)
    else Prepend([HexValue(s[2]) * 16 + HexValue(s[3])], Unescape(s[4..]))
  }

  datatype Line = Skipped | Keyword(data: seq<byte>) | Fatal(failure: Failure)

  function TrimRight(s: seq<byte>): seq<byte> {
    if s != [] && IsSpace(s[|s| - 1]) then TrimRight(s[..|s| - 1]) else s
  }

  /** What is between the quotes, the closing one cut off. */
  function Quoted(s: seq<byte>): Line {
    if s == [] || s[0] != QUOTE then Fatal(MalformedKeyword)
    else if |s| == 1 then Fatal(EmptyKeyword)
    else match Unescape(s[1..])
         case Broken(failure) => Fatal(failure)
         case Plain(data) => if |data| > MAX_DICT_FILE then Fatal(TooBig) else Keyword(data)
  }

  function AfterLabel(s: seq<byte>, dict_level: nat): Line {
    if s == [] || s[0] != AT_SIGN then Quoted(SkipWhile(IsSeparator, s))
    else if Atoi(s[1..]) > dict_level then Skipped
    else Quoted(SkipWhile(IsSeparator, SkipWhile(IsDigit, s[1..])))
  }

  /** The meaning of one line, a C string. */
  function Meaning(line: seq<byte>, dict_level: nat): Line {
    var s := TrimRight(SkipWhile(IsSpace, line));
    if s == [] || s[0] == HASH then Skipped
    else if s[|s| - 1] != QUOTE then Fatal(MalformedValue)
    else AfterLabel(SkipWhile(IsLabel, s[..|s| - 1]), dict_level)
  }

  /** A `while (p(*lptr)) lptr++` loop. */
  method Advance(s: seq<byte>, l: nat, p: byte -> bool) returns (lptr: nat)
    requires l <= |s|
    ensures l <= lptr <= |s| && s[lptr..] == SkipWhile(p, s[l..])
  {
    lptr := l;
    while lptr < |s| && p(s[lptr])
      invariant l <= lptr <= |s|
      invariant SkipWhile(p, s[l..]) == SkipWhile(p, s[lptr..])
    {
      assert s[lptr..][1..] == s[lptr + 1..];
      lptr := lptr + 1;
    }
  }

  method Retreat(s: seq<byte>, lptr: nat) returns (rptr: nat)
    requires lptr <= |s|
    ensures lptr <= rptr <= |s| && s[lptr..rptr] == TrimRight(s[lptr..])
  {
    rptr := |s|;
    assert s[lptr..rptr] == s[lptr..];
    while rptr > lptr && IsSpace(s[rptr - 1])
      invariant lptr <= rptr <= |s|
      invariant TrimRight(s[lptr..rptr]) == TrimRight(s[lptr..])
    {
      ghost var t := s[lptr..rptr];
      assert t[..|t| - 1] == s[lptr..rptr - 1] && t[|t| - 1] == s[rptr - 1];
      rptr := rptr - 1;
    }
  }

  lemma PrependTwice(a: seq<byte>, b: seq<byte>, u: Unescaped)
    ensures Prepend(a, Prepend(b, u)) == Prepend(a + b, u)
  {
    if u.Plain? { assert a + (b + u.data) == a + b + u.data; }
  }

  /** The copying loop of load_extras_file. */
  method CopyKeyword(s: seq<byte>, l: nat) returns (u: Unescaped)
    requires l <= |s|
    ensures u == Unescape(s[l..])
  {
    hide Prepend;
    var lptr := l;
    var data: seq<byte> := [];
    PrependNothing(Unescape(s[l..]));
    while lptr < |s|
      invariant l <= lptr <= |s|
      invariant Prepend(data, Unescape(s[lptr..])) == Unescape(s[l..])
    {
      ghost var rest := s[lptr..];
      if s[lptr] < 32 || s[lptr] >= 128 {
        PrependBroken(data, NonPrintable);
        return Broken(NonPrintable);
      }
      if s[lptr] == BACKSLASH {
        lptr := lptr + 1;
        if lptr < |s| && (s[lptr] == BACKSLASH || s[lptr] == QUOTE) {
          PrependTwice(data, [s[lptr]], Unescape(s[lptr + 1..]));
          assert rest[2..] == s[lptr + 1..];
          data := data + [s[lptr]];
          lptr := lptr + 1;
        } else {
          if lptr + 3 > |s| || s[lptr] != LOWER_X || !IsXdigit(s[lptr + 1]) || !IsXdigit(s[lptr + 2]) {
            PrependBroken(data, InvalidEscaping);
            return Broken(InvalidEscaping);
          }
          var b: byte := HexValue(s[lptr + 1]) * 16 + HexValue(s[lptr + 2]);
          PrependTwice(data, [b], Unescape(s[lptr + 3..]));
          assert rest[4..] == s[lptr + 3..];
          data := data + [b];
          lptr := lptr + 3;
        }
      } else {
        PrependTwice(data, [s[lptr]], Unescape(s[lptr + 1..]));
        assert rest[1..] == s[lptr + 1..];
        data := data + [s[lptr]];
        lptr := lptr + 1;
      }
    }
    PrependAll(data);
    return Plain(data);
  }

  lemma PrependNothing(u: Unescaped)
    ensures Prepend([], u) == u
  {
  }

  lemma PrependBroken(d: seq<byte>, f: Failure)
    ensures Prepend(d, Broken(f)) == Broken(f)
  {
  }

  lemma PrependAll(d: seq<byte>)
    ensures Prepend(d, Plain([])) == Plain(d)
  {
  }

  /** One round of load_extras_file's loop. */
  method ParseLine(line: seq<byte>, dict_level: nat) returns (r: Line)
    ensures r == Meaning(line, dict_level)
  {
    hide AfterLabel, SkipWhile, TrimRight, IsSpace, IsLabel;
    var lptr := Advance(line, 0, IsSpace);
    assert line[0..] == line;
    var rptr := Retreat(line, lptr);
    var s := line[..rptr];
    assert s[lptr..] == line[lptr..rptr];
    if lptr == |s| || s[lptr] == HASH {
      return Skipped;
    }
    rptr := rptr - 1;
    if s[rptr] != QUOTE {
      return Fatal(MalformedValue);
    }
    assert s[lptr..][..|s[lptr..]| - 1] == s[..rptr][lptr..];
    s := s[..rptr];
    r := ParseAfterTrim(s, lptr, dict_level);
  }

  method ParseAfterTrim(s: seq<byte>, l: nat, dict_level: nat) returns (r: Line)
    requires l <= |s|
    ensures r == AfterLabel(SkipWhile(IsLabel, s[l..]), dict_level)
  {
    hide Unescape, Atoi, SkipWhile, IsLabel, IsDigit, IsSeparator;
    var lptr := Advance(s, l, IsLabel);
    if lptr < |s| && s[lptr] == AT_SIGN {
      assert s[lptr..][1..] == s[lptr + 1..];
      lptr := lptr + 1;
      if Atoi(s[lptr..]) > dict_level {
        return Skipped;
      }
      lptr := Advance(s, lptr, IsDigit);
    }
    lptr := Advance(s, lptr, IsSeparator);
    if lptr == |s| || s[lptr] != QUOTE {
      return Fatal(MalformedKeyword);
    }
    assert s[lptr..][1..] == s[lptr + 1..];
    lptr := lptr + 1;
    if lptr == |s| {
      return Fatal(EmptyKeyword);
    }
    var u := CopyKeyword(s, lptr);
    match u
    case Broken(failure) =>
      return Fatal(failure);
    case Plain(data) =>
      return if |data| > MAX_DICT_FILE then Fatal(TooBig) else Keyword(data);
  }

  // ----- printed tokens parse back -----

  lemma {:induction false} UnescapeOne(b: byte, rest: seq<byte>)
    ensures Unescape(EscapeOne(b) + rest) == Prepend([b], Unescape(rest))
  {
    var s := EscapeOne(b) + rest;
    if NeedsEscape(b) {
      assert s[4..] == rest;
      assert HexValue(s[2]) * 16 + HexValue(s[3]) == b;
    } else {
      assert s[1..] == rest;
    }
  }

  /** For every token, of any length: unescaping undoes escaping. */
  lemma {:induction false} UnescapeEscape(t: seq<byte>)
    ensures Unescape(Escape(t)) == Plain(t)
  {
    hide EscapeOne;
    if t != [] {
      UnescapeEscape(t[1..]);
      UnescapeOne(t[0], Escape(t[1..]));
    }
  }

  lemma {:induction false} TrimTail(s: seq<byte>, tail: seq<byte>)
    requires All(IsSpace, tail) && s != [] && !IsSpace(s[|s| - 1])
    ensures TrimRight(s + tail) == s
    decreases |tail|
  {
    if tail == [] {
      assert s + tail == s;
    } else {
      TrimTail(s, tail[..|tail| - 1]);
      assert (s + tail)[..|s + tail| - 1] == s + tail[..|tail| - 1];
    }
  }

  /** label@level="text": spaces, a label, a level, separators, any text in quotes. */
  datatype Entry = Entry(space: seq<byte>, name: seq<byte>, level: seq<byte>, separators: seq<byte>,
                         text: seq<byte>, tail: seq<byte>)
  {
    ghost predicate Valid() {
      && All(IsSpace, space) && All(IsLabel, name) && All(IsDigit, level) && All(IsSeparator, separators)
      && All(IsSpace, tail) && Decimal(level, 0) < 0x8000_0000
    }

    function AtLevel(): seq<byte> {
      if level == [] then [] else [AT_SIGN] + level
    }

    function Opened(): seq<byte> {
      [QUOTE] + text
    }

    function AfterName(): seq<byte> {
      AtLevel() + (separators + Opened())
    }

    function Text(): seq<byte> {
      space + (name + AfterName() + [QUOTE] + tail)
    }

    /** What the parser is meant to make of it. */
    function Denotes(dict_level: nat): Line {
      if level != [] && Decimal(level, 0) > dict_level then Skipped
      else if text == [] then Fatal(EmptyKeyword)
      else match Unescape(text)
           case Broken(failure) => Fatal(failure)
           case Plain(data) => if |data| > 128 then Fatal(TooBig) else Keyword(data)
    }
  }

  lemma {:induction false} EscapeEmptyIff(t: seq<byte>)
    ensures Escape(t) == [] <==> t == []
  {
  }

  lemma LevelOf(level: seq<byte>, rest: seq<byte>)
    requires All(IsDigit, level) && level != [] && Decimal(level, 0) < 0x8000_0000
    requires rest != [] && !IsDigit(rest[0])
    ensures Atoi(level + rest) == Decimal(level, 0)
  {
    DigitsOnly(level, rest, 0);
  }

  lemma LabelledToken(e: Entry, dict_level: nat)
    requires e.Valid()
    ensures AfterLabel(e.AfterName(), dict_level) == e.Denotes(dict_level)
  {
    hide Atoi, Decimal, Unescape, SkipWhile;
    var sep := e.separators + e.Opened();
    SkipAll(IsSeparator, e.separators, e.Opened());
    Stops(IsSeparator, e.Opened());
    assert e.Opened()[1..] == e.text;
    assert sep[0] == QUOTE || IsSeparator(sep[0]);
    if e.level == [] {
      assert e.AfterName() == sep;
    } else {
      assert e.AfterName()[1..] == e.level + sep;
      LevelOf(e.level, sep);
      SkipAll(IsDigit, e.level, sep);
      Stops(IsDigit, sep);
    }
  }

  lemma {:induction false} SkipThenStop(p: byte -> bool, a: seq<byte>, b: seq<byte>)
    requires b != [] && !p(b[0])
    ensures SkipWhile(p, a + b) == SkipWhile(p, a) + b
  {
    if a == [] {
      assert a + b == b;
    } else {
      SkipThenStop(p, a[1..], b);
      assert (a + b)[1..] == a[1..] + b;
    }
  }

  lemma {:induction false} SkipKeeps(p: byte -> bool, q: byte -> bool, a: seq<byte>)
    requires All(q, a)
    ensures All(q, SkipWhile(p, a))
    ensures SkipWhile(p, a) != [] ==> !p(SkipWhile(p, a)[0])
  {
    if a != [] { SkipKeeps(p, q, a[1..]); }
  }

  /** Trimming on the left takes the leading spaces, and spaces among the separators of an
      entry that has neither label nor level. */
  lemma TrimmedLeft(e: Entry) returns (f: Entry)
    requires e.Valid()
    ensures f == e.(space := [], separators := f.separators) && f.Valid()
    ensures SkipWhile(IsSpace, e.Text()) == f.Text() && !IsSpace(f.Text()[0])
  {
    hide Escape, Decimal, SkipWhile;
    f := e.(space := []);
    SkipAll(IsSpace, e.space, f.Text());
    assert e.Text() == e.space + f.Text();
    if e.name == [] && e.level == [] {
      var q := e.Opened() + [QUOTE] + e.tail;
      assert f.Text() == e.separators + q;
      SkipThenStop(IsSpace, e.separators, q);
      SkipKeeps(IsSpace, IsSeparator, e.separators);
      f := f.(separators := SkipWhile(IsSpace, e.separators));
      assert f.Text() == f.separators + q;
    } else {
      assert f.Text()[0] == if e.name != [] then e.name[0] else AT_SIGN;
      Stops(IsSpace, f.Text());
    }
  }

  lemma FirstBytes(e: Entry)
    requires e.Valid() && e.space == []
    ensures e.AfterName() != [] && e.Text()[0] != HASH && !IsLabel(e.AfterName()[0])
  {
    hide Escape, Decimal;
    assert e.AfterName()[0] ==
           if e.level != [] then AT_SIGN else if e.separators != [] then e.separators[0] else QUOTE;
    assert e.Text()[0] == if e.name != [] then e.name[0] else e.AfterName()[0];
  }

  /** Every line made of a label, a level, separators and quotes denotes what is in the quotes,
      unless its level is above the one asked for. */
  lemma EntryParses(e: Entry, dict_level: nat)
    requires e.Valid()
    ensures Meaning(e.Text(), dict_level) == e.Denotes(dict_level)
  {
    hide Decimal, SkipWhile, TrimRight, AfterLabel, Entry.AfterName, Entry.Denotes;
    var f := TrimmedLeft(e);
    FirstBytes(f);
    var body := f.name + f.AfterName();
    assert f.Text() == body + [QUOTE] + f.tail;
    TrimTail(body + [QUOTE], f.tail);
    assert (body + [QUOTE])[..|body|] == body;
    SkipAll(IsLabel, f.name, f.AfterName());
    Stops(IsLabel, f.AfterName());
    LabelledToken(f, dict_level);
    assert f.Denotes(dict_level) == e.Denotes(dict_level) by { SameMeaning(e, f, dict_level); }
  }

  lemma SameMeaning(e: Entry, f: Entry, dict_level: nat)
    requires f == e.(space := [], separators := f.separators)
    ensures f.Denotes(dict_level) == e.Denotes(dict_level)
  {
  }

  /** A line written by __tokencap_dump is read as the token it was written for. */
  lemma TokenLineParses(t: seq<byte>, dict_level: nat)
    requires |t| <= MAX_AUTO_EXTRA
    ensures Meaning(TokenLine(t), dict_level) == if t == [] then Fatal(EmptyKeyword) else Keyword(t)
  {
    var e := Entry([], [], [], [], Escape(t), [NEWLINE]);
    EscapeEmptyIff(t);
    UnescapeEscape(t);
    EntryParses(e, dict_level);
    assert e.Text() == TokenLine(t);
  }

  // ----- whole files -----

  /** Where the next line ends for fgets into a buffer with `room` free bytes. */
  function LineEnd(file: seq<byte>, pos: nat, room: nat): (e: nat)
    requires pos <= |file|
    ensures pos <= e <= |file| && (pos < |file| && room > 0 ==> pos < e)
    decreases room
  {
    if room == 0 || pos == |file| then pos
    else if file[pos] == NEWLINE then pos + 1
    else LineEnd(file, pos + 1, room - 1)
  }

  datatype Loaded = Extras(tokens: seq<seq<byte>>) | Failed(failure: Failure, line: nat)

  function PrependTokens(ts: seq<seq<byte>>, r: Loaded): Loaded {
    if r.Extras? then Extras(ts + r.tokens) else r
  }

  function Followed(line: Line, cur_line: nat, rest: Loaded): Loaded {
    match line
    case Fatal(failure) => Failed(failure, cur_line)
    case Skipped => rest
    case Keyword(data) => PrependTokens([data], rest)
  }

  function LoadFrom(file: seq<byte>, pos: nat, cur_line: nat, dict_level: nat): Loaded
    requires pos <= |file|
    decreases |file| - pos
  {
    if pos == |file| then Extras([])
    else
      var e := LineEnd(file, pos, 8191);
      Followed(Meaning(UntilNul(file[pos..e]), dict_level), cur_line + 1, LoadFrom(file, e, cur_line + 1, dict_level))
  }

  lemma PrependTokensTwice(a: seq<seq<byte>>, b: seq<seq<byte>>, r: Loaded)
    ensures PrependTokens(a, PrependTokens(b, r)) == PrependTokens(a + b, r)
  {
    if r.Extras? { assert a + (b + r.tokens) == a + b + r.tokens; }
  }

  /** load_extras_file: a fatal line ends the program, so nothing is loaded. */
  method LoadExtrasFile(file: seq<byte>, dict_level: nat) returns (r: Loaded)
    ensures r == LoadFrom(file, 0, 0, dict_level)
  {
    hide Meaning;
    var extras: seq<seq<byte>> := [];
    var pos, cur_line := 0, 0;
    while pos < |file|
      invariant pos <= |file|
      invariant PrependTokens(extras, LoadFrom(file, pos, cur_line, dict_level)) == LoadFrom(file, 0, 0, dict_level)
    {
      var end := LineEnd(file, pos, MAX_LINE - 1);
      var buf := UntilNul(file[pos..end]);
      cur_line := cur_line + 1;
      var line := ParseLine(buf, dict_level);
      match line {
        case Fatal(failure) =>
          return Failed(failure, cur_line);
        case Skipped =>
        case Keyword(data) =>
          PrependTokensTwice(extras, [data], LoadFrom(file, end, cur_line, dict_level));
          extras := extras + [data];
      }
      pos := end;
    }
    return Extras(extras);
  }

  /** What a run of the instrumented target leaves in the token file. */
  function DumpFile(cs: seq<Compared>): seq<byte> {
    if cs == [] then [] else Dumped(cs[0]) + DumpFile(cs[1..])
  }

  /** The tokens behind the lines of that file. */
  function Collected(cs: seq<Compared>): seq<seq<byte>> {
    if cs == [] then []
    else (if cs[0].InRange() then [cs[0].Printed()] else []) + Collected(cs[1..])
  }

  ghost predicate EmptyText(c: Compared) {
    c.InRange() && c.is_text && c.ptr[0] == 0
  }

  lemma {:induction false} EscapeLength(t: seq<byte>)
    ensures |Escape(t)| <= 4 * |t|
  {
    if t != [] { EscapeLength(t[1..]); }
  }

  lemma {:induction false} LineEndAt(file: seq<byte>, pos: nat, n: nat, room: nat)
    requires pos + n < |file| && n < room && file[pos + n] == NEWLINE
    requires forall i :: pos <= i < pos + n ==> file[i] != NEWLINE
    ensures LineEnd(file, pos, room) == pos + n + 1
    decreases n
  {
    if n > 0 { LineEndAt(file, pos + 1, n - 1, room - 1); }
  }

  /** fgets returns exactly the line that was printed. */
  lemma ReadsTokenLine(before: seq<byte>, t: seq<byte>, after: seq<byte>)
    requires |t| <= MAX_AUTO_EXTRA
    ensures var file := before + TokenLine(t) + after;
            var e := LineEnd(file, |before|, MAX_LINE - 1);
            e == |before + TokenLine(t)| && UntilNul(file[|before|..e]) == TokenLine(t)
  {
    hide UntilNul, LineEnd;
    var line, file := TokenLine(t), before + TokenLine(t) + after;
    EscapeLength(t);
    EscapedHasNoNul(t);
    forall i | 0 <= i < |line| - 1 ensures line[i] != NEWLINE && line[i] != 0 {
      if 0 < i < |line| - 2 { assert line[i] == Escape(t)[i - 1] && Escape(t)[i - 1] in Escape(t); }
    }
    assert forall i :: |before| <= i < |before| + |line| ==> file[i] == line[i - |before|];
    LineEndAt(file, |before|, |line| - 1, MAX_LINE - 1);
    assert file[|before|..|before + line|] == line;
    assert line[..|line|] == line;
    UntilNulIs(line, |line|);
  }

  lemma {:induction false} DumpsLoadBack(before: seq<byte>, cs: seq<Compared>, cur_line: nat, dict_level: nat)
    ensures var r := LoadFrom(before + DumpFile(cs), |before|, cur_line, dict_level);
            if exists c :: c in cs && EmptyText(c) then r.Failed? && r.failure == EmptyKeyword
            else r == Extras(Collected(cs))
    decreases |cs|
  {
    hide Meaning, LineEnd, UntilNul, Escape;
    var file := before + DumpFile(cs);
    if cs != [] {
      var c, rest := cs[0], DumpFile(cs[1..]);
      assert forall d :: d in cs <==> d == c || d in cs[1..];
      if c.InRange() {
        var t := c.Printed();
        var line := TokenLine(t);
        PrintedLength(c);
        assert file == before + line + rest;
        ReadsTokenLine(before, t, rest);
        TokenLineParses(t, dict_level);
        DumpsLoadBack(before + line, cs[1..], cur_line + 1, dict_level);
        OneLineFirst(file, before, line, rest, cur_line, dict_level);
      } else {
        assert file == before + rest;
        DumpsLoadBack(before, cs[1..], cur_line, dict_level);
      }
    }
  }

  lemma PrintedLength(c: Compared)
    requires c.InRange()
    ensures |c.Printed()| <= MAX_AUTO_EXTRA
    ensures c.Printed() == [] <==> EmptyText(c)
  {
  }

  lemma OneLineFirst(file: seq<byte>, before: seq<byte>, line: seq<byte>, rest: seq<byte>, cur_line: nat,
                     dict_level: nat)
    requires file == before + line + rest && line != []
    requires LineEnd(file, |before|, MAX_LINE - 1) == |before + line|
    requires UntilNul(file[|before|..|before + line|]) == line
    ensures LoadFrom(file, |before|, cur_line, dict_level) ==
            Followed(Meaning(line, dict_level), cur_line + 1, LoadFrom(file, |before + line|, cur_line + 1, dict_level))
  {
    hide Meaning, LineEnd, UntilNul;
  }

  /** A token file loads back, in order and at every dictionary level, as exactly the printed
      tokens, unless a text of admissible length starts with NUL: its empty keyword is fatal. */
  lemma TokenFileRoundTrip(cs: seq<Compared>, dict_level: nat)
    ensures var r := LoadFrom(DumpFile(cs), 0, 0, dict_level);
            (r.Extras? <==> forall c :: c in cs ==> !EmptyText(c)) &&
            (r.Extras? ==> r.tokens == Collected(cs))
  {
    DumpsLoadBack([], cs, 0, dict_level);
    assert [] + DumpFile(cs) == DumpFile(cs);
  }

  /** For instance a text that is three NULs: `""` is printed, and the parser refuses it. */
  lemma EmptyTextFails(dict_level: nat)
    ensures var c := Compared([0, 0, 0], true);
            && DumpFile([c]) == [QUOTE, QUOTE, NEWLINE]
            && LoadFrom(DumpFile([c]), 0, 0, dict_level).Failed?
  {
    hide LoadFrom;
    var c := Compared([0, 0, 0], true);
    TokenFileRoundTrip([c], dict_level);
    assert EmptyText(c) && Dumped(c) == TokenLine([]);
    assert DumpFile([c]) == Dumped(c) + DumpFile([c][1..]) == Dumped(c);
  }

  /** Without truncation at a NUL the tokens are the compared buffers themselves. */
  lemma {:induction false} CollectedUntruncated(cs: seq<Compared>)
    requires forall c :: c in cs ==> c.InRange() && (c.is_text ==> 0 !in c.ptr)
    ensures |Collected(cs)| == |cs|
    ensures forall i :: 0 <= i < |cs| ==> Collected(cs)[i] == cs[i].ptr
  {
    if cs != [] {
      var c := cs[0];
      assert c in cs;
      if c.is_text { assert c.ptr[..|c.ptr|] == c.ptr; UntilNulIs(c.ptr, |c.ptr|); }
      CollectedUntruncated(cs[1..]);
    }
  }

  /** From the compared buffers to the fuzzer's dictionary. */
  method DumpAndLoad(cs: seq<Compared>, dict_level: nat) returns (r: Loaded)
    ensures r.Extras? <==> forall c :: c in cs ==> !EmptyText(c)
    ensures r.Extras? ==> r.tokens == Collected(cs)
  {
    hide LoadFrom, EmptyText;
    var file: seq<byte> := [];
    assert DumpFile(cs[..0]) == [] by { assert cs[..0] == []; }
    for i := 0 to |cs|
      invariant file == DumpFile(cs[..i])
    {
      var out := DumpToken(cs[i].ptr, cs[i].is_text);
      DumpFileSnoc(cs, i);
      file := file + out;
    }
    assert cs[..|cs|] == cs;
    r := LoadExtrasFile(file, dict_level);
    TokenFileRoundTrip(cs, dict_level);
  }

  lemma {:induction false} DumpFileSnoc(cs: seq<Compared>, i: nat)
    requires i < |cs|
    ensures DumpFile(cs[..i + 1]) == DumpFile(cs[..i]) + Dumped(cs[i])
    decreases i
  {
    hide Dumped;
    if i == 0 {
      assert cs[..1][1..] == [] && cs[..0] == [] && DumpFile([]) == [];
      assert DumpFile(cs[..1]) == Dumped(cs[0]) + DumpFile(cs[..1][1..]);
    } else {
      DumpFileSnoc(cs[1..], i - 1);
      assert cs[..i + 1][1..] == cs[1..][..i] && cs[..i][1..] == cs[1..][..i - 1];
    }
  }
}
