/** The character classes of the C locale, and atoi. */
module CLibrary {
  import opened Bytes

  const CR: byte := 13
  const LF: byte := 10

  predicate IsSpace(b: byte) {
    b == 32 || 9 <= b <= 13
  }

  predicate IsDigit(b: byte) {
    48 <= b <= 57
  }

  function SkipWhile(p: byte -> bool, s: seq<byte>): seq<byte> {
    if s != [] && p(s[0]) then SkipWhile(p, s[1..]) else s
  }

  /** Exactly the leading bytes of the class are passed over. */
  lemma {:induction false} SkipWhileMeans(p: byte -> bool, s: seq<byte>) returns (k: nat)
    ensures k <= |s| && SkipWhile(p, s) == s[k..]
    ensures (forall i :: 0 <= i < k ==> p(s[i])) && (k < |s| ==> !p(s[k]))
  {
    if s == [] || !p(s[0]) {
      k := 0;
    } else {
      k := SkipWhileMeans(p, s[1..]);
      assert s[1..][k..] == s[k + 1..];
      k := k + 1;
    }
  }

  ghost predicate All(p: byte -> bool, s: seq<byte>) {
    forall i :: 0 <= i < |s| ==> p(s[i])
  }

  lemma {:induction false} SkipAll(p: byte -> bool, a: seq<byte>, b: seq<byte>)
    requires All(p, a)
    ensures SkipWhile(p, a + b) == SkipWhile(p, b)
  {
    if a == [] {
      assert a + b == b;
    } else {
      SkipAll(p, a[1..], b);
      assert (a + b)[1..] == a[1..] + b;
    }
  }

  lemma Stops(p: byte -> bool, s: seq<byte>)
    requires s != [] && !p(s[0])
    ensures SkipWhile(p, s) == s
  {
  }

  function Decimal(s: seq<byte>, acc: nat): nat {
    if s != [] && IsDigit(s[0]) then Decimal(s[1..], 10 * acc + (s[0] as nat - 48)) else acc
  }

  /** `(u32) atoi(s)`; a NUL inside s ends the number like any other non-digit. */
  function Atoi(s: seq<byte>): nat {
    var t := SkipWhile(IsSpace, s);
    if t != [] && t[0] == 45 then (0 - Decimal(t[1..], 0)) % 0x1_0000_0000
    else if t != [] && t[0] == 43 then Decimal(t[1..], 0) % 0x1_0000_0000
    else Decimal(t, 0) % 0x1_0000_0000
  }

  /** Another digit: ten times the number, and the digit. */
  lemma {:induction false} DecimalSnoc(d: seq<byte>, c: byte, acc: nat)
    requires (forall i :: 0 <= i < |d| ==> 48 <= d[i] <= 57) && 48 <= c <= 57
    ensures Decimal(d + [c], acc) == 10 * Decimal(d, acc) + (c - 48)
    ensures Decimal([], acc) == acc
    decreases |d|
  {
    if d == [] {
      assert (d + [c])[1..] == [];
    } else {
      assert (d + [c])[1..] == d[1..] + [c];
      DecimalSnoc(d[1..], c, 10 * acc + (d[0] as nat - 48));
    }
  }

  /** White space, a sign, digits, and anything behind them. */
  lemma AtoiMeans(space: seq<byte>, sign: seq<byte>, d: seq<byte>, rest: seq<byte>)
    requires forall i :: 0 <= i < |space| ==> space[i] == 32 || 9 <= space[i] <= 13
    requires sign in {[], [43], [45]} && forall i :: 0 <= i < |d| ==> 48 <= d[i] <= 57
    requires d != [] && (rest == [] || !(48 <= rest[0] <= 57))
    ensures Atoi(space + (sign + (d + rest))) ==
            (if sign == [45] then 0 - Decimal(d, 0) else Decimal(d, 0)) % 0x1_0000_0000
  {
    hide Decimal, SkipWhile, IsSpace, Atoi;
    var number := d + rest;
    var t := sign + number;
    assert t[0] == if sign == [] then d[0] else sign[0];
    NoSpace(t[0]);
    Passed(space, t);
    AtoiPast(space + t, t);
    DigitsOnly(d, rest, 0);
    if sign == [] { assert t == number; } else { assert t[1..] == number; }
  }

  lemma AtoiPast(s: seq<byte>, t: seq<byte>)
    requires SkipWhile(IsSpace, s) == t && t != []
    ensures Atoi(s) ==
            (if t[0] == 45 then 0 - Decimal(t[1..], 0)
             else Decimal(if t[0] == 43 then t[1..] else t, 0)) % 0x1_0000_0000
  {
    hide Decimal, SkipWhile;
  }

  lemma Passed(space: seq<byte>, t: seq<byte>)
    requires (forall i :: 0 <= i < |space| ==> space[i] == 32 || 9 <= space[i] <= 13) && t != [] && !IsSpace(t[0])
    ensures SkipWhile(IsSpace, space + t) == t
  {
    SkipAll(IsSpace, space, t);
    Stops(IsSpace, t);
  }

  lemma NoSpace(b: byte)
    requires 43 <= b
    ensures !IsSpace(b)
  {
  }

  lemma {:induction false} DigitsOnly(d: seq<byte>, rest: seq<byte>, acc: nat)
    requires (forall i :: 0 <= i < |d| ==> 48 <= d[i] <= 57) && (rest == [] || !(48 <= rest[0] <= 57))
    ensures Decimal(d + rest, acc) == Decimal(d, acc)
    decreases |d|
  {
    if d == [] {
      assert d + rest == rest;
    } else {
      assert (d + rest)[1..] == d[1..] + rest;
      DigitsOnly(d[1..], rest, 10 * acc + (d[0] as nat - 48));
    }
  }
}
