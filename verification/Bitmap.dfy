/** The coverage bitmaps: has_new_bits, which skips whole 64-bit words, and count_bits. */
module Bitmap {
  import opened PopCount

  /** A 64-bit word as its two 32-bit halves, low half first in memory. */
  datatype U64 = U64(lo: bv32, hi: bv32)

  const ZERO64 := U64(0, 0)

  function And(a: U64, b: U64): U64 {
    U64(a.lo & b.lo, a.hi & b.hi)
  }

  /** `a & ~b`. */
  function AndNot(a: U64, b: U64): U64 {
    U64(Clear(a.lo, b.lo), Clear(a.hi, b.hi))
  }

  function ByteOf(w: bv32, k: nat): bv32
    requires k < 4
  {
    match k
    case 0 => w & 0xff
    case 1 => (w >> 8) & 0xff
    case 2 => (w >> 16) & 0xff
    case 3 => (w >> 24) & 0xff
  }

  function ByteIn(w: U64, k: nat): bv32
    requires k < 8
  {
    if k < 4 then ByteOf(w.lo, k) else ByteOf(w.hi, k - 4)
  }

  /** Byte j of a bitmap. */
  function ByteAt(m: seq<U64>, j: nat): bv32
    requires j < 8 * |m|
  {
    ByteIn(m[j / 8], j % 8)
  }

  // ----- what has_new_bits means, byte by byte -----

  /** A hit on an untouched byte. */
  predicate Fresh(c: bv32, v: bv32) {
    c != 0 && v == 0xff
  }

  /** Byte j was hit and has never been hit before. */
  predicate FirstHit(trace: seq<U64>, virgin: seq<U64>, j: nat)
    requires |trace| == |virgin| && j < 8 * |trace|
  {
    Fresh(ByteAt(trace, j), ByteAt(virgin, j))
  }

  /** Byte j has a bit that has not been seen before. */
  predicate UnseenBit(trace: seq<U64>, virgin: seq<U64>, j: nat)
    requires |trace| == |virgin| && j < 8 * |trace|
  {
    Meet(ByteAt(trace, j), ByteAt(virgin, j))
  }

  ghost predicate NewTuple(trace: seq<U64>, virgin: seq<U64>)
    requires |trace| == |virgin|
  {
    exists j: nat :: j < 8 * |trace| && FirstHit(trace, virgin, j)
  }

  ghost predicate NewBits(trace: seq<U64>, virgin: seq<U64>)
    requires |trace| == |virgin|
  {
    exists j: nat :: j < 8 * |trace| && UnseenBit(trace, virgin, j)
  }

  ghost function Verdict(trace: seq<U64>, virgin: seq<U64>): nat
    requires |trace| == |virgin|
  {
    if NewTuple(trace, virgin) then 2 else if NewBits(trace, virgin) then 1 else 0
  }

  /** The map afterwards: the trace's bits are no longer virgin. */
  function Cleared(virgin: seq<U64>, trace: seq<U64>): (r: seq<U64>)
    requires |trace| == |virgin|
    ensures |r| == |virgin|
  {
    seq(|virgin|, i requires 0 <= i < |virgin| => AndNot(virgin[i], trace[i]))
  }

  // ----- words against bytes -----

  predicate HalfPristine(c: bv32, v: bv32) {
    || Fresh(ByteOf(c, 0), ByteOf(v, 0)) || Fresh(ByteOf(c, 1), ByteOf(v, 1))
    || Fresh(ByteOf(c, 2), ByteOf(v, 2)) || Fresh(ByteOf(c, 3), ByteOf(v, 3))
  }

  predicate HalfMeets(c: bv32, v: bv32) {
    || Meet(ByteOf(c, 0), ByteOf(v, 0)) || Meet(ByteOf(c, 1), ByteOf(v, 1))
    || Meet(ByteOf(c, 2), ByteOf(v, 2)) || Meet(ByteOf(c, 3), ByteOf(v, 3))
  }

  /** The eight-way test of has_new_bits. */
  predicate WordPristine(c: U64, v: U64) {
    HalfPristine(c.lo, v.lo) || HalfPristine(c.hi, v.hi)
  }

  /** `*current & *virgin` is not zero. */
  predicate WordMeets(c: U64, v: U64) {
    Meet(c.lo, v.lo) || Meet(c.hi, v.hi)
  }

  lemma HalfMeetsByBytes(c: bv32, v: bv32)
    ensures Meet(c, v) <==> HalfMeets(c, v)
  {
  }

  lemma PristineMeets(c: bv32, v: bv32)
    ensures HalfPristine(c, v) ==> HalfMeets(c, v)
  {
    hide Meet, Fresh;
    AllOnes(ByteOf(c, 0), ByteOf(v, 0));
    AllOnes(ByteOf(c, 1), ByteOf(v, 1));
    AllOnes(ByteOf(c, 2), ByteOf(v, 2));
    AllOnes(ByteOf(c, 3), ByteOf(v, 3));
  }

  lemma AllOnes(c: bv32, v: bv32)
    requires c <= 0xff
    ensures Fresh(c, v) ==> Meet(c, v)
  {
  }

  lemma ZeroMeetsNothing(c: bv32, v: bv32)
    ensures c == 0 ==> !Meet(c, v)
  {
  }

  lemma MeetsInSomeByte(c: U64, v: U64)
    ensures forall k: nat :: k < 8 && Meet(ByteIn(c, k), ByteIn(v, k)) ==> WordMeets(c, v)
    ensures WordMeets(c, v) ==> exists k: nat :: k < 8 && Meet(ByteIn(c, k), ByteIn(v, k))
  {
    hide ByteOf, Meet;
    HalfMeetsByBytes(c.lo, v.lo);
    HalfMeetsByBytes(c.hi, v.hi);
    if WordMeets(c, v) {
      assert Meet(ByteIn(c, 0), ByteIn(v, 0)) || Meet(ByteIn(c, 1), ByteIn(v, 1)) ||
             Meet(ByteIn(c, 2), ByteIn(v, 2)) || Meet(ByteIn(c, 3), ByteIn(v, 3)) ||
             Meet(ByteIn(c, 4), ByteIn(v, 4)) || Meet(ByteIn(c, 5), ByteIn(v, 5)) ||
             Meet(ByteIn(c, 6), ByteIn(v, 6)) || Meet(ByteIn(c, 7), ByteIn(v, 7));
    }
  }

  lemma PristineInSomeByte(c: U64, v: U64)
    ensures forall k: nat :: k < 8 && Fresh(ByteIn(c, k), ByteIn(v, k)) ==> WordPristine(c, v)
    ensures WordPristine(c, v) ==> exists k: nat :: k < 8 && Fresh(ByteIn(c, k), ByteIn(v, k))
    ensures WordPristine(c, v) ==> WordMeets(c, v)
  {
    hide ByteOf, Meet, Fresh, HalfMeets;
    PristineMeets(c.lo, v.lo);
    PristineMeets(c.hi, v.hi);
    HalfMeetsByBytes(c.lo, v.lo);
    HalfMeetsByBytes(c.hi, v.hi);
    if WordPristine(c, v) {
      assert Fresh(ByteIn(c, 0), ByteIn(v, 0)) || Fresh(ByteIn(c, 1), ByteIn(v, 1)) ||
             Fresh(ByteIn(c, 2), ByteIn(v, 2)) || Fresh(ByteIn(c, 3), ByteIn(v, 3)) ||
             Fresh(ByteIn(c, 4), ByteIn(v, 4)) || Fresh(ByteIn(c, 5), ByteIn(v, 5)) ||
             Fresh(ByteIn(c, 6), ByteIn(v, 6)) || Fresh(ByteIn(c, 7), ByteIn(v, 7));
    }
  }

  /** The word test for unseen bits looks at exactly the eight bytes of the word. */
  lemma UnseenInWord(trace: seq<U64>, virgin: seq<U64>, i: nat)
    requires |trace| == |virgin| && i < |trace|
    ensures forall j: nat :: 8 * i <= j < 8 * i + 8 && UnseenBit(trace, virgin, j) ==> WordMeets(trace[i], virgin[i])
    ensures WordMeets(trace[i], virgin[i]) ==> exists j: nat :: 8 * i <= j < 8 * i + 8 && UnseenBit(trace, virgin, j)
  {
    hide ByteIn, Meet, WordMeets;
    MeetsInSomeByte(trace[i], virgin[i]);
    forall j: nat | 8 * i <= j < 8 * i + 8 && UnseenBit(trace, virgin, j) ensures WordMeets(trace[i], virgin[i]) {
      assert j / 8 == i;
    }
    if WordMeets(trace[i], virgin[i]) {
      var k: nat :| k < 8 && Meet(ByteIn(trace[i], k), ByteIn(virgin[i], k));
      assert (8 * i + k) / 8 == i && (8 * i + k) % 8 == k;
      assert UnseenBit(trace, virgin, 8 * i + k);
    }
  }

  /** So does the eight-way test for untouched bytes, which is the stronger one. */
  lemma FirstHitInWord(trace: seq<U64>, virgin: seq<U64>, i: nat)
    requires |trace| == |virgin| && i < |trace|
    ensures forall j: nat :: 8 * i <= j < 8 * i + 8 && FirstHit(trace, virgin, j) ==> WordPristine(trace[i], virgin[i])
    ensures WordPristine(trace[i], virgin[i]) ==> exists j: nat :: 8 * i <= j < 8 * i + 8 && FirstHit(trace, virgin, j)
    ensures WordPristine(trace[i], virgin[i]) ==> WordMeets(trace[i], virgin[i])
  {
    hide ByteIn, Fresh, Meet, WordMeets, WordPristine;
    PristineInSomeByte(trace[i], virgin[i]);
    forall j: nat | 8 * i <= j < 8 * i + 8 && FirstHit(trace, virgin, j) ensures WordPristine(trace[i], virgin[i]) {
      assert j / 8 == i;
    }
    if WordPristine(trace[i], virgin[i]) {
      var k: nat :| k < 8 && Fresh(ByteIn(trace[i], k), ByteIn(virgin[i], k));
      assert (8 * i + k) / 8 == i && (8 * i + k) % 8 == k;
      assert FirstHit(trace, virgin, 8 * i + k);
    }
  }

  /** The byte-level verdict, decided word by word. */
  lemma VerdictByWords(trace: seq<U64>, virgin: seq<U64>)
    requires |trace| == |virgin|
    ensures NewTuple(trace, virgin) <==> exists i :: 0 <= i < |trace| && WordPristine(trace[i], virgin[i])
    ensures NewBits(trace, virgin) <==> exists i :: 0 <= i < |trace| && WordMeets(trace[i], virgin[i])
  {
    hide FirstHit, UnseenBit, WordPristine, WordMeets;
    if NewTuple(trace, virgin) {
      var j: nat :| j < 8 * |trace| && FirstHit(trace, virgin, j);
      FirstHitInWord(trace, virgin, j / 8);
    }
    if i: nat :| i < |trace| && WordPristine(trace[i], virgin[i]) {
      FirstHitInWord(trace, virgin, i);
    }
    if NewBits(trace, virgin) {
      var j: nat :| j < 8 * |trace| && UnseenBit(trace, virgin, j);
      UnseenInWord(trace, virgin, j / 8);
    }
    if i: nat :| i < |trace| && WordMeets(trace[i], virgin[i]) {
      UnseenInWord(trace, virgin, i);
    }
  }

  /** has_new_bits. */
  method HasNewBits(trace_bits: array<U64>, virgin_map: array<U64>) returns (ret: nat)
    requires trace_bits != virgin_map && trace_bits.Length == virgin_map.Length
    modifies virgin_map
    ensures ret == Verdict(trace_bits[..], old(virgin_map[..]))
    ensures virgin_map[..] == Cleared(old(virgin_map[..]), trace_bits[..])
  {
    hide WordPristine, HalfPristine, Meet, Clear;
    ghost var t, v := trace_bits[..], virgin_map[..];
    ret := 0;
    var i := 0;
    while i < trace_bits.Length
      invariant 0 <= i <= |t| && trace_bits[..] == t
      invariant forall k :: 0 <= k < |t| ==> virgin_map[k] == if k < i then AndNot(v[k], t[k]) else v[k]
      invariant ret == 2 <==> exists k :: 0 <= k < i && WordPristine(t[k], v[k])
      invariant ret != 0 <==> exists k :: 0 <= k < i && WordMeets(t[k], v[k])
      invariant ret <= 2
    {
      var current, virgin := trace_bits[i], virgin_map[i];
      assert current == t[i] && virgin == v[i];
      FirstHitInWord(t, v, i);
      MeetIsNonZero(current, virgin);
      if current != ZERO64 && And(current, virgin) != ZERO64 {
        if ret < 2 {
          if WordPristine(current, virgin) {
            ret := 2;
          } else {
            ret := 1;
          }
        }
        virgin_map[i] := AndNot(virgin_map[i], current);
      }
      i := i + 1;
    }
    VerdictByWords(t, v);
  }

  lemma MeetIsNonZero(c: U64, v: U64)
    ensures WordMeets(c, v) <==> c != ZERO64 && And(c, v) != ZERO64
    ensures !WordMeets(c, v) ==> AndNot(v, c) == v
  {
    hide Clear;
    ZeroMeetsNothing(c.lo, v.lo);
    ZeroMeetsNothing(c.hi, v.hi);
    HalfMissed(c.lo, v.lo);
    HalfMissed(c.hi, v.hi);
  }

  lemma HalfMissed(c: bv32, v: bv32)
    ensures !Meet(c, v) ==> Clear(v, c) == v
    ensures Meet(c, v) <==> c & v != 0
    ensures Meet(c, v) <==> Meet(v, c)
  {
  }

  // ----- count_bits -----

  /** How many bits of a bitmap are set. */
  function Bits(m: seq<U64>): nat {
    if m == [] then 0 else Bits(m[..|m| - 1]) + Pop(m[|m| - 1].lo) + Pop(m[|m| - 1].hi)
  }

  /** count_bits walks the bitmap as 32-bit words. */
  method CountBits(mem: array<U64>) returns (ret: nat)
    ensures ret == Bits(mem[..]) <= 64 * mem.Length
  {
    hide Bits, BitsOfWords, Pop, Swar;
    ret := 0;
    AllWords(mem[..]);
    for i := 0 to 2 * mem.Length
      invariant ret == BitsOfWords(mem[..], i) <= 32 * i
    {
      var v := if i % 2 == 0 then mem[i / 2].lo else mem[i / 2].hi;
      CountWord(v);
      OneMoreWord(mem[..], i);
      if v == 0xffff_ffff {
        ret := ret + 32;
        continue;
      }
      ret := ret + Nat(Swar(v));
    }
  }

  /** The bits of the first i 32-bit words. */
  ghost function BitsOfWords(m: seq<U64>, i: nat): nat
    requires i <= 2 * |m|
  {
    Bits(m[..i / 2]) + if i % 2 == 1 then Pop(m[i / 2].lo) else 0
  }

  lemma OneMoreWord(m: seq<U64>, i: nat)
    requires i < 2 * |m|
    ensures BitsOfWords(m, i + 1) == BitsOfWords(m, i) + Pop(if i % 2 == 0 then m[i / 2].lo else m[i / 2].hi)
  {
    hide Pop;
    assert m[..i / 2 + 1][..i / 2] == m[..i / 2];
  }

  lemma AllWords(m: seq<U64>)
    ensures BitsOfWords(m, 0) == 0 && BitsOfWords(m, 2 * |m|) == Bits(m)
  {
    assert m[..0] == [] && m[..|m|] == m;
  }

  lemma CountWord(v: bv32)
    ensures Nat(Swar(v)) == Pop(v) <= 32
    ensures v == 0xffff_ffff ==> Pop(v) == 32
  {
    SwarIsPop(v);
    assert Nat(Swar(0xffff_ffff)) == 32;
  }

  // ----- any number of executions -----

  /** The virgin map after a history of traces. */
  function After(virgin: seq<U64>, history: seq<seq<U64>>): (r: seq<U64>)
    requires forall t :: t in history ==> |t| == |virgin|
    ensures |r| == |virgin|
  {
    if history == [] then virgin else Cleared(After(virgin, history[..|history| - 1]), history[|history| - 1])
  }

  /** How often has_new_bits says something other than 0. */
  ghost function Finds(virgin: seq<U64>, history: seq<seq<U64>>): nat
    requires forall t :: t in history ==> |t| == |virgin|
  {
    if history == [] then 0
    else Finds(virgin, history[..|history| - 1]) +
         if Verdict(history[|history| - 1], After(virgin, history[..|history| - 1])) == 0 then 0 else 1
  }

  /** A find takes bits from the map, and only a find does. */
  lemma FindsCostBits(virgin: seq<U64>, trace: seq<U64>)
    requires |trace| == |virgin|
    ensures Bits(Cleared(virgin, trace)) <= Bits(virgin)
    ensures Verdict(trace, virgin) != 0 <==> Bits(Cleared(virgin, trace)) < Bits(virgin)
    ensures Verdict(trace, virgin) in {0, 1, 2}
    ensures Verdict(trace, virgin) == 0 ==> Cleared(virgin, trace) == virgin
  {
    hide WordMeets, WordPristine, Cleared, NewTuple, NewBits, Bits;
    VerdictByWords(trace, virgin);
    TupleIsNewBits(trace, virgin);
    ClearedCounts(virgin, trace);
    if Verdict(trace, virgin) == 0 {
      MissedMapIsUnchanged(virgin, trace);
    }
  }

  lemma MissedMapIsUnchanged(virgin: seq<U64>, trace: seq<U64>)
    requires |trace| == |virgin|
    requires forall i :: 0 <= i < |trace| ==> !WordMeets(trace[i], virgin[i])
    ensures Cleared(virgin, trace) == virgin
  {
    hide WordMeets, AndNot;
    forall i | 0 <= i < |trace| ensures AndNot(virgin[i], trace[i]) == virgin[i] {
      MeetIsNonZero(trace[i], virgin[i]);
    }
    assert forall i :: 0 <= i < |virgin| ==> Cleared(virgin, trace)[i] == virgin[i];
  }

  lemma TupleIsNewBits(trace: seq<U64>, virgin: seq<U64>)
    requires |trace| == |virgin|
    ensures NewTuple(trace, virgin) ==> NewBits(trace, virgin)
  {
    hide WordMeets, WordPristine;
    VerdictByWords(trace, virgin);
    if NewTuple(trace, virgin) {
      var i :| 0 <= i < |trace| && WordPristine(trace[i], virgin[i]);
      FirstHitInWord(trace, virgin, i);
    }
  }

  lemma {:induction false} ClearedCounts(virgin: seq<U64>, trace: seq<U64>)
    requires |trace| == |virgin|
    ensures Bits(Cleared(virgin, trace)) <= Bits(virgin)
    ensures (exists i :: 0 <= i < |trace| && WordMeets(trace[i], virgin[i])) ==>
            Bits(Cleared(virgin, trace)) < Bits(virgin)
  {
    hide WordMeets, Pop;
    if virgin != [] {
      var n := |virgin| - 1;
      ClearedCounts(virgin[..n], trace[..n]);
      assert Cleared(virgin, trace)[..n] == Cleared(virgin[..n], trace[..n]);
      WordCounts(trace[n], virgin[n]);
      if i :| 0 <= i < |trace| && WordMeets(trace[i], virgin[i]) {
        if i < n { assert WordMeets(trace[..n][i], virgin[..n][i]); }
      }
    }
  }

  lemma WordCounts(c: U64, v: U64)
    ensures var r := AndNot(v, c); Pop(r.lo) + Pop(r.hi) <= Pop(v.lo) + Pop(v.hi)
    ensures WordMeets(c, v) ==> var r := AndNot(v, c); Pop(r.lo) + Pop(r.hi) < Pop(v.lo) + Pop(v.hi)
  {
    hide Pop, Clear;
    ClearingCounts(v.lo, c.lo);
    ClearingCounts(v.hi, c.hi);
    HalfMissed(c.lo, v.lo);
    HalfMissed(c.hi, v.hi);
  }

  /** Over any history the finds are paid for with bits of the map, so there are at most as
      many as it had at the start: 8 for each of its MAP_SIZE bytes. */
  lemma {:induction false} FindsAreBounded(virgin: seq<U64>, history: seq<seq<U64>>)
    requires forall t :: t in history ==> |t| == |virgin|
    ensures Finds(virgin, history) + Bits(After(virgin, history)) <= Bits(virgin) <= 64 * |virgin|
  {
    hide Verdict;
    BitsBound(virgin);
    if history != [] {
      var shorter := history[..|history| - 1];
      FindsAreBounded(virgin, shorter);
      FindsCostBits(After(virgin, shorter), history[|history| - 1]);
    }
  }

  lemma {:induction false} BitsBound(m: seq<U64>)
    ensures Bits(m) <= 64 * |m|
  {
    hide Pop;
    if m != [] {
      BitsBound(m[..|m| - 1]);
      SwarIsPop(m[|m| - 1].lo);
      SwarIsPop(m[|m| - 1].hi);
    }
  }

  /** An immediate repeat of a trace finds nothing. */
  lemma RepeatFindsNothing(virgin: seq<U64>, trace: seq<U64>)
    requires |trace| == |virgin|
    ensures Verdict(trace, Cleared(virgin, trace)) == 0
  {
    hide WordPristine;
    var after := Cleared(virgin, trace);
    VerdictByWords(trace, after);
    TupleIsNewBits(trace, after);
    forall i | 0 <= i < |trace| ensures !WordMeets(trace[i], after[i]) {
      ClearedMisses(trace[i].lo, virgin[i].lo);
      ClearedMisses(trace[i].hi, virgin[i].hi);
    }
  }

  lemma ClearedMisses(c: bv32, v: bv32)
    ensures !Meet(c, Clear(v, c))
  {
  }

  // ----- the map against the union of everything seen -----

  function Joined(a: bv32, b: bv32): bv32 {
    a | b
  }

  function Or(a: U64, b: U64): U64 {
    U64(Joined(a.lo, b.lo), Joined(a.hi, b.hi))
  }

  function Union(history: seq<seq<U64>>, n: nat): (r: seq<U64>)
    requires forall t :: t in history ==> |t| == n
    ensures |r| == n
  {
    if history == [] then seq(n, _ => ZERO64)
    else
      var u, last := Union(history[..|history| - 1], n), history[|history| - 1];
      seq(n, i requires 0 <= i < n => Or(u[i], last[i]))
  }

  const PRISTINE := U64(0xffff_ffff, 0xffff_ffff)

  function AllPristine(n: nat): (r: seq<U64>)
    ensures |r| == n && forall i :: 0 <= i < n ==> r[i] == PRISTINE
  {
    seq(n, _ => PRISTINE)
  }

  lemma ClearTwice(v: bv32, a: bv32, b: bv32)
    ensures Clear(Clear(v, a), b) == Clear(v, Joined(a, b)) && Clear(v, 0) == v
  {
  }

  /** The virgin map is the initial map without the union of all traces. */
  lemma {:induction false} AfterIsComplement(virgin: seq<U64>, history: seq<seq<U64>>)
    requires forall t :: t in history ==> |t| == |virgin|
    ensures forall i :: 0 <= i < |virgin| ==>
            After(virgin, history)[i] == AndNot(virgin[i], Union(history, |virgin|)[i])
  {
    hide Clear, Joined;
    forall i | 0 <= i < |virgin| ensures After(virgin, history)[i] == AndNot(virgin[i], Union(history, |virgin|)[i]) {
      if history == [] {
        ClearTwice(virgin[i].lo, 0, 0);
        ClearTwice(virgin[i].hi, 0, 0);
      } else {
        var shorter, last := history[..|history| - 1], history[|history| - 1];
        AfterIsComplement(virgin, shorter);
        var u := Union(shorter, |virgin|);
        ClearTwice(virgin[i].lo, u[i].lo, last[i].lo);
        ClearTwice(virgin[i].hi, u[i].hi, last[i].hi);
      }
    }
  }

  lemma ByteOfComplement(u: bv32, k: nat)
    requires k < 4
    ensures ByteOf(Clear(0xffff_ffff, u), k) == 0xff <==> ByteOf(u, k) == 0
  {
    ComplementBytes(u);
  }

  lemma ComplementBytes(u: bv32)
    ensures !u & 0xff == 0xff <==> u & 0xff == 0
    ensures (!u >> 8) & 0xff == 0xff <==> (u >> 8) & 0xff == 0
    ensures (!u >> 16) & 0xff == 0xff <==> (u >> 16) & 0xff == 0
    ensures (!u >> 24) & 0xff == 0xff <==> (u >> 24) & 0xff == 0
    ensures Clear(0xffff_ffff, u) == !u
  {
  }

  lemma ByteOfOr(a: bv32, b: bv32, k: nat)
    requires k < 4
    ensures ByteOf(Joined(a, b), k) == 0 <==> ByteOf(a, k) == 0 && ByteOf(b, k) == 0
    ensures ByteOf(0, k) == 0
  {
    match k case 0 => case 1 => case 2 => case 3 =>
  }

  lemma ByteOfOr64(a: U64, b: U64, k: nat)
    requires k < 8
    ensures ByteIn(Or(a, b), k) == 0 <==> ByteIn(a, k) == 0 && ByteIn(b, k) == 0
    ensures ByteIn(ZERO64, k) == 0
  {
    hide ByteOf, Joined;
    if k < 4 { ByteOfOr(a.lo, b.lo, k); } else { ByteOfOr(a.hi, b.hi, k - 4); }
  }

  lemma {:induction false} UnionByte(history: seq<seq<U64>>, n: nat, j: nat)
    requires forall t :: t in history ==> |t| == n
    requires j < 8 * n
    ensures ByteAt(Union(history, n), j) == 0 <==> forall t :: t in history ==> ByteAt(t, j) == 0
  {
    hide ByteIn, Or;
    if history != [] {
      var shorter, last := history[..|history| - 1], history[|history| - 1];
      UnionByte(shorter, n, j);
      assert history == shorter + [last];
      assert forall t :: t in history <==> t in shorter || t == last;
      ByteOfOr64(Union(shorter, n)[j / 8], last[j / 8], j % 8);
      assert ByteAt(Union(history, n), j) == 0 <==> ByteAt(Union(shorter, n), j) == 0 && ByteAt(last, j) == 0;
    } else {
      ByteOfOr64(ZERO64, ZERO64, j % 8);
    }
  }

  /** From a fresh map, has_new_bits says 2 exactly when some byte of the trace has not been
      hit by any earlier trace. */
  lemma NewTupleOverHistory(trace: seq<U64>, history: seq<seq<U64>>)
    requires forall t :: t in history ==> |t| == |trace|
    ensures Verdict(trace, After(AllPristine(|trace|), history)) == 2 <==>
            exists j: nat :: j < 8 * |trace| && ByteAt(trace, j) != 0 && forall t :: t in history ==> ByteAt(t, j) == 0
  {
    hide ByteAt, Union, AndNot;
    var n := |trace|;
    var map_ := After(AllPristine(n), history);
    forall j: nat | j < 8 * n
      ensures FirstHit(trace, map_, j) <==> ByteAt(trace, j) != 0 && forall t :: t in history ==> ByteAt(t, j) == 0
    {
      UnionByte(history, n, j);
      PristineByte(history, n, j);
    }
  }

  lemma PristineByte(history: seq<seq<U64>>, n: nat, j: nat)
    requires forall t :: t in history ==> |t| == n
    requires j < 8 * n
    ensures ByteAt(After(AllPristine(n), history), j) == 0xff <==> ByteAt(Union(history, n), j) == 0
  {
    hide ByteOf, Clear, Union, After;
    AfterIsComplement(AllPristine(n), history);
    var u, k := Union(history, n)[j / 8], j % 8;
    assert AllPristine(n)[j / 8] == PRISTINE;
    if k < 4 { ByteOfComplement(u.lo, k); } else { ByteOfComplement(u.hi, k - 4); }
  }
}
