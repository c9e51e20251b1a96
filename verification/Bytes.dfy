/** Bytes, buffers cut into regions, and messages. */
module Bytes {
  type byte = x: int | 0 <= x < 256

  type Message = seq<byte>

  function Min(a: nat, b: nat): nat {
    if a < b then a else b
  }

  function Elements<T>(s: seq<T>): set<T> {
    set x | x in s
  }

  lemma ElementsSnoc<T>(s: seq<T>, i: nat)
    requires i < |s|
    ensures Elements(s[..i + 1]) == Elements(s[..i]) + {s[i]}
  {
  }

  lemma ElementsEnds<T>(s: seq<T>)
    ensures Elements(s[..0]) == {} && Elements(s[..|s|]) == Elements(s)
  {
    assert s[..|s|] == s;
  }

  ghost predicate SortedByLength(ss: seq<seq<byte>>) {
    forall j, k :: 0 <= j <= k < |ss| ==> |ss[j]| <= |ss[k]|
  }

  /** region_t without its annotation: start_byte and end_byte, both inclusive. */
  datatype Region = Region(start: nat, end: nat)

  function Len(r: Region): int {
    r.end - r.start + 1
  }

  /** Regions follow each other without gap or overlap from `from`, none is empty, and the
      last one ends just before `to`. */
  ghost predicate Tiles(rs: seq<Region>, from: nat, to: nat) {
    if rs == [] then from == to
    else rs[0].start == from && from <= rs[0].end < to && Tiles(rs[1..], rs[0].end + 1, to)
  }

  function Concat(ms: seq<Message>): seq<byte> {
    if ms == [] then [] else ms[0] + Concat(ms[1..])
  }

  lemma ConcatOne(m: Message)
    ensures Concat([m]) == m
  {
    assert [m][1..] == [];
    assert Concat([m]) == m + Concat([m][1..]);
  }

  lemma {:induction false} ConcatAppend(a: seq<Message>, b: seq<Message>)
    ensures Concat(a + b) == Concat(a) + Concat(b)
  {
    if a == [] {
      assert a + b == b;
    } else {
      ConcatAppend(a[1..], b);
      assert (a + b)[1..] == a[1..] + b;
      assert (a + b)[0] == a[0];
    }
  }

  lemma {:induction false} TilesAppend(a: seq<Region>, b: seq<Region>, from: nat, mid: nat, to: nat)
    requires Tiles(a, from, mid) && Tiles(b, mid, to) && mid <= to
    ensures Tiles(a + b, from, to)
  {
    if a == [] {
      assert a + b == b;
    } else {
      TilesAppend(a[1..], b, a[0].end + 1, mid, to);
      assert (a + b)[1..] == a[1..] + b;
      TilesBound(a[1..], a[0].end + 1, mid);
    }
  }

  lemma {:induction false} TilesBound(a: seq<Region>, from: nat, to: nat)
    requires Tiles(a, from, to)
    ensures from <= to && (a != [] ==> from < to)
  {
    if a != [] { TilesBound(a[1..], a[0].end + 1, to); }
  }

  /** The tail of a tiling tiles the rest, and its regions lie inside. */
  lemma {:induction false} TilesFrom(rs: seq<Region>, i: nat, from: nat, to: nat)
    requires Tiles(rs, from, to) && i <= |rs|
    ensures Tiles(rs[i..], if i == 0 then from else rs[i - 1].end + 1, to)
    ensures i < |rs| ==> from <= rs[i].start <= rs[i].end < to
    ensures i < |rs| ==> rs[i].start == if i == 0 then from else rs[i - 1].end + 1
    ensures rs != [] ==> rs[|rs| - 1].end + 1 == to
    decreases |rs|
  {
    if rs != [] {
      TilesBound(rs[1..], rs[0].end + 1, to);
      if i > 0 {
        TilesFrom(rs[1..], i - 1, rs[0].end + 1, to);
        assert rs[1..][i - 1..] == rs[i..];
      } else {
        TilesFrom(rs[1..], 0, rs[0].end + 1, to);
        assert rs[0..] == rs;
      }
    } else {
      assert rs[i..] == rs;
    }
  }

  /** The head of a tiling tiles up to the next region. */
  lemma {:induction false} TilesUpTo(rs: seq<Region>, i: nat, from: nat, to: nat)
    requires Tiles(rs, from, to) && i < |rs|
    ensures Tiles(rs[..i], from, rs[i].start) && from <= rs[i].start
    decreases |rs|
  {
    if i > 0 {
      TilesUpTo(rs[1..], i - 1, rs[0].end + 1, to);
      assert rs[1..][..i - 1] == rs[..i][1..];
    }
  }

  /** Where the last region stops. */
  function Stop(rs: seq<Region>): nat {
    if rs == [] then 0 else rs[|rs| - 1].end + 1
  }

  /** What callers rely on: regions contiguous from 0, inside the buffer. */
  ghost predicate Fits(rs: seq<Region>, buf: seq<byte>) {
    Tiles(rs, 0, Stop(rs)) && Stop(rs) <= |buf|
  }

  lemma {:induction false} LaterRegion(rs: seq<Region>, i: nat, j: nat, to: nat)
    requires Tiles(rs, 0, to) && i <= j < |rs|
    ensures rs[i].end <= rs[j].end && rs[i].start <= rs[j].end
    decreases j - i
  {
    TilesFrom(rs, i, 0, to);
    if i < j {
      TilesFrom(rs, i + 1, 0, to);
      LaterRegion(rs, i + 1, j, to);
    }
  }

  /** Bounds of one region of a fitting sequence. */
  lemma FitsAt(rs: seq<Region>, buf: seq<byte>, i: nat)
    requires Fits(rs, buf) && i < |rs|
    ensures rs[i].start <= rs[i].end < Stop(rs) <= |buf|
    ensures rs[i].start == if i == 0 then 0 else rs[i - 1].end + 1
  {
    TilesFrom(rs, i, 0, Stop(rs));
  }
}
