/** maybe_add_auto: the dictionary the fuzzer collects by itself. */
module AutoDictionary {
  import opened Bytes
  import opened Sorting

  const USE_AUTO_EXTRAS := 50
  const MAX_AUTO_EXTRAS := 500

  datatype Extra = Extra(data: seq<byte>, hit_cnt: nat)

  function Lower(b: byte): byte {
    if 65 <= b <= 90 then b + 32 else b
  }

  /** What memcmp_nocase compares. */
  function Folded(s: seq<byte>): (t: seq<byte>)
    ensures |t| == |s|
  {
    seq(|s|, i requires 0 <= i < |s| => Lower(s[i]))
  }

  /** Equal when folded: the same bytes but for the case of letters. */
  lemma FoldedAlike(s: seq<byte>, t: seq<byte>)
    ensures Folded(s) == Folded(t) <==>
            |s| == |t| &&
            forall i :: 0 <= i < |s| ==>
              || s[i] == t[i]
              || (65 <= s[i] <= 90 && t[i] == s[i] + 32) || (65 <= t[i] <= 90 && s[i] == t[i] + 32)
  {
    if Folded(s) == Folded(t) {
      forall i | 0 <= i < |s| ensures Lower(s[i]) == Lower(t[i]) {
        assert Folded(s)[i] == Folded(t)[i];
      }
    }
  }

  function Keys(a: seq<Extra>): set<seq<byte>> {
    set e | e in a :: Folded(e.data)
  }

  // ----- what the collected tokens have in common -----

  function Contents(s: seq<Extra>): (ts: seq<seq<byte>>)
    ensures |ts| == |s|
  {
    seq(|s|, i requires 0 <= i < |s| => s[i].data)
  }

  ghost predicate MostUsedFirst(s: seq<Extra>, top: nat) {
    forall j, k :: 0 <= j < k < |s| && top <= k ==> s[j].hit_cnt >= s[k].hit_cnt
  }

  /** No two tokens are the same but for case: see DistinctMeans. */
  ghost predicate Distinct(s: seq<Extra>) {
    |Keys(s)| == |s|
  }

  lemma {:induction false} KeysBound(s: seq<Extra>)
    ensures |Keys(s)| <= |s|
  {
    if s != [] {
      KeysBound(s[1..]);
      assert s == [s[0]] + s[1..];
      assert Keys(s) == {Folded(s[0].data)} + Keys(s[1..]);
    }
  }

  /** Taking one out of distinct tokens. */
  lemma OneOut(s: seq<Extra>, i: nat)
    requires i < |s| && Distinct(s)
    ensures var rest := s[..i] + s[i + 1..];
            Distinct(rest) && Keys(s) == Keys(rest) + {Folded(s[i].data)} && Folded(s[i].data) !in Keys(rest)
  {
    var rest := s[..i] + s[i + 1..];
    forall e ensures e in s <==> e in rest || e == s[i] {
      if e in s { var k :| 0 <= k < |s| && s[k] == e; if k != i { assert rest[if k < i then k else k - 1] == e; } }
    }
    assert Keys(s) == Keys(rest) + {Folded(s[i].data)};
    KeysBound(rest);
  }

  lemma OneIn(s: seq<Extra>, i: nat, x: Extra)
    requires i < |s| && Distinct(s) && (Folded(x.data) !in Keys(s) || Folded(x.data) == Folded(s[i].data))
    ensures Distinct(s[i := x])
  {
    var rest := s[..i] + s[i + 1..];
    OneOut(s, i);
    assert s[i := x] == s[..i] + [x] + s[i + 1..];
    forall e ensures e in s[i := x] <==> e in rest || e == x {}
    assert Keys(s[i := x]) == Keys(rest) + {Folded(x.data)};
  }

  lemma DistinctMeans(s: seq<Extra>)
    requires Distinct(s)
    ensures forall j, k :: 0 <= j < k < |s| ==> Folded(s[j].data) != Folded(s[k].data)
  {
    forall j, k | 0 <= j < k < |s| ensures Folded(s[j].data) != Folded(s[k].data) {
      OneOut(s, k);
      assert (s[..k] + s[k + 1..])[j] == s[j];
    }
  }

  lemma Reordered(a: seq<Extra>, b: seq<Extra>)
    requires multiset(a) == multiset(b)
    ensures |a| == |b| && Keys(a) == Keys(b) && forall e :: e in a <==> e in b
  {
    SameLength(a, b);
    forall e ensures e in a <==> e in b {
      assert e in a <==> e in multiset(a);
    }
  }

  class Dictionary {
    /** User extras, sorted when loaded, and the built-in interesting values. */
    const extras: seq<seq<byte>>
    const interesting: seq<byte> -> bool
    var a_extras: seq<Extra>

    function Top(): nat
      reads this
    {
      Min(USE_AUTO_EXTRAS, |a_extras|)
    }

    ghost predicate KnownToUser(mem: seq<byte>) {
      exists i :: 0 <= i < |extras| && Folded(extras[i]) == Folded(mem)
    }

    /** Runs of one byte, interesting values and user extras are not collected. */
    ghost predicate Rejects(mem: seq<byte>) {
      (forall i :: 0 <= i < |mem| ==> mem[i] == mem[0]) || interesting(mem) || KnownToUser(mem)
    }

    ghost predicate Kept(s: seq<Extra>) {
      |s| <= MAX_AUTO_EXTRAS && Distinct(s) && forall e :: e in s ==> !Rejects(e.data)
    }

    ghost predicate Valid()
      reads this
    {
      && SortedByLength(extras)
      && Kept(a_extras)
      && MostUsedFirst(a_extras, Top())
      && SortedByLength(Contents(a_extras[..Top()]))
    }

    /** The search stops at the first longer extra. */
    method MatchesUserExtra(mem: seq<byte>) returns (found: bool)
      requires Valid()
      ensures found <==> KnownToUser(mem)
    {
      var i := 0;
      while i < |extras| && |extras[i]| < |mem|
        invariant 0 <= i <= |extras|
        invariant forall k :: 0 <= k < i ==> |extras[k]| < |mem|
      {
        i := i + 1;
      }
      while i < |extras| && |extras[i]| == |mem|
        invariant 0 <= i <= |extras|
        invariant forall k :: 0 <= k < i ==> Folded(extras[k]) != Folded(mem)
      {
        if Folded(extras[i]) == Folded(mem) {
          return true;
        }
        i := i + 1;
      }
      if i < |extras| {
        assert |extras[i]| > |mem|;
      }
      return false;
    }

    /** sort_a_extras: all by use, then the ones in use by size. */
    method SortExtras()
      requires |a_extras| <= MAX_AUTO_EXTRAS
      modifies this
      ensures multiset(a_extras) == old(multiset(a_extras))
      ensures MostUsedFirst(a_extras, Top()) && SortedByLength(Contents(a_extras[..Top()]))
    {
      var byUse := Qsort(a_extras, (e: Extra) => 0 - e.hit_cnt);
      var n := Min(USE_AUTO_EXTRAS, |byUse|);
      var bySize := Qsort(byUse[..n], (e: Extra) => |e.data|);
      SameLength(a_extras, byUse);
      SameLength(byUse[..n], bySize);
      assert byUse == byUse[..n] + byUse[n..];
      ghost var was := a_extras;
      a_extras := bySize + byUse[n..];
      assert multiset(a_extras) == multiset(byUse);
      assert a_extras[..n] == bySize;
      forall j, k | 0 <= j < k < |a_extras| && n <= k ensures a_extras[j].hit_cnt >= a_extras[k].hit_cnt {
        assert a_extras[k] == byUse[k];
        if j < n {
          assert bySize[j] in multiset(byUse[..n]);
          assert bySize[j] in byUse[..n];
        } else {
          assert a_extras[j] == byUse[j];
        }
      }
    }

    /** The search in a_extras, the new entry and the sorting. */
    method Collect(mem: seq<byte>, roll: nat)
      requires Valid() && !Rejects(mem) && roll < (MAX_AUTO_EXTRAS + 1) / 2
      modifies this
      ensures Valid() && Collected(old(a_extras), mem, roll, a_extras)
    {
      hide Distinct, Rejects, Keys;
      ghost var was := a_extras;
      var i := 0;
      while i < |a_extras| && Folded(a_extras[i].data) != Folded(mem)
        invariant 0 <= i <= |a_extras| && a_extras == was
        invariant forall k :: 0 <= k < i ==> Folded(a_extras[k].data) != Folded(mem)
      {
        i := i + 1;
      }
      if i < |a_extras| {
        a_extras := a_extras[i := a_extras[i].(hit_cnt := a_extras[i].hit_cnt + 1)];
        OneIn(was, i, a_extras[i]);
        SameData(was, i, a_extras[i]);
        assert HitAt(was, i, mem, a_extras);
      } else if |a_extras| < MAX_AUTO_EXTRAS {
        a_extras := a_extras + [Extra(mem, 0)];
        OneMore(was, Extra(mem, 0));
      } else {
        i := MAX_AUTO_EXTRAS / 2 + roll;
        a_extras := a_extras[i := Extra(mem, 0)];
        NotAKey(was, mem);
        OneIn(was, i, Extra(mem, 0));
        assert EvictedAt(was, i, mem, a_extras);
      }
      ghost var next := a_extras;
      assert Changed(was, mem, roll, next);
      SortExtras();
      Reordered(next, a_extras);
      assert Distinct(a_extras) by { SameDistinct(next, a_extras); }
    }

    lemma SameData(s: seq<Extra>, i: nat, x: Extra)
      requires Kept(s) && i < |s| && x.data == s[i].data
      ensures forall e :: e in s[i := x] ==> !Rejects(e.data)
    {
      hide Rejects;
      assert s[i] in s;
      forall e | e in s[i := x] ensures !Rejects(e.data) {
        if e != x { assert e in s; }
      }
    }

    /** maybe_add_auto; `roll` is what UR returns. */
    method MaybeAddAuto(mem: seq<byte>, roll: nat)
      requires Valid() && mem != [] && roll < (MAX_AUTO_EXTRAS + 1) / 2
      modifies this
      ensures Valid()
      ensures Rejects(mem) ==> a_extras == old(a_extras)
      ensures !Rejects(mem) ==> Collected(old(a_extras), mem, roll, a_extras)
      ensures MostUsedFirst(a_extras, 50) && SortedByLength(Contents(a_extras[..Min(50, |a_extras|)]))
    {
      var i := 1;
      while i < |mem| && mem[0] == mem[i]
        invariant 1 <= i <= |mem|
        invariant forall k :: 0 <= k < i ==> mem[k] == mem[0]
      {
        i := i + 1;
      }
      if i == |mem| || interesting(mem) {
        return;
      }
      var known := MatchesUserExtra(mem);
      if known {
        return;
      }
      Collect(mem, roll);
    }
  }

  lemma OneMore(s: seq<Extra>, x: Extra)
    requires Distinct(s) && forall k :: 0 <= k < |s| ==> Folded(s[k].data) != Folded(x.data)
    ensures Distinct(s + [x])
  {
    NotAKey(s, x.data);
    assert Keys(s + [x]) == Keys(s) + {Folded(x.data)};
  }

  lemma NotAKey(s: seq<Extra>, mem: seq<byte>)
    requires forall k :: 0 <= k < |s| ==> Folded(s[k].data) != Folded(mem)
    ensures Folded(mem) !in Keys(s)
  {
  }

  lemma SameDistinct(a: seq<Extra>, b: seq<Extra>)
    requires |a| == |b| && Keys(a) == Keys(b) && Distinct(a)
    ensures Distinct(b)
  {
  }

  ghost predicate HitAt(was: seq<Extra>, i: nat, mem: seq<byte>, next: seq<Extra>) {
    i < |was| && Folded(was[i].data) == Folded(mem) && next == was[i := was[i].(hit_cnt := was[i].hit_cnt + 1)]
  }

  ghost predicate EvictedAt(was: seq<Extra>, i: nat, mem: seq<byte>, next: seq<Extra>) {
    250 <= i < |was| && next == was[i := Extra(mem, 0)]
    && forall k :: 0 <= k < 250 ==> was[k].hit_cnt >= was[i].hit_cnt
  }

  /** Before sorting: one more hit for the entry that is the same but for case; else a new
      entry, when there is no room in place of the one drawn from the second half, which has
      no more hits than any of the first. */
  ghost predicate Changed(was: seq<Extra>, mem: seq<byte>, roll: nat, next: seq<Extra>) {
    if exists k :: 0 <= k < |was| && Folded(was[k].data) == Folded(mem) then exists i: nat :: HitAt(was, i, mem, next)
    else if |was| < 500 then next == was + [Extra(mem, 0)]
    else EvictedAt(was, 250 + roll, mem, next)
  }

  ghost predicate Collected(was: seq<Extra>, mem: seq<byte>, roll: nat, now: seq<Extra>) {
    exists next :: Changed(was, mem, roll, next) && multiset(now) == multiset(next)
  }
}
