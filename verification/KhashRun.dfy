/** Whole runs of khash operations against a finite map, and one of AFLNet's uses of them. */
module KhashRun {
  import opened Bytes
  import opened Probe
  import opened RoundUp
  import opened KhashTable
  import opened FlagPack
  import opened Khash

  /** What callers do with a table: look up, `kh_put` then store a value, `kh_get` then
      `kh_del`, and an explicit resize; where memory is asked for, whether there is any. */
  datatype Op<K, V> =
    | Find(key: K)
    | Store(key: K, val: V, mem: Memory)
    | Remove(key: K)
    | Rehash(request: bv32, mem: Memory)

  const PLENTY := Memory(true, true, true)

  datatype Reply<V> =
    | Found(value: V)
    | Missing
    | Done
    | OutOfMemory
    | Lost                 // kh_resize has taken over a null pointer

  function Apply<K, V>(m: map<K, V>, op: Op<K, V>): map<K, V> {
    match op
    case Find(_) => m
    case Store(k, v, _) => m[k := v]
    case Remove(k) => m - {k}
    case Rehash(_, _) => m
  }

  /** A failed operation changes nothing. */
  function Applied<K, V>(m: map<K, V>, op: Op<K, V>, reply: Reply<V>): map<K, V> {
    if reply == OutOfMemory then m else Apply(m, op)
  }

  function ApplyAll<K, V>(m: map<K, V>, ops: seq<Op<K, V>>, replies: seq<Reply<V>>): map<K, V>
    requires |replies| == |ops|
  {
    if ops == [] then m
    else Applied(ApplyAll(m, ops[..|ops| - 1], replies[..|ops| - 1]), ops[|ops| - 1], replies[|ops| - 1])
  }

  /** The only replies an operation can give on the map m. */
  ghost predicate Answers<K, V>(m: map<K, V>, op: Op<K, V>, reply: Reply<V>) {
    match op
    case Find(k) => reply == if k in m then Found(m[k]) else Missing
    case Store(_, _, mem) => reply == Done || (reply == OutOfMemory && mem != PLENTY)
    case Remove(_) => reply == Done
    case Rehash(_, mem) => reply == Done || (reply in {OutOfMemory, Lost} && mem != PLENTY)
  }

  /** What kh_put can cope with: a key that is there, or fewer than 2^31 others. */
  predicate Fits<K(==), V>(m: map<K, V>, op: Op<K, V>) {
    op.Store? ==> op.key in m || |m| < CEILING
  }

  method PutValue<K(==, 0, !new), V(0, !new)>(h: Table32<K, V>, key: K, val: V, mem: Memory) returns (ok: bool)
    requires h.Valid() && (key in h.contents || |h.contents| < CEILING)
    modifies h, h.flags, h.keys, h.vals
    ensures h.Valid() && h.contents == if ok then old(h.contents)[key := val] else old(h.contents)
    ensures !ok ==> mem != PLENTY
    ensures (h.flags == old(h.flags) || fresh(h.flags))
    ensures (h.keys == old(h.keys) || fresh(h.keys)) && (h.vals == old(h.vals) || fresh(h.vals))
  {
    hide Table, Occupied, Upper, Capacity, Unpacked;
    var x, ret := h.Put(key, mem);
    if ret == -1 {
      return false;
    }
    LocatedIsLive(h, key);
    h.SetValue(x, val);
    return true;
  }

  method Discard<K(==, 0, !new), V(0, !new)>(h: Table32<K, V>, key: K)
    requires h.Valid()
    modifies h, h.flags, h.keys, h.vals
    ensures h.Valid() && h.contents == old(h.contents) - {key}
    ensures (h.flags == old(h.flags) || fresh(h.flags))
    ensures (h.keys == old(h.keys) || fresh(h.keys)) && (h.vals == old(h.vals) || fresh(h.vals))
  {
    hide Table, Occupied, Upper, Capacity, IsPow2, Unpacked;
    var x := h.Get(key);
    assert key !in h.contents ==> h.contents - {key} == h.contents;
    h.Del(x);
  }

  method LookUp<K(==, 0, !new), V(0, !new)>(h: Table32<K, V>, key: K) returns (reply: Reply<V>)
    requires h.Valid()
    ensures reply == if key in h.contents then Found(h.contents[key]) else Missing
  {
    hide Table, Occupied, Upper, Capacity, Unpacked;
    var x := h.Get(key);
    reply := if x != h.n_buckets then Found(h.vals[x]) else Missing;
  }

  /** One operation, as its callers write it. */
  method Step<K(==, 0, !new), V(0, !new)>(h: Table32<K, V>, op: Op<K, V>) returns (reply: Reply<V>)
    requires h.Valid() && Fits(h.contents, op)
    modifies h, h.flags, h.keys, h.vals
    ensures Answers(old(h.contents), op, reply)
    ensures reply != Lost ==> h.Valid() && h.contents == Applied(old(h.contents), op, reply)
    ensures (h.flags == old(h.flags) || fresh(h.flags))
    ensures (h.keys == old(h.keys) || fresh(h.keys)) && (h.vals == old(h.vals) || fresh(h.vals))
  {
    hide Table, Occupied, Upper, Capacity, Unpacked, Table32.Valid, Table32.Buckets;
    match op {
      case Find(key) =>
        reply := LookUp(h, key);
      case Store(key, val, mem) =>
        var ok := PutValue(h, key, val, mem);
        reply := if ok then Done else OutOfMemory;
      case Remove(key) =>
        Discard(h, key);
        reply := Done;
      case Rehash(request, mem) =>
        reply := Resized(h, request, mem);
    }
  }

  /** kh_resize, and whether the table outlived it. */
  method Resized<K(==, 0, !new), V(0, !new)>(h: Table32<K, V>, request: bv32, mem: Memory) returns (reply: Reply<V>)
    requires h.Valid()
    modifies h, h.flags, h.keys, h.vals
    ensures reply == Done || (reply in {OutOfMemory, Lost} && mem != PLENTY)
    ensures reply != Lost ==> h.Valid() && h.contents == old(h.contents)
    ensures (h.flags == old(h.flags) || fresh(h.flags))
    ensures (h.keys == old(h.keys) || fresh(h.keys)) && (h.vals == old(h.vals) || fresh(h.vals))
  {
    hide Table, Occupied, Upper, Capacity, Unpacked;
    var n := h.n_buckets;
    var r := h.Resize(request, mem);
    reply := if r < 0 then OutOfMemory
             else if h.n_buckets < n && !(mem.keys && mem.vals) then Lost
             else Done;
  }

  lemma LocatedIsLive<K(0, !new), V(0, !new)>(h: Table32<K, V>, key: K)
    requires h.Valid() && key in h.contents
    ensures key in h.loc && h.loc[key] < h.n_buckets && Live(h.Flags()[h.loc[key]])
  {
    KeyIsLocated(h.hash, h.Flags(), h.keys[..], h.vals[..], h.contents, h.loc, key);
  }

  /** Operations that every map along the run can take, were none to fail. */
  ghost predicate AllFit<K(!new), V(!new)>(m: map<K, V>, ops: seq<Op<K, V>>) {
    forall i :: 0 <= i < |ops| ==> Fits(ApplyAll(m, ops[..i], AllDone(i)), ops[i])
  }

  function AllDone<V>(n: nat): seq<Reply<V>> {
    seq(n, _ => Done)
  }

  /** Failures only make the map smaller. */
  lemma {:induction false} FailuresShrink<K(!new), V(!new)>(m: map<K, V>, ops: seq<Op<K, V>>, replies: seq<Reply<V>>)
    requires |replies| == |ops| && forall i :: 0 <= i < |ops| && replies[i] == OutOfMemory ==> !ops[i].Remove?
    ensures ApplyAll(m, ops, replies).Keys <= ApplyAll(m, ops, AllDone(|ops|)).Keys
    decreases |ops|
  {
    if ops != [] {
      var n := |ops| - 1;
      FailuresShrink(m, ops[..n], replies[..n]);
      assert AllDone<V>(|ops|)[..n] == AllDone<V>(n);
      FailureShrinks(ApplyAll(m, ops[..n], replies[..n]), ApplyAll(m, ops[..n], AllDone(n)), ops[n], replies[n]);
    }
  }

  lemma FailureShrinks<K, V>(small: map<K, V>, big: map<K, V>, op: Op<K, V>, reply: Reply<V>)
    requires small.Keys <= big.Keys && (reply == OutOfMemory ==> !op.Remove?)
    ensures Applied(small, op, reply).Keys <= Applied(big, op, Done).Keys
  {
    match op
    case Store(k, v, _) => assert big[k := v].Keys == big.Keys + {k}; assert small[k := v].Keys == small.Keys + {k};
    case Remove(k) => assert (big - {k}).Keys == big.Keys - {k}; assert (small - {k}).Keys == small.Keys - {k};
    case _ =>
  }

  /** Along operations that all fit the map never outgrows the table. */
  lemma {:induction false} NeverTooMany<K(!new), V(!new)>(m: map<K, V>, ops: seq<Op<K, V>>)
    requires |m| <= CEILING && AllFit(m, ops)
    ensures |ApplyAll(m, ops, AllDone(|ops|))| <= CEILING
    decreases |ops|
  {
    hide Fits, Applied;
    if ops != [] {
      var n := |ops| - 1;
      forall i | 0 <= i < n ensures Fits(ApplyAll(m, ops[..n][..i], AllDone(i)), ops[..n][i]) {
        assert ops[..n][..i] == ops[..i];
      }
      NeverTooMany(m, ops[..n]);
      assert AllDone<V>(|ops|)[..n] == AllDone<V>(n);
      StaysSmall(ApplyAll(m, ops[..n], AllDone(n)), ops[n]);
    }
  }

  lemma StaysSmall<K, V>(m: map<K, V>, op: Op<K, V>)
    requires |m| <= CEILING && Fits(m, op)
    ensures |Applied(m, op, Done)| <= CEILING
  {
    assert |m| == |m.Keys| && |Apply(m, op)| == |Apply(m, op).Keys|;
    match op
    case Store(k, v, _) =>
      assert m[k := v].Keys == m.Keys + {k};
      if k in m { assert m.Keys + {k} == m.Keys; }
    case Remove(k) => assert (m - {k}).Keys == m.Keys - {k};
    case _ =>
  }

  lemma FewerKeysFit<K, V>(small: map<K, V>, big: map<K, V>, op: Op<K, V>)
    requires small.Keys <= big.Keys && |big| <= CEILING && Fits(big, op)
    ensures Fits(small, op)
  {
    assert |small| == |small.Keys| && |big| == |big.Keys|;
    SubsetCount(small.Keys, big.Keys);
    if op.Store? && op.key in big && op.key !in small {
      assert small.Keys <= big.Keys - {op.key};
      SubsetCount(small.Keys, big.Keys - {op.key});
    }
  }

  lemma SizeBound<K(0, !new), V(0, !new)>(h: Table32<K, V>)
    requires h.Valid()
    ensures |h.contents| <= CEILING
  {
    h.LiveCount();
  }

  /** Every run of operations on a table is a run on a finite map: the replies are those the
      map gives at every point, the contents at the end are the map's, whatever rehashing
      went on in between; what fails for want of memory changes nothing.  The run ends early
      only if an explicit resize loses the table. */
  method Run<K(==, 0, !new), V(0, !new)>(h: Table32<K, V>, ops: seq<Op<K, V>>) returns (replies: seq<Reply<V>>)
    requires h.Valid() && AllFit(h.contents, ops)
    modifies h, h.flags, h.keys, h.vals
    ensures |replies| <= |ops|
    ensures forall i :: 0 <= i < |replies| ==>
              Answers(ApplyAll(old(h.contents), ops[..i], replies[..i]), ops[i], replies[i])
    ensures Lost !in replies ==>
            |replies| == |ops| && h.Valid() && h.contents == ApplyAll(old(h.contents), ops, replies)
    ensures Lost in replies ==> replies[|replies| - 1] == Lost && Lost !in replies[..|replies| - 1]
  {
    hide Table, Occupied, Upper, Answers, Applied, Apply, Fits, AllFit, IsPow2, Table32.Buckets, Table32.Valid,
         ApplyAll;
    SizeBound(h);
    replies := [];
    NothingApplied(h.contents, ops);
    for i := 0 to |ops|
      invariant |replies| == i && Lost !in replies
      invariant h.Valid() && h.contents == ApplyAll(old(h.contents), ops[..i], replies)
      invariant forall j :: 0 <= j < i ==>
                  Answers(ApplyAll(old(h.contents), ops[..j], replies[..j]), ops[j], replies[j])
      invariant (h.flags == old(h.flags) || fresh(h.flags))
      invariant (h.keys == old(h.keys) || fresh(h.keys)) && (h.vals == old(h.vals) || fresh(h.vals))
    {
      NextFits(old(h.contents), ops, replies, i);
      ghost var before := replies;
      var reply := Step(h, ops[i]);
      replies := replies + [reply];
      assert replies[..i] == before;
      OneMoreApplied(old(h.contents), ops, before, reply, i);
      assert forall j :: 0 <= j < i ==> replies[..j] == before[..j];
      if reply == Lost {
        return;
      }
    }
    assert ops[..|ops|] == ops;
  }

  lemma NothingApplied<K, V>(m: map<K, V>, ops: seq<Op<K, V>>)
    ensures ApplyAll(m, ops[..0], []) == m
  {
  }

  lemma OneMoreApplied<K, V>(m: map<K, V>, ops: seq<Op<K, V>>, replies: seq<Reply<V>>, reply: Reply<V>, i: nat)
    requires i == |replies| < |ops|
    ensures ApplyAll(m, ops[..i + 1], replies + [reply]) == Applied(ApplyAll(m, ops[..i], replies), ops[i], reply)
  {
    hide Applied;
    assert (replies + [reply])[..i] == replies && ops[..i + 1][..i] == ops[..i];
  }

  lemma NextFits<K(!new), V(!new)>(m: map<K, V>, ops: seq<Op<K, V>>, replies: seq<Reply<V>>, i: nat)
    requires |m| <= CEILING && AllFit(m, ops) && i == |replies| < |ops|
    requires forall j :: 0 <= j < i ==> Answers(ApplyAll(m, ops[..j], replies[..j]), ops[j], replies[j])
    ensures Fits(ApplyAll(m, ops[..i], replies), ops[i])
  {
    hide Fits, ApplyAll;
    forall j | 0 <= j < i && replies[j] == OutOfMemory ensures !ops[..i][j].Remove? {
      assert Answers(ApplyAll(m, ops[..j], replies[..j]), ops[j], replies[j]);
    }
    FailuresShrink(m, ops[..i], replies);
    forall j | 0 <= j < i ensures Fits(ApplyAll(m, ops[..i][..j], AllDone(j)), ops[..i][j]) {
      assert ops[..i][..j] == ops[..j];
    }
    NeverTooMany(m, ops[..i]);
    FewerKeysFit(ApplyAll(m, ops[..i], replies), ApplyAll(m, ops[..i], AllDone(i)), ops[i]);
  }

  // ----- the table that cannot grow -----

  /** A table of 2^31 live buckets, key k in bucket k. */
  method FullTable() returns (t: Table32<nat, bool>)
    ensures fresh(t) && fresh(t.flags) && fresh(t.keys) && fresh(t.vals)
    ensures t.Valid() && t.size == CEILING
    ensures forall k: nat :: k in t.contents <==> k < CEILING
  {
    hide Table, Upper, Occupied, IsPow2, Table32.Valid, Table32.Buckets, Below, Unpacked;
    var hash: nat -> nat := k => k;
    var flags := new bv32[CEILING / 16](_ => 0);
    forall i | 0 <= i < CEILING ensures Unpacked(flags[..], CEILING)[i] == LIVE {
      UnpackedAt(flags[..], CEILING, i);
      ZeroIsLive(i % 16);
    }
    var keys := new nat[CEILING](i requires i >= 0 => i);
    var vals := new bool[CEILING](_ => true);
    ghost var contents: map<nat, bool> := map k | k in Below(CEILING) :: true;
    ghost var loc: map<nat, nat> := map k | k in Below(CEILING) :: k;
    FullTableIsTable(hash, Unpacked(flags[..], CEILING), keys[..], vals[..], contents, loc);
    t := Assembled(hash, flags, keys, vals, contents, loc);
  }

  lemma ZeroIsLive(k: nat)
    requires k < 16
    ensures FlagOf(0, k) == LIVE
  {
  }

  /** A table put together by hand. */
  method Assembled(hash: nat -> nat, flags: array<bv32>, keys: array<nat>, vals: array<bool>,
                   ghost contents: map<nat, bool>, ghost loc: map<nat, nat>) returns (t: Table32<nat, bool>)
    requires 16 * flags.Length == keys.Length == vals.Length == CEILING && IsPow2(CEILING)
    requires (flags as object) != keys && (flags as object) != vals && (keys as object) != vals
    requires Table(hash, Unpacked(flags[..], CEILING), keys[..], vals[..], contents, loc)
    requires |contents| == CEILING == |Occupied(Unpacked(flags[..], CEILING))|
    ensures fresh(t) && t.flags == flags && t.keys == keys && t.vals == vals && t.contents == contents
    ensures t.Valid() && t.size == CEILING
  {
    hide Table, Upper, Occupied, IsPow2, Unpacked;
    t := new Table32<nat, bool>(hash);
    t.n_buckets, t.size, t.n_occupied, t.upper_bound := CEILING, CEILING, CEILING, Upper(CEILING);
    t.flags, t.keys, t.vals, t.contents, t.loc := flags, keys, vals, contents, loc;
  }

  lemma FullTableIsTable(hash: nat -> nat, fs: seq<Flag>, ks: seq<nat>, vs: seq<bool>, m: map<nat, bool>,
                         loc: map<nat, nat>)
    requires |fs| == |ks| == |vs| == CEILING && forall k: nat :: hash(k) == k
    requires forall i :: 0 <= i < CEILING ==> fs[i] == LIVE && ks[i] == i && vs[i]
    requires m.Keys == loc.Keys && forall k: nat :: k in loc <==> k < CEILING
    requires forall k: nat :: k in loc ==> loc[k] == k && m[k]
    ensures Table(hash, fs, ks, vs, m, loc) && |m| == CEILING == |Occupied(fs)|
    ensures IsPow2(CEILING)
  {
    Powers();
    assert IsPow2(CEILING) by { assert CEILING == Pow2(31); }
    assert m.Keys == Below(CEILING);
    ThatMany(fs, m);
    AllLiveTable(hash, fs, ks, vs, m, loc);
  }

  lemma AllLiveTable(hash: nat -> nat, fs: seq<Flag>, ks: seq<nat>, vs: seq<bool>, m: map<nat, bool>,
                     loc: map<nat, nat>)
    requires IsPow2(|fs|) && |fs| == |ks| == |vs|
    requires forall i :: 0 <= i < |fs| ==> fs[i] == LIVE && ks[i] == i && vs[i]
    requires m.Keys == loc.Keys && forall k: nat :: k in loc <==> k < |fs|
    requires forall k: nat :: k in loc ==> loc[k] == k && m[k]
    ensures Table(hash, fs, ks, vs, m, loc)
  {
    hide PathTo, IsPow2;
    forall i: nat, home: nat | i < |fs| ensures PathTo(fs, home, i) {
      AllLivePath(fs, home, i);
    }
    assert Shape(fs);
  }

  lemma AllLivePath(fs: seq<Flag>, home: nat, i: nat)
    requires IsPow2(|fs|) && i < |fs| && forall j :: 0 <= j < |fs| ==> fs[j] == LIVE
    ensures PathTo(fs, home, i)
  {
  }

  lemma ThatMany(fs: seq<Flag>, m: map<nat, bool>)
    requires |fs| == CEILING && forall i :: 0 <= i < CEILING ==> fs[i] == LIVE
    requires m.Keys == Below(CEILING)
    ensures |m| == CEILING == |Occupied(fs)|
  {
    assert Occupied(fs) == Below(CEILING);
    BelowCount(CEILING);
    assert |m| == |m.Keys|;
  }

  /** The input on which kh_put fails: one key more.  It reports a key that is present, and
      hands out the bucket of key 0. */
  method OneKeyTooMany() returns (t: Table32<nat, bool>, x: nat, ret: int)
    ensures ret == 0 && x < t.keys.Length && t.keys[x] != CEILING && CEILING !in t.contents
  {
    hide Table, Occupied, Upper, Unpacked;
    t := FullTable();
    x, ret := t.Put(CEILING, PLENTY);
  }

  lemma RoomForOneMore(s: seq<nat>, i: nat)
    requires i < |s|
    ensures s[i] in Elements(s[..i]) || |Elements(s[..i])| < |Elements(s)|
  {
    if s[i] !in Elements(s[..i]) {
      assert Elements(s[..i]) + {s[i]} <= Elements(s);
      SubsetCount(Elements(s[..i]) + {s[i]}, Elements(s));
    }
  }

  // ----- the table that is lost -----

  /** The input on which kh_resize loses a table: one that has grown to 8 buckets is cut down
      to 4, and there is no memory for the keys. */
  method TableIsLost() returns (t: Table32<nat, bool>, grown: int, cut: int)
    ensures grown == 0 && cut == 0 && t.contents == map[] && !t.Buckets()
  {
    hide Table, Occupied, Upper, Capacity, IsPow2, Unpacked, Table32.Buckets;
    FourAndEight();
    t := new Table32<nat, bool>(k => k);
    assert t.size == 0 by { SizeOfTable(t); }
    grown := t.Resize(8, PLENTY);
    cut := t.Resize(4, Memory(true, false, true));
  }

  lemma FourAndEight()
    ensures Capacity(4) == 4 && Capacity(8) == 8 && 0 < Upper(4) && 0 < Upper(8)
  {
  }

  lemma SizeOfTable<K(0, !new), V(0, !new)>(h: Table32<K, V>)
    requires h.Buckets()
    ensures h.size == |h.contents|
  {
  }

  /** The "not seen yet, so remember it" step on a hash set (the values are unused).  Whether
      it could be remembered is not asked. */
  method SeenFirst(h: Table32<nat, bool>, id: nat, mem: Memory) returns (isNew: bool)
    requires h.Valid()
    modifies h, h.flags, h.keys, h.vals
    ensures h.Valid()
    ensures isNew <==> id !in old(h.contents)
    ensures h.contents.Keys == old(h.contents.Keys) || h.contents.Keys == old(h.contents.Keys) + {id}
    ensures mem == PLENTY && (|old(h.contents)| < CEILING || !isNew) ==> id in h.contents
    ensures (h.flags == old(h.flags) || fresh(h.flags))
    ensures (h.keys == old(h.keys) || fresh(h.keys)) && (h.vals == old(h.vals) || fresh(h.vals))
  {
    hide Table, Occupied, Upper, Unpacked;
    var x := h.Get(id);
    isNew := x == h.n_buckets;
    if isNew {
      var y, discard := h.Put(id, mem);
    }
  }

  /** get_unique_state_count: each state is counted, by way of a hash set, and only once if
      there is memory for the set (and room: 2^31 states). */
  method GetUniqueStateCount(state_sequence: seq<nat>, mem: nat -> Memory) returns (result: nat)
    ensures |Elements(state_sequence)| <= result <= |state_sequence|
    ensures (forall i: nat :: i < |state_sequence| ==> mem(i) == PLENTY) && |Elements(state_sequence)| <= CEILING ==>
              result == |Elements(state_sequence)|
  {
    hide Table, Occupied, Upper, Unpacked, Counting, Table32.Valid, Table32.Buckets;
    ghost var plenty := (forall i: nat :: i < |state_sequence| ==> mem(i) == PLENTY) &&
      |Elements(state_sequence)| <= CEILING;
    var khs_state_ids := new Table32<nat, bool>(x => x);
    result := 0;
    NothingCounted(state_sequence, plenty);
    for i := 0 to |state_sequence|
      invariant khs_state_ids.Valid()
      invariant fresh(khs_state_ids) && fresh(khs_state_ids.flags) && fresh(khs_state_ids.keys) &&
                fresh(khs_state_ids.vals)
      invariant Counting(state_sequence, i, khs_state_ids.contents, result, plenty)
    {
      var state_id := state_sequence[i];
      ghost var before := khs_state_ids.contents;
      var isNew := SeenFirst(khs_state_ids, state_id, mem(i));
      OneMoreCounted(state_sequence, i, before, khs_state_ids.contents, result, plenty);
      if isNew {
        result := result + 1;
      }
    }
    AllCounted(state_sequence, khs_state_ids.contents, result, plenty);
  }

  /** In the middle of the count: the set holds states met so far, all of them if there is
      memory and room enough, and then each has been counted once. */
  ghost predicate Counting(s: seq<nat>, i: nat, seen: map<nat, bool>, result: nat, plenty: bool)
    requires i <= |s|
  {
    && seen.Keys <= Elements(s[..i]) && |Elements(s[..i])| <= result <= i
    && (plenty ==> seen.Keys == Elements(s[..i]) && result == |Elements(s[..i])|)
  }

  lemma NothingCounted(s: seq<nat>, plenty: bool)
    ensures Counting(s, 0, map[], 0, plenty)
  {
  }

  lemma OneMoreCounted(s: seq<nat>, i: nat, seen: map<nat, bool>, now: map<nat, bool>, result: nat, plenty: bool)
    requires i < |s| && Counting(s, i, seen, result, plenty)
    requires now.Keys == seen.Keys || now.Keys == seen.Keys + {s[i]}
    requires plenty ==> |Elements(s)| <= CEILING && (|seen| < CEILING || s[i] in seen ==> s[i] in now)
    ensures Counting(s, i + 1, now, result + if s[i] in seen then 0 else 1, plenty)
  {
    hide Elements;
    ElementsSnoc(s, i);
    RoomForOneMore(s, i);
    assert |seen| == |seen.Keys|;
    var met := Elements(s[..i]);
    if s[i] in met { assert met + {s[i]} == met; }
    if s[i] in seen { assert seen.Keys + {s[i]} == seen.Keys; }
  }

  lemma AllCounted(s: seq<nat>, seen: map<nat, bool>, result: nat, plenty: bool)
    requires Counting(s, |s|, seen, result, plenty)
    ensures |Elements(s)| <= result <= |s| && (plenty ==> result == |Elements(s)|)
  {
    assert s[..|s|] == s;
  }
}
