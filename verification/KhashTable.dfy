/** The state of a khash table as values: what a well-formed open-addressing table is,
    and what each single write to its arrays preserves. */
module KhashTable {
  import opened Probe

  /** The two flag bits of a bucket. */
  datatype Flag = Flag(empty: bool, del: bool)

  const EMPTY := Flag(true, false)
  const LIVE := Flag(false, false)
  const DELETED := Flag(false, true)

  predicate Live(f: Flag) {
    !f.empty && !f.del
  }

  ghost predicate Shape(fs: seq<Flag>) {
    |fs| == 0 || IsPow2(|fs|)
  }

  /** Every bucket the walk from `home` meets before bucket i is non-empty. */
  ghost predicate PathTo(fs: seq<Flag>, home: nat, i: nat)
    requires IsPow2(|fs|) && i < |fs|
  {
    forall s :: 0 <= s < StepOf(home, i, |fs|) ==> !fs[At(home, s, |fs|)].empty
  }

  /** Buckets that are not truly empty. */
  ghost function Occupied(fs: seq<Flag>): set<nat> {
    set i: nat | i < |fs| && !fs[i].empty
  }

  /** Bucket arrays fs, ks, vs represent the map m; `loc` says where each key lives. */
  ghost predicate Table<K(!new), V(!new)>(
      hash: K -> nat, fs: seq<Flag>, ks: seq<K>, vs: seq<V>, m: map<K, V>, loc: map<K, nat>) {
    && Shape(fs)
    && |fs| <= |ks| && |fs| <= |vs|
    && (forall i :: 0 <= i < |fs| ==> !(fs[i].empty && fs[i].del))
    && (forall i :: 0 <= i < |fs| && Live(fs[i]) ==>
          ks[i] in loc && loc[ks[i]] == i && PathTo(fs, hash(ks[i]), i))
    && loc.Keys == m.Keys
    && (forall k :: k in loc ==>
          loc[k] < |fs| && Live(fs[loc[k]]) && ks[loc[k]] == k && vs[loc[k]] == m[k])
  }

  lemma PathStopsAtEmpty(fs: seq<Flag>, home: nat, i: nat, step: nat)
    requires IsPow2(|fs|) && i < |fs| && PathTo(fs, home, i) && fs[At(home, step, |fs|)].empty
    ensures StepOf(home, i, |fs|) <= step
  {
  }

  lemma LiveBucketIsKnown<K(!new), V(!new)>(
      hash: K -> nat, fs: seq<Flag>, ks: seq<K>, vs: seq<V>, m: map<K, V>, loc: map<K, nat>, i: nat)
    requires Table(hash, fs, ks, vs, m, loc)
    requires i < |fs| && Live(fs[i])
    ensures ks[i] in m && ks[i] in loc && loc[ks[i]] == i && vs[i] == m[ks[i]]
  {
  }

  lemma KeyIsLocated<K(!new), V(!new)>(
      hash: K -> nat, fs: seq<Flag>, ks: seq<K>, vs: seq<V>, m: map<K, V>, loc: map<K, nat>, key: K)
    requires Table(hash, fs, ks, vs, m, loc) && key in m
    ensures key in loc && loc[key] < |fs| <= |ks| && |fs| <= |vs|
    ensures Live(fs[loc[key]]) && ks[loc[key]] == key && vs[loc[key]] == m[key]
    ensures IsPow2(|fs|) && PathTo(fs, hash(key), loc[key])
  {
  }

  // ----- walks in search of a key -----

  /** The first `step` buckets of the walk are not empty and do not hold the key. */
  ghost predicate PassedBy<K(!new)>(fs: seq<Flag>, ks: seq<K>, home: nat, key: K, step: nat)
    requires 0 < |fs| <= |ks|
  {
    forall s :: 0 <= s < step ==>
      var i := At(home, s, |fs|);
      !fs[i].empty && (fs[i].del || ks[i] != key)
  }

  ghost predicate NoTombstone(fs: seq<Flag>, home: nat, step: nat)
    requires 0 < |fs|
  {
    forall s :: 0 <= s < step ==> !fs[At(home, s, |fs|)].del
  }

  lemma NonePassed<K(!new)>(fs: seq<Flag>, ks: seq<K>, home: nat, key: K)
    requires 0 < |fs| <= |ks|
    ensures PassedBy(fs, ks, home, key, 0) && NoTombstone(fs, home, 0)
  {
  }

  lemma OneMorePassed<K(!new)>(fs: seq<Flag>, ks: seq<K>, home: nat, key: K, step: nat)
    requires 0 < |fs| <= |ks| && PassedBy(fs, ks, home, key, step)
    requires var i := At(home, step, |fs|); !fs[i].empty && (fs[i].del || ks[i] != key)
    ensures PassedBy(fs, ks, home, key, step + 1)
    ensures NoTombstone(fs, home, step) && !fs[At(home, step, |fs|)].del ==> NoTombstone(fs, home, step + 1)
  {
    hide At;
  }

  lemma AbsentAtEmpty<K(!new), V(!new)>(
      hash: K -> nat, fs: seq<Flag>, ks: seq<K>, vs: seq<V>, m: map<K, V>, loc: map<K, nat>, key: K, step: nat)
    requires Table(hash, fs, ks, vs, m, loc) && fs != []
    requires PassedBy(fs, ks, hash(key), key, step) && fs[At(hash(key), step, |fs|)].empty
    ensures key !in m
  {
    hide Table, At, PathTo;
    if key in m {
      KeyIsLocated(hash, fs, ks, vs, m, loc, key);
      var s := StepOf(hash(key), loc[key], |fs|);
      PathStopsAtEmpty(fs, hash(key), loc[key], step);
    }
  }

  lemma AbsentAfterFullWalk<K(!new), V(!new)>(
      hash: K -> nat, fs: seq<Flag>, ks: seq<K>, vs: seq<V>, m: map<K, V>, loc: map<K, nat>, key: K, step: nat)
    requires Table(hash, fs, ks, vs, m, loc) && 0 < |fs| <= step
    requires PassedBy(fs, ks, hash(key), key, step)
    ensures key !in m
  {
    hide Table, At, PathTo;
    if key in m {
      KeyIsLocated(hash, fs, ks, vs, m, loc, key);
      var s := StepOf(hash(key), loc[key], |fs|);
    }
  }

  lemma EarlyPath<K(!new)>(fs: seq<Flag>, ks: seq<K>, home: nat, key: K, step: nat)
    requires IsPow2(|fs|) && |fs| <= |ks| && PassedBy(fs, ks, home, key, step)
    ensures PathTo(fs, home, At(home, step, |fs|))
  {
    hide At;
    if step < |fs| { FirstEmpty(fs, home, step); }
  }

  /** A full walk over buckets neither empty nor deleted: all are live. */
  lemma NoFreeBucket<K(!new)>(fs: seq<Flag>, ks: seq<K>, home: nat, key: K, step: nat)
    requires IsPow2(|fs|) && |fs| <= |ks| && step >= |fs|
    requires PassedBy(fs, ks, home, key, step) && NoTombstone(fs, home, step)
    ensures forall e: nat :: e < |fs| ==> Live(fs[e])
    ensures ks[home % |fs|] != key
  {
    hide At;
    forall e: nat | e < |fs| ensures Live(fs[e]) {
      assert At(home, StepOf(home, e, |fs|), |fs|) == e;
    }
    WalkStart(home, |fs|);
  }

  /** The first empty bucket of a walk can be reached. */
  lemma FirstEmpty(fs: seq<Flag>, home: nat, step: nat)
    requires IsPow2(|fs|) && step < |fs|
    requires forall s :: 0 <= s < step ==> !fs[At(home, s, |fs|)].empty
    ensures PathTo(fs, home, At(home, step, |fs|))
  {
    StepOfUnique(home, step, |fs|);
  }

  lemma SetKeepsTable<K(!new), V(!new)>(
      hash: K -> nat, fs: seq<Flag>, ks: seq<K>, vs: seq<V>, m: map<K, V>, loc: map<K, nat>, i: nat, v: V)
    requires Table(hash, fs, ks, vs, m, loc) && i < |fs| && Live(fs[i])
    ensures Table(hash, fs, ks, vs[i := v], m[ks[i] := v], loc)
    ensures ks[i] in m
  {
    hide PathTo, Shape;
  }

  /** Buckets past the flags do not matter, so krealloc may grow or cut the arrays. */
  lemma TablePrefix<K(!new), V(!new)>(
      hash: K -> nat, fs: seq<Flag>, ks: seq<K>, vs: seq<V>, ks': seq<K>, vs': seq<V>, m: map<K, V>, loc: map<K, nat>)
    requires Table(hash, fs, ks, vs, m, loc)
    requires |fs| <= |ks'| && |fs| <= |vs'|
    requires forall i :: 0 <= i < |fs| ==> ks'[i] == ks[i] && vs'[i] == vs[i]
    ensures Table(hash, fs, ks', vs', m, loc)
  {
  }

  // ----- counting -----

  lemma {:induction false} ValuesAtMostKeys<K>(loc: map<K, nat>)
    ensures |loc.Values| <= |loc.Keys|
    decreases loc.Keys
  {
    if loc.Keys != {} {
      var k :| k in loc;
      var rest := loc - {k};
      assert rest.Keys == loc.Keys - {k};
      ValuesAtMostKeys(rest);
      assert loc.Values <= rest.Values + {loc[k]} by {
        forall v | v in loc.Values ensures v in rest.Values + {loc[k]} {
          var k' :| k' in loc && loc[k'] == v;
          if k' != k { assert k' in rest && rest[k'] == v; }
        }
      }
      SubsetCount(loc.Values, rest.Values + {loc[k]});
    }
  }

  lemma {:induction false} KeysAtMostValues<K>(loc: map<K, nat>)
    requires forall a, b :: a in loc && b in loc && loc[a] == loc[b] ==> a == b
    ensures |loc.Keys| <= |loc.Values|
    decreases loc.Keys
  {
    if loc.Keys != {} {
      var k :| k in loc;
      var rest := loc - {k};
      assert rest.Keys == loc.Keys - {k};
      KeysAtMostValues(rest);
      assert rest.Values <= loc.Values - {loc[k]} by {
        forall v | v in rest.Values ensures v in loc.Values - {loc[k]} {
          var k' :| k' in rest && rest[k'] == v;
          assert k' in loc && loc[k'] == v;
        }
      }
      assert loc[k] in loc.Values;
      SubsetCount(rest.Values, loc.Values - {loc[k]});
    }
  }

  lemma OccupiedBound(fs: seq<Flag>)
    ensures |Occupied(fs)| <= |fs|
    ensures |Occupied(fs)| < |fs| ==> exists e: nat :: e < |fs| && fs[e].empty
    ensures |Occupied(fs)| == |fs| ==> forall e: nat :: e < |fs| ==> !fs[e].empty
  {
    BelowCount(|fs|);
    SubsetCount(Occupied(fs), Below(|fs|));
    if |Occupied(fs)| == |fs| {
      SubsetSameCount(Occupied(fs), Below(|fs|));
      forall e: nat | e < |fs| ensures !fs[e].empty { assert e in Below(|fs|); }
    } else if forall e: nat :: e < |fs| ==> !fs[e].empty {
      assert Below(|fs|) <= Occupied(fs);
      SubsetCount(Below(|fs|), Occupied(fs));
    }
  }

  /** Live buckets are as many as keys, so never more than the non-empty buckets. */
  lemma SizeAtMostOccupied<K(!new), V(!new)>(
      hash: K -> nat, fs: seq<Flag>, ks: seq<K>, vs: seq<V>, m: map<K, V>, loc: map<K, nat>)
    requires Table(hash, fs, ks, vs, m, loc)
    ensures |m| <= |Occupied(fs)|
  {
    KeysAtMostValues(loc);
    assert loc.Values <= Occupied(fs);
    SubsetCount(loc.Values, Occupied(fs));
    assert |m| == |m.Keys|;
  }

  /** The live buckets are exactly the buckets of the keys. */
  lemma BucketsOfKeys<K(!new), V(!new)>(
      hash: K -> nat, fs: seq<Flag>, ks: seq<K>, vs: seq<V>, m: map<K, V>, loc: map<K, nat>)
    requires Table(hash, fs, ks, vs, m, loc)
    ensures |m| <= |fs|
    ensures |m| == |fs| <==> forall e: nat :: e < |fs| ==> Live(fs[e])
  {
    KeysAtMostValues(loc);
    ValuesAtMostKeys(loc);
    assert |m| == |m.Keys|;
    BelowCount(|fs|);
    assert loc.Values <= Below(|fs|);
    SubsetCount(loc.Values, Below(|fs|));
    if |m| == |fs| {
      SubsetSameCount(loc.Values, Below(|fs|));
      forall e: nat | e < |fs| ensures Live(fs[e]) {
        assert e in loc.Values;
        var k :| k in loc && loc[k] == e;
      }
    } else if forall e: nat :: e < |fs| ==> Live(fs[e]) {
      forall e | e in Below(|fs|) ensures e in loc.Values {
        assert Live(fs[e]);
        assert loc[ks[e]] == e;
      }
      SubsetCount(Below(|fs|), loc.Values);
    }
  }

  // ----- single writes -----

  lemma PathGrows(fs: seq<Flag>, fs': seq<Flag>, home: nat, i: nat)
    requires IsPow2(|fs|) && |fs'| == |fs| && i < |fs|
    requires forall j :: 0 <= j < |fs| && fs'[j].empty ==> fs[j].empty
    requires PathTo(fs, home, i)
    ensures PathTo(fs', home, i)
  {
  }

  /** kh_put's write: a key that is absent goes to a bucket that is not live. */
  lemma InsertKeepsTable<K(!new), V(!new)>(
      hash: K -> nat, fs: seq<Flag>, ks: seq<K>, vs: seq<V>, m: map<K, V>, loc: map<K, nat>, x: nat, key: K)
    requires Table(hash, fs, ks, vs, m, loc)
    requires key !in m && x < |fs| && !Live(fs[x]) && PathTo(fs, hash(key), x)
    ensures Table(hash, fs[x := LIVE], ks[x := key], vs, m[key := vs[x]], loc[key := x])
    ensures |m[key := vs[x]]| == |m| + 1
    ensures |Occupied(fs[x := LIVE])| == |Occupied(fs)| + if fs[x].empty then 1 else 0
  {
    var fs', ks', loc' := fs[x := LIVE], ks[x := key], loc[key := x];
    forall i | 0 <= i < |fs'| && Live(fs'[i])
      ensures ks'[i] in loc' && loc'[ks'[i]] == i && PathTo(fs', hash(ks'[i]), i)
    {
      PathGrows(fs, fs', hash(ks'[i]), i);
    }
    assert Occupied(fs') == Occupied(fs) + {x};
    if !fs[x].empty { assert Occupied(fs') == Occupied(fs); }
  }

  /** kh_del's write. */
  lemma DeleteKeepsTable<K(!new), V(!new)>(
      hash: K -> nat, fs: seq<Flag>, ks: seq<K>, vs: seq<V>, m: map<K, V>, loc: map<K, nat>, x: nat)
    requires Table(hash, fs, ks, vs, m, loc)
    requires x < |fs| && Live(fs[x])
    ensures Table(hash, fs[x := DELETED], ks, vs, m - {ks[x]}, loc - {ks[x]})
    ensures |m - {ks[x]}| == |m| - 1
    ensures |Occupied(fs[x := DELETED])| == |Occupied(fs)|
  {
    var fs' := fs[x := DELETED];
    forall i | 0 <= i < |fs'| && Live(fs'[i]) ensures PathTo(fs', hash(ks[i]), i) {
      PathGrows(fs, fs', hash(ks[i]), i);
    }
    assert Occupied(fs') == Occupied(fs);
    assert (m - {ks[x]}).Keys == m.Keys - {ks[x]} && |m.Keys| == |m|;
  }

  // ----- in-place rehash -----

  /** The middle of kh_resize: old flags `fs` mark the entries still waiting, new flags
      `nf` the entries already placed, and both share the arrays ks and vs.  `loc` locates
      every entry except the one in flight. */
  ghost predicate Rehashing<K(!new), V(!new)>(
      hash: K -> nat, fs: seq<Flag>, nf: seq<Flag>, ks: seq<K>, vs: seq<V>, m: map<K, V>, loc: map<K, nat>) {
    && IsPow2(|nf|)
    && |fs| <= |ks| && |fs| <= |vs| && |nf| <= |ks| && |nf| <= |vs|
    && (forall i :: 0 <= i < |nf| ==> nf[i] == EMPTY || nf[i] == LIVE)
    && (forall i :: 0 <= i < |nf| && i < |fs| && nf[i] == LIVE ==> !Live(fs[i]))
    && (forall i :: 0 <= i < |fs| && Live(fs[i]) ==> ks[i] in loc && loc[ks[i]] == i)
    && (forall i :: 0 <= i < |nf| && nf[i] == LIVE ==>
          ks[i] in loc && loc[ks[i]] == i && PathTo(nf, hash(ks[i]), i))
    && loc.Keys <= m.Keys
    && (forall k :: k in loc ==>
          && (|| (loc[k] < |fs| && Live(fs[loc[k]]))
              || (loc[k] < |nf| && nf[loc[k]] == LIVE))
          && ks[loc[k]] == k && vs[loc[k]] == m[k])
  }

  /** The buckets whose entries have not been picked up yet. */
  ghost function Waiting(fs: seq<Flag>): set<nat> {
    set i: nat | i < |fs| && Live(fs[i])
  }

  lemma WaitingShrinks(fs: seq<Flag>, i: nat)
    requires i < |fs| && Live(fs[i])
    ensures i in Waiting(fs) && Waiting(fs[i := DELETED]) == Waiting(fs) - {i}
  {
  }

  ghost predicate InFlight<K, V>(m: map<K, V>, loc: map<K, nat>, key: K, val: V) {
    key !in loc && m.Keys == loc.Keys + {key} && m[key] == val
  }

  lemma RehashStarts<K(!new), V(!new)>(
      hash: K -> nat, fs: seq<Flag>, nf: seq<Flag>, ks: seq<K>, vs: seq<V>, m: map<K, V>, loc: map<K, nat>)
    requires Table(hash, fs, ks, vs, m, loc)
    requires IsPow2(|nf|) && |nf| <= |ks| && |nf| <= |vs|
    requires forall i :: 0 <= i < |nf| ==> nf[i] == EMPTY
    ensures Rehashing(hash, fs, nf, ks, vs, m, loc) && loc.Keys == m.Keys
  {
  }

  /** Picking the waiting entry of bucket j up. */
  lemma PickUp<K(!new), V(!new)>(
      hash: K -> nat, fs: seq<Flag>, nf: seq<Flag>, ks: seq<K>, vs: seq<V>, m: map<K, V>, loc: map<K, nat>, j: nat)
    requires Rehashing(hash, fs, nf, ks, vs, m, loc) && loc.Keys == m.Keys
    requires j < |fs| && Live(fs[j])
    ensures Rehashing(hash, fs[j := DELETED], nf, ks, vs, m, loc - {ks[j]})
    ensures InFlight(m, loc - {ks[j]}, ks[j], vs[j])
  {
  }

  /** Placing the entry in flight in bucket i; a waiting entry there is picked up. */
  lemma Place<K(!new), V(!new)>(
      hash: K -> nat, fs: seq<Flag>, nf: seq<Flag>, ks: seq<K>, vs: seq<V>, m: map<K, V>, loc: map<K, nat>, key: K,
        val: V, i: nat)
    requires Rehashing(hash, fs, nf, ks, vs, m, loc) && InFlight(m, loc, key, val)
    requires i < |nf| && nf[i].empty && PathTo(nf, hash(key), i)
    ensures nf[i] == EMPTY
    ensures var kick := i < |fs| && Live(fs[i]);
            var fs' := if kick then fs[i := DELETED] else fs;
            var loc' := (if kick then loc - {ks[i]} else loc)[key := i];
            && Rehashing(hash, fs', nf[i := LIVE], ks[i := key], vs[i := val], m, loc')
            && (if kick then InFlight(m, loc', ks[i], vs[i]) else loc'.Keys == m.Keys)
  {
    var kick := i < |fs| && Live(fs[i]);
    var fs' := if kick then fs[i := DELETED] else fs;
    var loc' := (if kick then loc - {ks[i]} else loc)[key := i];
    var nf', ks', vs' := nf[i := LIVE], ks[i := key], vs[i := val];
    forall j | 0 <= j < |nf'| && nf'[j] == LIVE
      ensures ks'[j] in loc' && loc'[ks'[j]] == j && PathTo(nf', hash(ks'[j]), j)
    {
      PathGrows(nf, nf', hash(ks'[j]), j);
    }
  }

  /** Fewer entries than buckets leave a truly empty bucket for the entry in flight. */
  lemma RoomToPlace<K(!new), V(!new)>(
      hash: K -> nat, fs: seq<Flag>, nf: seq<Flag>, ks: seq<K>, vs: seq<V>, m: map<K, V>, loc: map<K, nat>)
    requires Rehashing(hash, fs, nf, ks, vs, m, loc) && |m| < |nf|
    ensures exists e: nat :: e < |nf| && nf[e].empty
  {
    assert Occupied(nf) <= loc.Values by {
      forall i | i in Occupied(nf) ensures i in loc.Values { assert loc[ks[i]] == i; }
    }
    SubsetCount(Occupied(nf), loc.Values);
    ValuesAtMostKeys(loc);
    SubsetCount(loc.Keys, m.Keys);
    assert |m| == |m.Keys|;
    OccupiedBound(nf);
  }

  /** When nothing waits any more the new flags alone describe the same map. */
  lemma RehashEnds<K(!new), V(!new)>(
      hash: K -> nat, fs: seq<Flag>, nf: seq<Flag>, ks: seq<K>, vs: seq<V>, m: map<K, V>, loc: map<K, nat>)
    requires Rehashing(hash, fs, nf, ks, vs, m, loc) && loc.Keys == m.Keys
    requires Waiting(fs) == {}
    ensures Table(hash, nf, ks, vs, m, loc)
    ensures |Occupied(nf)| == |m|
    ensures forall i :: 0 <= i < |nf| ==> !nf[i].del
  {
    assert forall i :: 0 <= i < |fs| && Live(fs[i]) ==> i in Waiting(fs);
    assert Occupied(nf) == loc.Values by {
      forall i | i in Occupied(nf) ensures i in loc.Values { assert loc[ks[i]] == i; }
    }
    ValuesAtMostKeys(loc);
    KeysAtMostValues(loc);
    assert |m| == |m.Keys|;
  }
}
