/** khash.h: an open-addressing hash table refining a finite map. */
module Khash {
  import opened Probe
  import opened RoundUp
  import opened KhashTable
  import opened FlagPack

  /** Which of kh_resize's allocations succeed. */
  datatype Memory = Memory(flags: bool, keys: bool, vals: bool)

  class Table32<K(==, 0, !new), V(0, !new)> {
    const hash: K -> nat

    var n_buckets: nat
    var size: nat
    var n_occupied: nat
    var upper_bound: nat
    var flags: array<bv32>      // two bits a bucket, sixteen buckets a word
    var keys: array<K>
    var vals: array<V>

    // The map the table stands for, and the bucket of each key.
    ghost var contents: map<K, V>
    ghost var loc: map<K, nat>

    /** The flags of the buckets, unpacked. */
    ghost function Flags(): (fs: seq<Flag>)
      requires n_buckets <= 16 * flags.Length
      reads this`n_buckets, this`flags, flags
      ensures |fs| == n_buckets
    {
      Unpacked(flags[..], n_buckets)
    }

    ghost predicate Buckets()
      reads this, flags, keys, vals
    {
      && n_buckets <= 16 * flags.Length
      && (flags as object) != keys && (flags as object) != vals && (keys as object) != vals
      && n_buckets <= keys.Length && n_buckets <= vals.Length
      && (n_buckets != 0 ==> 4 <= n_buckets <= CEILING && IsPow2(n_buckets))
      && Table(hash, Flags(), keys[..], vals[..], contents, loc)
      && size == |contents|
      && n_occupied == |Occupied(Flags())|
      && upper_bound == if n_buckets == 0 then 0 else Upper(n_buckets)
    }

    /** Between calls the load rule holds, except on a table that cannot grow any more. */
    ghost predicate Valid()
      reads this, flags, keys, vals
    {
      Buckets() && (n_occupied <= upper_bound || n_buckets == CEILING)
    }

    /** kh_init. */
    constructor (hash: K -> nat)
      ensures Valid() && fresh(this) && fresh(flags) && fresh(keys) && fresh(vals)
      ensures contents == map[] && this.hash == hash
    {
      this.hash := hash;
      n_buckets, size, n_occupied, upper_bound := 0, 0, 0, 0;
      flags := new bv32[0];
      keys := new K[0];
      vals := new V[0];
      contents, loc := map[], map[];
      new;
      assert Occupied(Flags()) == {};
    }

    /** kh_get: the key's bucket, or n_buckets.  Also right on a table with no empty bucket
        left: the walk then ends on its first return to the start. */
    method Get(key: K) returns (x: nat)
      requires Buckets()
      ensures key in contents ==> x < n_buckets && x == loc[key]
      ensures key in contents ==> Live(Flags()[x]) && keys[x] == key && vals[x] == contents[key]
      ensures key !in contents ==> x == n_buckets
    {
      hide Table, At, Pow2, Occupied, Upper, Unpacked, PassedBy;
      if n_buckets != 0 {
        var step := 0;
        ghost var home := hash(key);
        ghost var m := PowerOf(n_buckets);
        WalkStart(home, n_buckets);
        NonePassed(Flags(), keys[..], home, key);
        var i := hash(key) % n_buckets;
        var last := i;
        while !IsEmpty(flags, i, n_buckets) && (IsDel(flags, i, n_buckets) || keys[i] != key)
          invariant i == At(home, step, n_buckets) && last == home % n_buckets
          invariant step < 2 * n_buckets - 1 && PassedBy(Flags(), keys[..], home, key, step)
          decreases 2 * n_buckets - step
        {
          OneMorePassed(Flags(), keys[..], home, key, step);
          WalkStep(home, step, n_buckets);
          FirstReturn(home, m);
          step := step + 1;
          i := (i + step) % n_buckets;
          if i == last {
            AbsentAfterFullWalk(hash, Flags(), keys[..], vals[..], contents, loc, key, step);
            return n_buckets;
          }
        }
        if IsEmpty(flags, i, n_buckets) || IsDel(flags, i, n_buckets) {
          AbsentAtEmpty(hash, Flags(), keys[..], vals[..], contents, loc, key, step);
          return n_buckets;
        }
        LiveBucketIsKnown(hash, Flags(), keys[..], vals[..], contents, loc, i);
        return i;
      } else {
        NothingStored();
        return 0;
      }
    }

    lemma NothingStored()
      requires Buckets() && n_buckets == 0
      ensures contents == map[]
    {
    }

    /** The walk of kh_put: the key's own bucket, else a bucket to put it in.  On a table of
        live buckets only, an absent key is given the bucket its walk starts at. */
    method FindSlot(key: K) returns (x: nat)
      requires Buckets() && n_buckets != 0
      ensures x < n_buckets
      ensures key in contents ==> x == loc[key] && Live(Flags()[x]) && keys[x] == key
      ensures key !in contents && !AllLive() ==> !Live(Flags()[x]) && PathTo(Flags(), hash(key), x)
      ensures key !in contents && AllLive() ==> x == hash(key) % n_buckets && keys[x] != key
    {
      hide Table, PathTo, Occupied, Upper, Unpacked, At, Pow2, PassedBy, NoTombstone;
      var step := 0;
      ghost var home := hash(key);
      ghost var m := PowerOf(n_buckets);
      WalkStart(home, n_buckets);
      NonePassed(Flags(), keys[..], home, key);
      var site := n_buckets;
      x := n_buckets;
      var i := hash(key) % n_buckets;
      if IsEmpty(flags, i, n_buckets) {
        x := i;
        FreeAtEmpty(key, step);
      } else {
        var last := i;
        while !IsEmpty(flags, i, n_buckets) && (IsDel(flags, i, n_buckets) || keys[i] != key)
          invariant i == At(home, step, n_buckets) && last == home % n_buckets
          invariant step < 2 * n_buckets - 1 && x == n_buckets
          invariant PassedBy(Flags(), keys[..], home, key, step)
          invariant 0 <= site <= n_buckets
          invariant site < n_buckets ==> Flags()[site].del && PathTo(Flags(), home, site)
          invariant site == n_buckets ==> NoTombstone(Flags(), home, step)
          decreases 2 * n_buckets - step
        {
          if IsDel(flags, i, n_buckets) {
            site := i;
            EarlyPath(Flags(), keys[..], home, key, step);
          }
          OneMorePassed(Flags(), keys[..], home, key, step);
          WalkStep(home, step, n_buckets);
          FirstReturn(home, m);
          step := step + 1;
          i := (i + step) % n_buckets;
          if i == last {
            AbsentAfterFullWalk(hash, Flags(), keys[..], vals[..], contents, loc, key, step);
            if site == n_buckets { NoFreeBucket(Flags(), keys[..], home, key, step); }
            x := site;
            break;
          }
        }
        if x == n_buckets {
          if IsEmpty(flags, i, n_buckets) && site != n_buckets {
            FreeAtEmpty(key, step);
            x := site;
          } else {
            if IsEmpty(flags, i, n_buckets) {
              FreeAtEmpty(key, step);
            } else {
              LiveBucketIsKnown(hash, Flags(), keys[..], vals[..], contents, loc, i);
            }
            x := i;
          }
        }
      }
    }

    /** A walk that ends on an empty bucket: the key is absent, and may go there. */
    lemma FreeAtEmpty(key: K, step: nat)
      requires Buckets() && n_buckets != 0 && PassedBy(Flags(), keys[..], hash(key), key, step)
      requires Flags()[At(hash(key), step, n_buckets)].empty
      ensures key !in contents && !AllLive() && PathTo(Flags(), hash(key), At(hash(key), step, n_buckets))
    {
      hide Table, PassedBy, PathTo, Unpacked, At;
      AbsentAtEmpty(hash, Flags(), keys[..], vals[..], contents, loc, key, step);
      EarlyPath(Flags(), keys[..], hash(key), key, step);
    }

    /** No bucket is left to put a new key in. */
    ghost predicate AllLive()
      requires n_buckets <= 16 * flags.Length
      reads this, flags
    {
      forall e: nat :: e < n_buckets ==> Live(Flags()[e])
    }

    /** A live bucket for each key: so all buckets are live exactly when size is n_buckets. */
    lemma LiveCount()
      requires Buckets()
      ensures size <= n_buckets && (AllLive() <==> size == n_buckets)
    {
      BucketsOfKeys(hash, Flags(), keys[..], vals[..], contents, loc);
    }

    /** The kick-out loop of kh_resize, for the entry (key0, val0) picked up from its old bucket. */
    method KickOut(nf: array<bv32>, n': nat, key0: K, val0: V, ghost loc0: map<K, nat>)
      returns (ghost loc1: map<K, nat>)
      requires (nf as object) != flags && (nf as object) != keys && (nf as object) != vals
      requires (flags as object) != keys && (flags as object) != vals && (keys as object) != vals
      requires n_buckets <= 16 * flags.Length
      requires n' <= 16 * nf.Length && n' <= keys.Length && n' <= vals.Length && IsPow2(n')
      requires Rehashing(hash, Flags(), Unpacked(nf[..], n'), keys[..], vals[..], contents, loc0)
      requires InFlight(contents, loc0, key0, val0)
      requires |contents| < n'
      modifies flags, nf, keys, vals
      ensures Rehashing(hash, Flags(), Unpacked(nf[..], n'), keys[..], vals[..], contents, loc1)
      ensures loc1.Keys == contents.Keys
      ensures Waiting(Flags()) <= old(Waiting(Flags()))
    {
      hide Rehashing, InFlight, PathTo, Waiting, Unpacked;
      var key, val := key0, val0;
      loc1 := loc0;
      while true
        invariant Rehashing(hash, Flags(), Unpacked(nf[..], n'), keys[..], vals[..], contents, loc1)
        invariant InFlight(contents, loc1, key, val)
        invariant Waiting(Flags()) <= old(Waiting(Flags()))
        decreases Waiting(Flags())
      {
        RoomToPlace(hash, Flags(), Unpacked(nf[..], n'), keys[..], vals[..], contents, loc1);
        var i := FindEmpty(nf, n', key);
        Place(hash, Flags(), Unpacked(nf[..], n'), keys[..], vals[..], contents, loc1, key, val, i);
        ghost var kick := i < n_buckets && Live(Flags()[i]);
        loc1 := (if kick then loc1 - {keys[i]} else loc1)[key := i];
        if kick { WaitingShrinks(Flags(), i); }
        var again;
        again, key, val := PlaceOne(nf, n', i, key, val);
        if !again {
          break;
        }
      }
    }

    /** One round of the kick-out loop: bucket i gets the entry in flight, and the waiting
        entry that was there, if any, is in flight next. */
    method PlaceOne(nf: array<bv32>, n': nat, i: nat, key0: K, val0: V) returns (again: bool, key: K, val: V)
      requires (nf as object) != flags && (nf as object) != keys && (nf as object) != vals
      requires (flags as object) != keys && (flags as object) != vals && (keys as object) != vals
      requires n_buckets <= 16 * flags.Length
      requires i < n' <= 16 * nf.Length && n' <= keys.Length && n' <= vals.Length && Unpacked(nf[..], n')[i] == EMPTY
      modifies flags, nf, keys, vals
      ensures again == (i < n_buckets && Live(old(Flags()[i])))
      ensures Flags() == if again then old(Flags())[i := DELETED] else old(Flags())
      ensures Unpacked(nf[..], n') == old(Unpacked(nf[..], n'))[i := LIVE]
      ensures keys[..] == old(keys[..])[i := key0] && vals[..] == old(vals[..])[i := val0]
      ensures again ==> key == old(keys[i]) && val == old(vals[i])
    {
      key, val := key0, val0;
      SetIsEmptyFalse(nf, i, n');
      if i < n_buckets && !IsEither(flags, i, n_buckets) {
        keys[i], key := key, keys[i];
        vals[i], val := val, vals[i];
        SetIsDelTrue(flags, i, n_buckets);
        again := true;
      } else {
        keys[i] := key;
        vals[i] := val;
        again := false;
      }
    }

    /** The innermost walk of kh_resize. */
    method FindEmpty(nf: array<bv32>, n': nat, key: K) returns (i: nat)
      requires IsPow2(n') && n' <= 16 * nf.Length
      requires exists e: nat :: e < n' && Unpacked(nf[..], n')[e].empty
      ensures i < n' && Unpacked(nf[..], n')[i].empty && PathTo(Unpacked(nf[..], n'), hash(key), i)
    {
      hide Unpacked, At, StepOf, PathTo;
      ghost var home := hash(key);
      ghost var fs := Unpacked(nf[..], n');
      ghost var e: nat :| e < n' && fs[e].empty;
      var step := 0;
      i := hash(key) % n';
      WalkStart(home, n');
      while !IsEmpty(nf, i, n')
        invariant i == At(home, step, n') && step <= StepOf(home, e, n')
        invariant forall s :: 0 <= s < step ==> !fs[At(home, s, n')].empty
        decreases StepOf(home, e, n') - step
      {
        WalkStep(home, step, n');
        step := step + 1;
        i := (i + step) % n';
      }
      FirstEmpty(fs, home, step);
    }

    /** The rehash loop of kh_resize: afterwards the new flags describe the whole table. */
    method Rehash(nf: array<bv32>, n': nat)
      requires (nf as object) != flags && (nf as object) != keys && (nf as object) != vals
      requires (flags as object) != keys && (flags as object) != vals && (keys as object) != vals
      requires n_buckets <= 16 * flags.Length && n_buckets <= keys.Length && n_buckets <= vals.Length
      requires IsPow2(n') && n' <= 16 * nf.Length && n' <= keys.Length && n' <= vals.Length
      requires forall i :: 0 <= i < n' ==> Unpacked(nf[..], n')[i] == EMPTY
      requires Table(hash, Flags(), keys[..], vals[..], contents, loc)
      requires |contents| < n'
      modifies flags, nf, keys, vals, this`loc
      ensures Table(hash, Unpacked(nf[..], n'), keys[..], vals[..], contents, loc)
      ensures |Occupied(Unpacked(nf[..], n'))| == |contents|
      ensures forall i :: 0 <= i < n' ==> !Unpacked(nf[..], n')[i].del
    {
      hide Rehashing, InFlight, Table, Unpacked;
      RehashStarts(hash, Flags(), Unpacked(nf[..], n'), keys[..], vals[..], contents, loc);
      var j := 0;
      while j != n_buckets
        invariant 0 <= j <= n_buckets
        invariant Rehashing(hash, Flags(), Unpacked(nf[..], n'), keys[..], vals[..], contents, loc)
        invariant loc.Keys == contents.Keys
        invariant forall i :: i in Waiting(Flags()) ==> j <= i
        decreases n_buckets - j
      {
        if !IsEither(flags, j, n_buckets) {
          RehashFrom(nf, n', j);
        }
        j := j + 1;
      }
      assert Waiting(Flags()) == {};
      RehashEnds(hash, Flags(), Unpacked(nf[..], n'), keys[..], vals[..], contents, loc);
    }

    /** The outer loop's body for a bucket j that still waits. */
    method RehashFrom(nf: array<bv32>, n': nat, j: nat)
      requires (nf as object) != flags && (nf as object) != keys && (nf as object) != vals
      requires (flags as object) != keys && (flags as object) != vals && (keys as object) != vals
      requires n_buckets <= 16 * flags.Length && n_buckets <= keys.Length && n_buckets <= vals.Length
      requires IsPow2(n') && n' <= 16 * nf.Length && n' <= keys.Length && n' <= vals.Length && |contents| < n'
      requires Rehashing(hash, Flags(), Unpacked(nf[..], n'), keys[..], vals[..], contents, loc)
      requires loc.Keys == contents.Keys && j < n_buckets && Live(Flags()[j])
      modifies flags, nf, keys, vals, this`loc
      ensures Rehashing(hash, Flags(), Unpacked(nf[..], n'), keys[..], vals[..], contents, loc)
      ensures loc.Keys == contents.Keys
      ensures Waiting(Flags()) <= old(Waiting(Flags())) - {j}
    {
      hide Rehashing, InFlight, Waiting, IsPow2, Unpacked;
      ghost var fs := Flags();
      WaitingShrinks(fs, j);
      PickUp(hash, fs, Unpacked(nf[..], n'), keys[..], vals[..], contents, loc, j);
      var key, val := keys[j], vals[j];
      SetIsDelTrue(flags, j, n_buckets);
      assert Flags() == fs[j := DELETED];
      loc := KickOut(nf, n', key, val, loc - {key});
    }

    /** The two krealloc calls that make room for n' > n_buckets buckets. */
    method Expand(n': nat, mem: Memory) returns (ok: bool)
      requires Buckets() && n_buckets < n'
      modifies this`keys, this`vals
      ensures Buckets() && (keys == old(keys) || fresh(keys)) && (vals == old(vals) || fresh(vals))
      ensures ok == (mem.keys && mem.vals)
      ensures ok ==> n' <= keys.Length && n' <= vals.Length
    {
      hide Buckets;
      if !mem.keys {
        return false;
      }
      ExpandKeys(n');
      if !mem.vals {
        return false;
      }
      ExpandVals(n');
      return true;
    }

    method ExpandKeys(n': nat)
      requires Buckets() && n_buckets < n'
      modifies this`keys
      ensures Buckets() && fresh(keys) && keys.Length == n'
    {
      hide Table, Occupied, Upper, IsPow2, Unpacked;
      ghost var ks := keys[..];
      keys := Realloc(keys, n');
      TablePrefix(hash, Flags(), ks, vals[..], keys[..], vals[..], contents, loc);
    }

    method ExpandVals(n': nat)
      requires Buckets() && n_buckets < n'
      modifies this`vals
      ensures Buckets() && fresh(vals) && vals.Length == n'
    {
      hide Table, Occupied, Upper, IsPow2, Unpacked;
      ghost var vs := vals[..];
      vals := Realloc(vals, n');
      TablePrefix(hash, Flags(), keys[..], vs, keys[..], vals[..], contents, loc);
    }

    /** Has kh_resize just ignored a failed krealloc?  Only shrinking can. */
    ghost predicate Dropped(before: nat, request: bv32, mem: Memory)
      reads this`size
    {
      size < Upper(Capacity(request)) && Capacity(request) < before && mem.flags && !(mem.keys && mem.vals)
    }

    /** kh_resize.  It refuses (0, nothing changed) a capacity the entries would overload,
        fails (-1) when memory runs out, and otherwise rehashes in place.  The table is lost
        exactly when an allocation fails while its arrays are cut: that is not noticed. */
    method Resize(request: bv32, mem: Memory) returns (r: int)
      requires Buckets()
      modifies this, flags, keys, vals
      ensures size == old(size)
      ensures Buckets() <==> !Dropped(old(n_buckets), request, mem)
      ensures (flags == old(flags) || fresh(flags)) && (keys == old(keys) || fresh(keys)) &&
              (vals == old(vals) || fresh(vals))
      ensures contents == old(contents)
      ensures r == 0 || r == -1
      ensures size >= Upper(Capacity(request)) ==> r == 0
      ensures r == -1 || size >= Upper(Capacity(request)) ==>
                n_buckets == old(n_buckets) && n_occupied == old(n_occupied) && upper_bound == old(upper_bound) &&
                flags == old(flags) && Flags() == old(Flags()) && loc == old(loc)
      ensures r == 0 && size < Upper(Capacity(request)) ==>
                && fresh(flags) && n_buckets == Capacity(request) <= 16 * flags.Length
                && n_occupied == size < upper_bound
                && forall i :: 0 <= i < n_buckets ==> !Flags()[i].del
      ensures mem == Memory(true, true, true) ==> r == 0
      ensures mem.flags && ((mem.keys && mem.vals) || Capacity(request) <= old(n_buckets)) ==> r == 0
    {
      hide Capacity, Table, Upper, IsPow2, Unpacked;
      var n' := Capacity(request);
      if size >= Upper(n') {
        return 0;
      }
      if !mem.flags {
        return -1;
      }
      FsizeFits(n');
      var nf := AllEmpty(Fsize(n'));
      if n_buckets < n' {
        var ok := Expand(n', mem);
        if !ok {
          return -1;
        }
      }
      Adopt(nf, n', mem);
      return 0;
    }

    lemma FsizeFits(n: nat)
      requires IsPow2(n) && n >= 4
      ensures n <= 16 * Fsize(n)
    {
      var m := PowerOf(n);
      if m >= 4 { assert Pow2(m) == 2 * Pow2(m - 1) == 4 * Pow2(m - 2) == 8 * Pow2(m - 3) == 16 * Pow2(m - 4); }
      else { assert m == 2 || m == 3; }
    }

    /** The two krealloc calls that cut the arrays down to the new bucket count; a null
        result, taken over unseen, is an array without elements here. */
    method Shrink(nf: array<bv32>, n': nat, mem: Memory)
      requires (nf as object) != keys && (nf as object) != vals && n' > 0
      requires n' <= 16 * nf.Length && n' <= keys.Length && n' <= vals.Length
      requires Table(hash, Unpacked(nf[..], n'), keys[..], vals[..], contents, loc)
      modifies this`keys, this`vals
      ensures fresh(keys) && fresh(vals) && (keys as object) != vals
      ensures keys.Length == (if mem.keys then n' else 0) && vals.Length == (if mem.vals then n' else 0)
      ensures mem.keys && mem.vals ==> Table(hash, Unpacked(nf[..], n'), keys[..], vals[..], contents, loc)
    {
      hide Table, Unpacked;
      ghost var ks, vs := keys[..], vals[..];
      keys := Realloc(keys, if mem.keys then n' else 0);
      vals := Realloc(vals, if mem.vals then n' else 0);
      if mem.keys && mem.vals {
        TablePrefix(hash, Unpacked(nf[..], n'), ks, vs, keys[..], vals[..], contents, loc);
      }
    }

    /** The rehash itself and the switch to the new flags. */
    method Adopt(nf: array<bv32>, n': nat, mem: Memory)
      requires Buckets() && size < Upper(n')
      requires (nf as object) != flags && (nf as object) != keys && (nf as object) != vals
      requires n' <= 16 * nf.Length && n' <= keys.Length && n' <= vals.Length
      requires 4 <= n' <= CEILING && IsPow2(n')
      requires forall i :: 0 <= i < n' ==> Unpacked(nf[..], n')[i] == EMPTY
      modifies this, flags, keys, vals, nf
      ensures flags == nf && size == old(size)
      ensures Buckets() <==> n' >= old(n_buckets) || (mem.keys && mem.vals)
      ensures (keys == old(keys) || fresh(keys)) && (vals == old(vals) || fresh(vals))
      ensures contents == old(contents)
      ensures n_buckets == n' && n_occupied == size < upper_bound
      ensures forall i :: 0 <= i < n_buckets ==> !Flags()[i].del
    {
      hide Table, Upper, IsPow2, Occupied, Live, Shape, PathTo, Unpacked;
      assert size < n' by { UpperBounds(n'); }
      Rehash(nf, n');
      if n_buckets > n' {
        Shrink(nf, n', mem);
      }
      flags := nf;
      n_buckets := n';
      n_occupied := size;
      upper_bound := Upper(n_buckets);
    }

    /** kh_put: makes room if the load rule asks for it, then claims a bucket for the key.  With
        memory it succeeds if and only if the key is present or size is below 2^31; else it
        hands out another key's bucket as if the key were there. */
    method Put(key: K, mem: Memory) returns (x: nat, ret: int)
      requires Valid()
      modifies this, flags, keys, vals
      ensures Valid()
      ensures (flags == old(flags) || fresh(flags)) && (keys == old(keys) || fresh(keys)) &&
              (vals == old(vals) || fresh(vals))
      ensures ret in {-1, 0, 1, 2} && (mem == Memory(true, true, true) ==> ret != -1)
      ensures ret == -1 ==> contents == old(contents) && x == n_buckets == old(n_buckets)
      ensures ret != -1 ==> x < n_buckets && (key in contents <==> old(key in contents || size < CEILING))
      ensures ret != -1 && key in contents ==> x == loc[key] && keys[x] == key
      ensures ret != -1 && key !in contents ==>
              ret == 0 && Live(Flags()[x]) && keys[x] != key && contents == old(contents)
      ensures ret == 0 ==> contents == old(contents)
      ensures ret > 0 ==> key !in old(contents) && contents == old(contents)[key := vals[x]]
      // 2 stands for a deleted bucket, which only a table that was not rehashed can have
      ensures ret == 2 ==> flags == old(flags) && x < old(n_buckets) && old(Flags())[x].del
      ensures ret == 1 && flags == old(flags) ==> x < old(n_buckets) && old(Flags())[x].empty
    {
      hide Table, Occupied, Upper, PathTo, IsPow2, Live, AllLive, Unpacked;
      var ok := MakeRoom(mem);
      if !ok {
        return n_buckets, -1;
      }
      LiveCount();
      FullOnlyAtCeiling();
      x := FindSlot(key);
      if key !in contents && AllLive() { LiveAt(x); }
      ret := Claim(x, key);
    }

    lemma LiveAt(x: nat)
      requires n_buckets <= 16 * flags.Length && AllLive() && x < n_buckets
      ensures Live(Flags()[x])
    {
    }

    /** Below the ceiling the load rule leaves a bucket free. */
    lemma FullOnlyAtCeiling()
      requires Valid() && n_buckets != 0
      ensures size == n_buckets ==> n_buckets == CEILING
      ensures size == CEILING ==> n_buckets == CEILING
    {
      hide Table, IsPow2, Unpacked;
      UpperBounds(n_buckets);
      LiveCount();
      SizeAtMostOccupied(hash, Flags(), keys[..], vals[..], contents, loc);
    }

    /** The load rule at work. */
    lemma SomeBucketIsEmpty()
      requires Buckets() && n_occupied < upper_bound
      ensures exists e: nat :: e < n_buckets && Flags()[e].empty && !Live(Flags()[e])
    {
      hide Table, IsPow2, Unpacked;
      OccupiedBound(Flags());
      UpperBounds(n_buckets);
    }

    /** The start of kh_put: below the load bound afterwards, out of memory, or at the ceiling,
        where the request has been refused: one to grow wraps to the smallest capacity, and
        with 2^31 entries the doubled size wraps to 0 and the same capacity is asked for. */
    method MakeRoom(mem: Memory) returns (ok: bool)
      requires Valid()
      modifies this, flags, keys, vals
      ensures Valid()
      ensures (flags == old(flags) || fresh(flags)) && (keys == old(keys) || fresh(keys)) &&
              (vals == old(vals) || fresh(vals))
      ensures contents == old(contents) && size == old(size)
      ensures ok ==> n_buckets != 0 && (n_occupied < upper_bound || n_buckets == CEILING)
      ensures !ok ==> n_buckets == old(n_buckets)
      ensures mem == Memory(true, true, true) ==> ok
      ensures if flags == old(flags) then n_buckets == old(n_buckets) && Flags() == old(Flags())
              else forall i :: 0 <= i < n_buckets ==> !Flags()[i].del
    {
      hide Capacity, Table, Upper, IsPow2, Occupied, SameSizeRequest, GrowRequest, Doubled, Table32.AllLive, Unpacked;
      if n_occupied >= upper_bound {
        SizeAtMostOccupied(hash, Flags(), keys[..], vals[..], contents, loc);
        LiveCount();
        RequestsMakeRoom(n_buckets, size);
        if n_buckets > Doubled(size) {
          var r := Resize(SameSizeRequest(n_buckets), mem);
          if r < 0 {
            return false;
          }
        } else {
          var r := Resize(GrowRequest(n_buckets), mem);
          if r < 0 {
            return false;
          }
        }
      }
      return true;
    }

    /** The end of kh_put: the writes to the bucket that was found. */
    method Claim(x: nat, key: K) returns (ret: int)
      requires Valid() && (n_occupied < upper_bound || n_buckets == CEILING)
      requires x < n_buckets
      requires key in contents ==> x == loc[key] && Live(Flags()[x]) && keys[x] == key
      requires key !in contents && !Live(Flags()[x]) ==> PathTo(Flags(), hash(key), x)
      modifies this`size, this`n_occupied, this`contents, this`loc, flags, keys
      ensures Valid() && ret in {0, 1, 2}
      ensures ret == 0 <==> old(Live(Flags()[x]))
      ensures ret == 0 ==>
              contents == old(contents) && loc == old(loc) && Flags() == old(Flags()) && keys[..] == old(keys[..])
      ensures ret != 0 ==>
              key !in old(contents) && contents == old(contents)[key := vals[x]] && x == loc[key] && keys[x] == key
      ensures ret == 1 ==> old(Flags()[x].empty)
      ensures ret == 2 ==> old(Flags()[x].del)
    {
      hide Table, Occupied, PathTo, Unpacked;
      ghost var fs, ks := Flags(), keys[..];
      if !Live(Flags()[x]) {
        InsertKeepsTable(hash, fs, ks, vals[..], contents, loc, x, key);
        contents, loc := contents[key := vals[x]], loc[key := x];
      }
      if IsEmpty(flags, x, n_buckets) {
        keys[x] := key;
        SetIsBothFalse(flags, x, n_buckets);
        size, n_occupied := size + 1, n_occupied + 1;
        assert Flags() == fs[x := LIVE] && keys[..] == ks[x := key];
        ret := 1;
      } else if IsDel(flags, x, n_buckets) {
        keys[x] := key;
        SetIsBothFalse(flags, x, n_buckets);
        size := size + 1;
        assert Flags() == fs[x := LIVE] && keys[..] == ks[x := key];
        ret := 2;
      } else {
        ret := 0;
      }
    }

    /** `kh_value(h, x) = v` on a live bucket. */
    method SetValue(x: nat, v: V)
      requires Valid() && x < n_buckets && Live(Flags()[x])
      modifies this`contents, vals
      ensures Valid() && contents == old(contents)[keys[x] := v]
    {
      hide Table, Occupied, Upper, Live, Unpacked;
      ghost var vs := vals[..];
      SetKeepsTable(hash, Flags(), keys[..], vs, contents, loc, x, v);
      vals[x] := v;
      contents := contents[keys[x] := v];
      assert vals[..] == vs[x := v];
    }

    /** kh_del. */
    method Del(x: nat)
      requires Valid() && x <= n_buckets
      modifies this`size, this`contents, this`loc, flags
      ensures Valid()
      ensures contents == if x < n_buckets && old(Live(Flags()[x])) then old(contents) - {keys[x]} else old(contents)
    {
      hide Table, Occupied, Unpacked;
      if x != n_buckets && !IsEither(flags, x, n_buckets) {
        ghost var fs := Flags();
        DeleteKeepsTable(hash, fs, keys[..], vals[..], contents, loc, x);
        SetIsDelTrue(flags, x, n_buckets);
        size := size - 1;
        contents, loc := contents - {keys[x]}, loc - {keys[x]};
        assert Flags() == fs[x := DELETED];
      }
    }
  }

  /** krealloc: the old prefix survives, the rest is arbitrary. */
  method Realloc<T(0)>(a: array<T>, n: nat) returns (b: array<T>)
    ensures fresh(b) && b.Length == n
    ensures forall i :: 0 <= i < n && i < a.Length ==> b[i] == a[i]
  {
    b := new T[n];
    for i := 0 to if n < a.Length then n else a.Length
      invariant forall k :: 0 <= k < i ==> b[k] == a[k]
    {
      b[i] := a[i];
    }
  }
}
