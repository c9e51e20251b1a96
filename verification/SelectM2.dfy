/** How fuzz_one chooses M2, the messages to mutate, from the annotated regions of a seed. */
module SelectM2 {
  import opened Bytes
  import opened Klist
  import opened MessageFiles
  import opened Splice

  /** For each region the state sequence it is annotated with, empty for none. */
  type Annotations = seq<seq<nat>>

  datatype Choice =
    | SkipSeed                       // fuzz_one returns 1
    | NoRegions                      // PFATAL: 0 region found
    | M2(start: nat, count: nat)

  /** From `start` on, `count` regions and no more have as many states as the first. */
  ghost predicate SameCountRun(regions: Annotations, start: nat, count: nat) {
    && 0 < count && start + count <= |regions|
    && (forall i :: start <= i < start + count ==> |regions[i]| == |regions[start]|)
    && (start + count < |regions| ==> |regions[start + count]| != |regions[start]|)
  }

  /** Region k is the first to reach the target, and all regions up to it are annotated. */
  ghost predicate FirstReaching(regions: Annotations, target: nat, k: nat) {
    && k < |regions|
    && (forall i :: 0 <= i <= k ==> regions[i] != [])
    && (forall i :: 0 <= i < k ==> regions[i][|regions[i]| - 1] != target)
    && regions[k][|regions[k]| - 1] == target
  }

  /** The two counting loops. */
  method RunFrom(regions: Annotations, start: nat) returns (count: nat)
    requires start <= |regions|
    ensures if start == |regions| then count == 0 else SameCountRun(regions, start, count)
  {
    count := 0;
    while start + count < |regions| && |regions[start + count]| == |regions[start]|
      invariant start + count <= |regions|
      invariant forall i :: start <= i < start + count ==> |regions[i]| == |regions[start]|
    {
      count := count + 1;
    }
  }

  /** State-aware mode: with a target other than the initial state, M1 ends with the first
      region known to reach it, and the seed is skipped when there is none, when it is the
      last one, or when a region before it has no annotation. */
  method SelectByState(regions: Annotations, target_state_id: nat) returns (c: Choice)
    ensures c == NoRegions <==> regions == []
    ensures c.M2? ==> SameCountRun(regions, c.start, c.count)
    ensures target_state_id == 0 ==> (c.M2? <==> regions != [])
    ensures target_state_id == 0 && c.M2? ==> c.start == 0
    ensures target_state_id != 0 ==>
            (c.M2? <==> exists k: nat :: k + 1 < |regions| && FirstReaching(regions, target_state_id, k))
    ensures target_state_id != 0 && c.M2? ==> c.start > 0 && FirstReaching(regions, target_state_id, c.start - 1)
  {
    if regions == [] {
      return NoRegions;
    }
    var start := 0;
    if target_state_id != 0 {
      var i := 0;
      while i < |regions|
        invariant 0 <= i <= |regions| && start == i
        invariant forall j :: 0 <= j < i ==> regions[j] != [] && regions[j][|regions[j]| - 1] != target_state_id
      {
        if regions[i] == [] {
          return SkipSeed;
        }
        start := start + 1;
        if regions[i][|regions[i]| - 1] == target_state_id {
          assert FirstReaching(regions, target_state_id, i);
          break;
        }
        i := i + 1;
      }
    }
    var count := RunFrom(regions, start);
    if start >= |regions| {
      return SkipSeed;
    }
    return M2(start, count);
  }

  /** Otherwise: UR(total) and UR(total - start), the dice being below their limits. */
  method SelectAtRandom(total: nat, roll1: nat, roll2: nat) returns (c: Choice)
    requires total > 0 ==> roll1 < total && roll2 < total - roll1
    ensures c == NoRegions <==> total == 0
    ensures c.M2? <==> total != 0
    ensures c.M2? ==> c.start == roll1 && c.count == (if roll2 == 0 then 1 else roll2) && c.start + c.count <= total
  {
    if total == 0 {
      return NoRegions;
    }
    var count := roll2;
    if count == 0 {
      count := count + 1;
    }
    return M2(roll1, count);
  }

  lemma {:induction false} AsManyMessages(file: seq<byte>, pos: nat, rs: seq<Region>)
    ensures |ReadFrom(file, pos, rs)| == |rs|
    decreases |rs|
  {
    if rs != [] { AsManyMessages(file, pos + Size(rs[0]), rs[1..]); }
  }

  /** From the choice to the list and its M2 pointers: a session whose M2 is the messages of
      the chosen regions. */
  method Prepare(file: seq<byte>, regions: seq<Region>, c: Choice) returns (s: Session)
    requires c.M2? && c.count > 0 && c.start + c.count <= |regions|
    requires Fits(regions, file)
    ensures fresh(s) && s.Valid()
    ensures |ReadFrom(file, 0, regions)| == |regions|
    ensures s.kl_messages.contents == ReadFrom(file, 0, regions)
    ensures s.M1() == ReadFrom(file, 0, regions)[..c.start]
    ensures s.M2() == ReadFrom(file, 0, regions)[c.start..c.start + c.count] != []
    ensures Concat(s.M1()) + Concat(s.M2()) + Concat(s.M3()) == file[..Stop(regions)]
  {
    var kl := ConstructKlMessages(file, regions);
    AsManyMessages(file, 0, regions);
    s := new Session(kl, c.start, c.count);
    ghost var ms := kl.contents;
    assert ms == ms[..c.start] + ms[c.start..c.start + c.count] + ms[c.start + c.count..];
    ConcatAppend(ms[..c.start] + ms[c.start..c.start + c.count], ms[c.start + c.count..]);
    ConcatAppend(ms[..c.start], ms[c.start..c.start + c.count]);
    ReadsNamedSlices(file, regions, 0, Stop(regions));
  }
}
