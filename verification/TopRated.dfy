/** Favoured seeds: the best entry for each map byte, kept by update_bitmap_score with
    reference counts, and the greedy cover that cull_queue takes from it. */
module TopRated {
  import opened BitPack

  class QueueEntry {
    const is_initial_seed: bool
    const fav_factor: nat
    var unique_state_count: nat
    var favored: bool
    var tc_ref: int
    // trace_mini, [] when it is not kept.
    var trace_mini: seq<bv8>

    // The slots of top_rated that name this entry.
    ghost var slots: set<nat>

    // The map bytes that the traces scored for this entry have hit.
    ghost var hits: set<nat>

    constructor (is_initial_seed: bool, unique_state_count: nat, fav_factor: nat)
      ensures tc_ref == 0 && trace_mini == [] && !favored && slots == {} && hits == {}
      ensures this.is_initial_seed == is_initial_seed && this.unique_state_count == unique_state_count
      ensures this.fav_factor == fav_factor
    {
      this.is_initial_seed := is_initial_seed;
      this.unique_state_count := unique_state_count;
      this.fav_factor := fav_factor;
      favored, tc_ref, trace_mini, slots, hits := false, 0, [], {}, {};
    }
  }

  /** minimize_bits. */
  method MinimizeBits(src: seq<bv8>) returns (dst: seq<bv8>)
    requires |src| % 8 == 0
    ensures |dst| == |src| / 8
    ensures forall i: nat :: i < |src| ==> (Bit(dst, i) <==> src[i] != 0)
  {
    hide BitOf, SetBit;
    dst := seq(|src| / 8, _ => 0);
    var i: nat := 0;
    forall j: nat | j < |src| ensures !Bit(dst, j) {
      AllOrNothing(j % 8);
    }
    while i < |src|
      invariant i <= |src| && |dst| == |src| / 8
      invariant forall j: nat :: j < |src| ==> (Bit(dst, j) <==> j < i && src[j] != 0)
    {
      if src[i] != 0 {
        ghost var before := dst;
        dst := dst[i / 8 := SetBit(dst[i / 8], i % 8)];
        forall j: nat | j < |src| ensures Bit(dst, j) <==> j == i || Bit(before, j) {
          SetBitLaw(before[i / 8], i % 8, j % 8);
          assert j == 8 * (j / 8) + j % 8 && i == 8 * (i / 8) + i % 8;
        }
      }
      i := i + 1;
    }
  }

  class Scores {
    const map_size: nat
    var queue: seq<QueueEntry>
    var top_rated: array<QueueEntry?>
    var score_changed: bool
    var queued_favored: nat

    // Every map byte that some scored entry has hit.
    ghost var ever: set<nat>

    constructor (map_size: nat)
      requires map_size % 8 == 0
      ensures Valid() && Settled() && queue == [] && ever == {} && !score_changed && this.map_size == map_size
      ensures fresh(top_rated) && Matches(Books([], {}, seq(map_size, _ => -1), false))
    {
      this.map_size := map_size;
      queue := [];
      top_rated := new QueueEntry?[map_size](_ => null);
      score_changed, queued_favored := false, 0;
      ever := {};
    }

    ghost predicate Shape()
      reads this`queue, this`top_rated, top_rated
    {
      && map_size % 8 == 0 && top_rated.Length == map_size
      && (forall i, j :: 0 <= i < j < |queue| ==> queue[i] != queue[j])
      && (forall i :: 0 <= i < map_size && top_rated[i] != null ==> top_rated[i] in queue)
    }

    /** tc_ref counts the slots that name an entry (slot `but`, just being reassigned, aside),
        and trace_mini is kept exactly while it is not zero. */
    ghost predicate RefCountsBut(but: int)
      requires Shape()
      reads this`queue, this`top_rated, top_rated, queue`tc_ref, queue`trace_mini, queue`slots
    {
      && (forall e, i: nat :: e in queue && i < map_size ==> (i in e.slots <==> top_rated[i] == e && i != but))
      && (forall e, i: nat :: e in queue && i in e.slots ==> i < map_size)
      && (forall e :: e in queue ==>
            && e.tc_ref == |e.slots|
            && (if e.tc_ref > 0 then |e.trace_mini| == map_size / 8 else e.trace_mini == []))
    }

    /** The kept trace of an entry includes every slot it holds. */
    ghost predicate CoversBut(but: int)
      requires Shape()
      reads this`queue, this`top_rated, top_rated, queue`trace_mini
    {
      forall i: nat :: i < map_size && i != but && top_rated[i] != null ==> Includes(top_rated[i].trace_mini, i)
    }

    /** A kept trace has only bytes that a trace scored for the entry has hit. */
    ghost predicate Honest()
      reads this`queue, queue`trace_mini, queue`hits
    {
      forall e, i: nat :: e in queue && Includes(e.trace_mini, i) ==> i in e.hits
    }

    ghost predicate Valid()
      reads this`queue, this`top_rated, this`ever, top_rated
      reads queue`tc_ref, queue`trace_mini, queue`slots, queue`hits
    {
      && Shape() && RefCountsBut(-1) && CoversBut(-1) && Honest()
      && (forall i: nat :: i < map_size ==> (top_rated[i] != null <==> i in ever))
      && (forall i :: i in ever <==> SomeoneHit(i))
    }

    /** A favoured entry has hit byte i. */
    ghost predicate FavoredHit(i: nat)
      reads this`queue, queue`favored, queue`hits
    {
      exists e :: e in queue && e.favored && i in e.hits
    }

    /** What cull_queue is for, at any time: unless scores have changed since it last ran,
        every map byte ever hit by a scored entry has been hit by a favoured one. */
    ghost predicate Settled()
      reads this`queue, this`score_changed, this`ever, queue`favored, queue`hits
    {
      score_changed || forall i :: i in ever && i < map_size ==> FavoredHit(i)
    }

    /** A new entry, not scored yet. */
    method Enqueue(q: QueueEntry)
      requires Valid() && Settled() && q !in queue
      requires q.tc_ref == 0 && q.trace_mini == [] && q.slots == {} && q.hits == {}
      modifies this`queue
      ensures Valid() && Settled() && queue == old(queue) + [q]
    {
      hide Includes;
      NothingKept();
      queue := queue + [q];
      forall i | !score_changed && i in ever && i < map_size ensures FavoredHit(i) {
        assert old(FavoredHit(i));
        var e :| e in old(queue) && e.favored && i in e.hits;
        assert e in queue;
      }
      forall i ensures i in ever <==> SomeoneHit(i) {
        if i in ever {
          assert old(SomeoneHit(i));
          var e :| e in old(queue) && i in e.hits;
          assert e in queue;
        }
        if SomeoneHit(i) {
          var e :| e in queue && i in e.hits;
          assert e in old(queue);
          assert old(SomeoneHit(i));
        }
      }
    }

    /** Does q leave the slot of e alone?  The second test, on speed and size, never decides. */
    predicate Loses(q: QueueEntry, e: QueueEntry)
      reads q`unique_state_count, e`unique_state_count
      ensures Loses(q, e) <==> q.unique_state_count < e.unique_state_count
    {
      var fewer, heavier := q.unique_state_count < e.unique_state_count, q.fav_factor > e.fav_factor;
      fewer || (fewer && heavier)
    }

    /** Does q win a slot of winner e, when its trace has t there? */
    predicate Wins(q: QueueEntry, e: QueueEntry?, t: bv8)
      reads q`unique_state_count, (if e == null then {} else {e})`unique_state_count
    {
      t != 0 && (e == null || !Loses(q, e))
    }

    /** Which of the first n slots q is going to win. */
    ghost function WinsBelow(q: QueueEntry, trace_bits: seq<bv8>, n: nat): (w: seq<bool>)
      requires n <= top_rated.Length == |trace_bits|
      reads this`top_rated, top_rated, q, set e | e in top_rated[..] && e != null
      ensures |w| == n && forall i :: 0 <= i < n ==> w[i] == Wins(q, top_rated[i], trace_bits[i])
    {
      if n == 0 then [] else WinsBelow(q, trace_bits, n - 1) + [Wins(q, top_rated[n - 1], trace_bits[n - 1])]
    }

    /** The winners, when `was` has been scored against q below `upto`. */
    ghost predicate Won(was: seq<QueueEntry?>, q: QueueEntry, wins: seq<bool>, upto: nat)
      requires top_rated.Length == |wins| == |was|
      reads this`top_rated, top_rated
    {
      forall i :: 0 <= i < |wins| ==> top_rated[i] == if i < upto && wins[i] then q else was[i]
    }

    /** The loop of update_bitmap_score. */
    method ScoreSlots(q: QueueEntry, trace_bits: seq<bv8>, ghost wins: seq<bool>)
      requires Shape() && RefCountsBut(-1) && CoversBut(-1) && Honest() && Settled() && q in queue &&
               |trace_bits| == map_size
      requires q.trace_mini != [] ==> forall i: nat :: i < map_size && trace_bits[i] != 0 ==> Includes(q.trace_mini, i)
      requires Hits(trace_bits) <= q.hits
      requires |wins| == map_size && forall i :: 0 <= i < map_size ==> wins[i] == Wins(q, top_rated[i], trace_bits[i])
      modifies this`score_changed, top_rated, queue`tc_ref, queue`trace_mini, queue`slots
      ensures Shape() && RefCountsBut(-1) && CoversBut(-1) && Honest() && Settled()
      ensures score_changed <==> old(score_changed) || true in wins
      ensures Won(old(top_rated[..]), q, wins, map_size)
      ensures forall e :: e in queue ==>
              KeptOrDropped(old(e.trace_mini), e.trace_mini) || (e == q && TraceOf(e.trace_mini, trace_bits))
    {
      hide RefCountsBut, CoversBut, Includes, Honest, Hits, FavoredHit;
      var i: nat := 0;
      while i < map_size
        invariant i <= map_size
        invariant Shape() && RefCountsBut(-1) && CoversBut(-1) && Honest() && Settled()
        invariant Won(old(top_rated[..]), q, wins, i)
        invariant score_changed <==> old(score_changed) || true in wins[..i]
        invariant q.trace_mini != [] ==>
                    forall k: nat :: k < map_size && trace_bits[k] != 0 ==> Includes(q.trace_mini, k)
        invariant forall e :: e in queue ==>
                  KeptOrDropped(old(e.trace_mini), e.trace_mini) || (e == q && TraceOf(e.trace_mini, trace_bits))
      {
        assert wins[..i + 1] == wins[..i] + [wins[i]];
        assert top_rated[i] == old(top_rated[i]);
        if trace_bits[i] != 0 {
          if top_rated[i] == null || !Loses(q, top_rated[i]) {
            assert wins[i];
            Release(i);
            Claim(q, i, trace_bits);
            score_changed := true;
          }
        }
        i := i + 1;
      }
      assert wins[..map_size] == wins;
    }

    /** update_bitmap_score, with the trace of q in trace_bits. */
    method UpdateBitmapScore(q: QueueEntry, trace_bits: seq<bv8>)
      requires Valid() && Settled() && q in queue && |trace_bits| == map_size
      // q is scored for the first time, or its kept trace accounts for this one.
      requires q.trace_mini != [] ==> forall i: nat :: i < map_size && trace_bits[i] != 0 ==> Includes(q.trace_mini, i)
      modifies this`score_changed, this`ever, top_rated
      modifies queue`tc_ref, queue`trace_mini, queue`slots, q`hits
      ensures Valid() && Settled()
      ensures score_changed <==>
              old(score_changed) || exists i :: 0 <= i < map_size && Wins(q, old(top_rated[i]), trace_bits[i])
      ensures ever == old(ever) + Hits(trace_bits) && q.hits == old(q.hits) + Hits(trace_bits)
      ensures forall i :: 0 <= i < map_size ==>
                top_rated[i] == if Wins(q, old(top_rated[i]), trace_bits[i]) then q else old(top_rated[i])
      ensures forall e :: e in queue ==>
              KeptOrDropped(old(e.trace_mini), e.trace_mini) || (e == q && TraceOf(e.trace_mini, trace_bits))
    {
      hide RefCountsBut, CoversBut, Includes, Shape, Honest, Settled, SomeoneHit, KeptOrDropped, TraceOf, FavoredHit;
      ValidShape();
      ShapeSlots();
      ghost var wins := WinsBelow(q, trace_bits, map_size);
      AddHits(q, trace_bits);
      ScoreSlots(q, trace_bits, wins);
      ShapeSlots();
      WonSlots(old(top_rated[..]), q, wins, trace_bits);
      NoteHits(trace_bits);
    }

    /** A slot has a winner afterwards exactly if it had one or is hit; without a win all hit
        slots had one. */
    lemma WonSlots(was: seq<QueueEntry?>, q: QueueEntry, wins: seq<bool>, trace_bits: seq<bv8>)
      requires top_rated.Length == |wins| == |was| == |trace_bits| && Won(was, q, wins, |wins|)
      requires forall i :: 0 <= i < |wins| ==> wins[i] == Wins(q, was[i], trace_bits[i])
      ensures forall i :: 0 <= i < |wins| ==> (top_rated[i] != null <==> was[i] != null || trace_bits[i] != 0)
      ensures true !in wins ==> forall i :: 0 <= i < |wins| && trace_bits[i] != 0 ==> was[i] != null
    {
      if true !in wins {
        forall i | 0 <= i < |wins| && trace_bits[i] != 0 ensures was[i] != null {
          assert !wins[i];
        }
      }
    }

    /** Is byte i in some scored trace? */
    ghost predicate SomeoneHit(i: nat)
      reads this`queue, queue`hits
    {
      exists e :: e in queue && i in e.hits
    }

    /** The ghost bookkeeping: the trace of q counts as scored from now on. */
    ghost method AddHits(q: QueueEntry, trace_bits: seq<bv8>)
      requires Honest() && Settled() && q in queue
      requires forall i :: i in ever <==> SomeoneHit(i)
      modifies q`hits
      ensures Honest() && Settled() && q.hits == old(q.hits) + Hits(trace_bits)
      ensures forall i :: i in ever || i in Hits(trace_bits) <==> SomeoneHit(i)
    {
      hide Includes, Hits;
      q.hits := q.hits + Hits(trace_bits);
      forall i ensures i in ever || i in Hits(trace_bits) <==> SomeoneHit(i) {
        if i in ever {
          assert old(SomeoneHit(i));
          var e :| e in queue && i in old(e.hits);
          assert i in e.hits;
        } else if SomeoneHit(i) {
          var e :| e in queue && i in e.hits;
          assert !old(SomeoneHit(i));
        }
      }
      forall k | !score_changed && k in ever && k < map_size ensures FavoredHit(k) {
        assert old(FavoredHit(k));
        var e :| e in queue && e.favored && k in old(e.hits);
        assert k in e.hits;
      }
    }

    ghost method NoteHits(trace_bits: seq<bv8>)
      requires Shape() && RefCountsBut(-1) && CoversBut(-1) && Honest() && Settled() && top_rated.Length == map_size
      requires forall i :: 0 <= i < map_size ==> (top_rated[i] != null <==> i in ever || i in Hits(trace_bits))
      requires forall i :: i in ever || i in Hits(trace_bits) <==> SomeoneHit(i)
      requires !score_changed ==> Hits(trace_bits) <= ever
      modifies this`ever
      ensures Valid() && Settled() && ever == old(ever) + Hits(trace_bits)
    {
      hide Hits, FavoredHit, SomeoneHit, RefCountsBut, CoversBut, Honest;
      ever := ever + Hits(trace_bits);
    }

    lemma ShapeSlots()
      requires Shape()
      ensures top_rated.Length == map_size
    {
    }

    /** The previous winner of slot i loses a reference, and with the last one its trace. */
    method Release(i: nat)
      requires Shape() && RefCountsBut(-1) && CoversBut(-1) && Honest() && i < map_size
      modifies queue`tc_ref, queue`trace_mini, queue`slots
      ensures Shape() && RefCountsBut(i) && CoversBut(i) && Honest()
      ensures forall e :: e in queue ==> KeptOrDropped(old(e.trace_mini), e.trace_mini)
    {
      NothingKept();
      if top_rated[i] != null {
        var e := top_rated[i];
        e.tc_ref := e.tc_ref - 1;
        e.slots := e.slots - {i};
        if e.tc_ref == 0 {
          e.trace_mini := [];
        }
      }
    }

    /** q wins slot i. */
    method Claim(q: QueueEntry, i: nat, trace_bits: seq<bv8>)
      requires Shape() && RefCountsBut(i) && CoversBut(i) && Honest()
      requires q in queue && i < map_size && |trace_bits| == map_size && trace_bits[i] != 0
      requires Hits(trace_bits) <= q.hits
      requires q.trace_mini != [] ==> forall k: nat :: k < map_size && trace_bits[k] != 0 ==> Includes(q.trace_mini, k)
      modifies top_rated, q`tc_ref, q`trace_mini, q`slots
      ensures Shape() && RefCountsBut(-1) && CoversBut(-1) && Honest()
      ensures q.trace_mini == old(q.trace_mini) || TraceOf(q.trace_mini, trace_bits)
      ensures forall k :: 0 <= k < map_size ==> top_rated[k] == if k == i then q else old(top_rated[k])
      ensures forall k: nat :: k < map_size && trace_bits[k] != 0 ==> Includes(q.trace_mini, k)
    {
      hide Bit, Includes;
      NothingKept();
      assert q.trace_mini != [] ==> Includes(q.trace_mini, i);
      ghost var was := top_rated[..];
      TakeSlot(q, i);
      if |q.trace_mini| == 0 {
        var mini := MinimizeBits(trace_bits);
        BitsAreIncluded(mini, trace_bits);
        q.trace_mini := mini;
      }
      forall k: nat | k < map_size && top_rated[k] != null ensures Includes(top_rated[k].trace_mini, k) {
        if k != i { assert was[k] == top_rated[k]; }
      }
    }

    /** The slot names q, and q has one reference more; its trace may still be missing. */
    method TakeSlot(q: QueueEntry, i: nat)
      requires Shape() && RefCountsBut(i) && q in queue && i < map_size
      modifies top_rated, q`tc_ref, q`slots
      ensures Shape() && top_rated[..] == old(top_rated[..])[i := q]
      ensures q.slots == old(q.slots) + {i} && q.tc_ref == |q.slots| == old(|q.slots|) + 1
      ensures forall e, k: nat :: e in queue && k < map_size ==> (k in e.slots <==> top_rated[k] == e)
      ensures forall e, k: nat :: e in queue && k in e.slots ==> k < map_size
    {
      ghost var was := top_rated[..];
      SlotIsFree(q, i);
      assert forall e, k: nat :: e in queue && k < map_size ==> (k in e.slots <==> was[k] == e && k != i);
      top_rated[i] := q;
      q.tc_ref := q.tc_ref + 1;
      q.slots := q.slots + {i};
      forall e, k: nat | e in queue && k < map_size ensures k in e.slots <==> top_rated[k] == e {
        assert k in old(e.slots) <==> was[k] == e && k != i;
        assert k != i ==> top_rated[k] == was[k];
      }
    }

    lemma SlotIsFree(q: QueueEntry, i: nat)
      requires Shape() && RefCountsBut(i) && q in queue && i < map_size
      ensures i !in q.slots
    {
      var holder := top_rated[i];
    }

    /** The initial seeds that are favoured now; cull_queue does not reset them. */
    ghost function KeptFavored(): set<QueueEntry>
      reads this`queue, queue`favored
    {
      set e | e in queue && e.is_initial_seed && e.favored
    }

    ghost predicate FavoredExactly(picked: seq<QueueEntry>, kept: set<QueueEntry>)
      reads this`queue, queue`favored
    {
      forall e :: e in queue ==> (e.favored <==> e in picked || e in kept)
    }

    /** Every map byte some scored entry has hit has been hit by one of `picked`. */
    ghost predicate EverHit(picked: seq<QueueEntry>)
      reads this`ever, picked`hits
    {
      forall i: nat :: i in ever && i < map_size ==> exists e :: e in picked && i in e.hits
    }

    /** cull_queue: greedily favours winners until every slot with a winner is covered. */
    method CullQueue(dumb_mode: bool) returns (ghost picked: seq<QueueEntry>)
      requires Valid() && Settled()
      modifies this`score_changed, this`queued_favored, queue`favored
      ensures Valid() && Settled()
      ensures dumb_mode || !old(score_changed) ==>
                picked == [] && queued_favored == old(queued_favored) && score_changed == old(score_changed) &&
                forall e :: e in queue ==> e.favored == old(e.favored)
      ensures !dumb_mode && old(score_changed) ==>
                && !score_changed && queued_favored == |picked| && Greedy(picked)
                && FavoredExactly(picked, old(KeptFavored())) && EverHit(picked)
    {
      hide Honest, RefCountsBut, CoversBut, Includes, SomeoneHit, Greedy, FavoredExactly, EverHit, Settled;
      picked := [];
      if dumb_mode || !score_changed {
        return;
      }
      score_changed := false;
      ghost var kept := KeptFavored();
      ResetFavored();
      picked := FavorWinners(kept);
      GreedyInQueue(picked);
      CoveredIsFavored(picked, kept);
    }

    /** The queue and the slots are what b says. */
    ghost predicate Matches(b: Books)
      reads this, top_rated, queue
    {
      && b.Ok() && |b.winners| == map_size == top_rated.Length
      && |b.seeds| == |queue| && ever == b.ever && score_changed == b.changed
      && (forall k :: 0 <= k < |queue| ==> SeedMatches(queue[k], b.seeds[k]))
      && (forall i :: 0 <= i < map_size ==> top_rated[i] == if b.winners[i] < 0 then null else queue[b.winners[i]])
    }

    /** One event, of the kinds that happen in a run. */
    method Handle(e: Event, ghost b: Books)
      requires Valid() && Settled() && b.Ok() && Matches(b) && Allowed(b, e)
      modifies this, top_rated, queue
      ensures Valid() && Settled() && Matches(After(b, e)) && top_rated == old(top_rated)
      ensures forall q :: q in queue ==> q in old(queue) || fresh(q)
      ensures e == Culled(false) ==> !score_changed
    {
      hide Valid, Settled, Matches;
      match e {
        case Queued(is_initial_seed, unique_state_count, fav_factor) =>
          Join(is_initial_seed, unique_state_count, fav_factor, b);
        case Counted(k, count) =>
          Recount(k, count, b);
        case Scored(k, trace_bits) =>
          Score(k, trace_bits, b);
        case Culled(dumb_mode) =>
          Cull(dumb_mode, b);
      }
    }

    method Join(is_initial_seed: bool, unique_state_count: nat, fav_factor: nat, ghost b: Books)
      requires Valid() && Settled() && b.Ok() && Matches(b)
      modifies this`queue
      ensures Valid() && Settled() && Matches(After(b, Queued(is_initial_seed, unique_state_count, fav_factor)))
      ensures forall q :: q in queue ==> q in old(queue) || fresh(q)
    {
      hide Valid, Settled, Includes;
      var q := new QueueEntry(is_initial_seed, unique_state_count, fav_factor);
      Enqueue(q);
    }

    /** unique_state_count is set by update_state_aware_variables. */
    method Recount(k: nat, count: nat, ghost b: Books)
      requires Valid() && Settled() && b.Ok() && Matches(b) && k < |b.seeds|
      modifies queue`unique_state_count
      ensures Valid() && Settled() && Matches(After(b, Counted(k, count)))
    {
      hide Valid, Settled, Includes;
      AllDifferent();
      queue[k].unique_state_count := count;
    }

    lemma AllDifferent()
      requires Valid()
      ensures forall i, j :: 0 <= i < j < |queue| ==> queue[i] != queue[j]
    {
    }

    method Score(k: nat, trace_bits: seq<bv8>, ghost b: Books)
      requires Valid() && Settled() && b.Ok() && Matches(b) && Allowed(b, Scored(k, trace_bits))
      modifies this`score_changed, this`ever, top_rated
      modifies queue`tc_ref, queue`trace_mini, queue`slots, queue`hits
      ensures Valid() && Settled() && Matches(After(b, Scored(k, trace_bits)))
    {
      hide Valid, Settled, Includes, Hits;
      AllDifferent();
      KeptAccountsFor(queue[k], b.seeds[k], trace_bits);
      var q := queue[k];
      ghost var after := After(b, Scored(k, trace_bits));
      assert forall i: nat :: i < map_size ==> (Wins(q, top_rated[i], trace_bits[i]) <==> b.Wins(k, trace_bits, i));
      UpdateBitmapScore(q, trace_bits);
      assert forall i: nat :: i < map_size ==>
             (Wins(q, old(top_rated[i]), trace_bits[i]) <==> b.Wins(k, trace_bits, i));
      forall j | 0 <= j < |queue| ensures SeedMatches(queue[j], after.seeds[j]) {
        assert old(SeedMatches(queue[j], b.seeds[j])) && queue[j] in queue;
      }
      assert score_changed == after.changed;
      assert forall i :: 0 <= i < map_size ==>
             top_rated[i] == if after.winners[i] < 0 then null else queue[after.winners[i]];
    }

    method Cull(dumb_mode: bool, ghost b: Books)
      requires Valid() && Settled() && b.Ok() && Matches(b)
      modifies this`score_changed, this`queued_favored, queue`favored
      ensures Valid() && Settled() && Matches(After(b, Culled(dumb_mode)))
      ensures !dumb_mode ==> !score_changed
    {
      hide Valid, Settled, Includes, Greedy, FavoredExactly, EverHit;
      ghost var picked := CullQueue(dumb_mode);
    }

    /** Any run in which each entry is scored with one trace, however often: queue, slots and
        bytes hit are what the events make of them, and after every cull each byte hit so far
        has been hit by a favoured entry, until scores change again. */
    method Run(events: seq<Event>, ghost b: Books)
      requires Valid() && Settled() && b.Ok() && Matches(b) && AllAllowed(b, events)
      modifies this, top_rated, queue
      ensures Valid() && Settled() && Matches(AfterAll(b, events))
      ensures events != [] && events[|events| - 1] == Culled(false) ==>
                forall i :: i in ever && i < map_size ==> FavoredHit(i)
    {
      hide Valid, Settled, FavoredHit, Matches, Allowed, After;
      ghost var cur := b;
      assert events[0..] == events;
      for i := 0 to |events|
        invariant Valid() && Settled() && cur.Ok() && Matches(cur) && top_rated == old(top_rated)
        invariant AllAllowed(cur, events[i..]) && AfterAll(cur, events[i..]) == AfterAll(b, events)
        invariant forall j :: 0 <= j < |queue| ==> queue[j] in old(queue) || fresh(queue[j])
        invariant i > 0 && events[i - 1] == Culled(false) ==> !score_changed
      {
        assert events[i..][0] == events[i] && events[i..][1..] == events[i + 1..];
        Handle(events[i], cur);
        assert forall j :: 0 <= j < |queue| ==> queue[j] in queue;
        cur := After(cur, events[i]);
      }
      if !score_changed { CleanIsFavored(); }
    }

    lemma CleanIsFavored()
      requires Settled() && !score_changed
      ensures forall i :: i in ever && i < map_size ==> FavoredHit(i)
    {
    }

    lemma CoveredIsFavored(picked: seq<QueueEntry>, kept: set<QueueEntry>)
      requires EverHit(picked) && FavoredExactly(picked, kept) && forall e :: e in picked ==> e in queue
      ensures Settled()
    {
    }

    /** The loop over the slots. */
    method FavorWinners(ghost kept: set<QueueEntry>) returns (ghost picked: seq<QueueEntry>)
      requires Valid() && FavoredExactly([], kept)
      modifies this`queued_favored, queue`favored
      ensures queued_favored == |picked| && Greedy(picked)
      ensures FavoredExactly(picked, kept) && EverHit(picked)
    {
      hide Valid, Greedy, CoveredBy, BitOf, FavoredExactly, Includes, EverHit;
      picked := [];
      ValidShape();
      var temp_v: seq<bv8> := seq(map_size / 8, _ => 255);
      queued_favored := 0;
      NothingPicked(temp_v);
      var i: nat := 0;
      while i < map_size
        invariant i <= map_size && |temp_v| == map_size / 8
        invariant queued_favored == |picked| && Greedy(picked)
        invariant TempIs(temp_v, picked)
        invariant forall k: nat :: k < i && top_rated[k] != null ==> CoveredBy(picked, k)
        invariant FavoredExactly(picked, kept)
      {
        ValidSlot(i);
        if top_rated[i] != null {
          if BitOf(temp_v[i / 8], i % 8) {
            var q := top_rated[i];
            ghost var before := temp_v;
            temp_v := RemoveBits(temp_v, q.trace_mini);
            PickNext(picked, q, i, before, temp_v);
            Favor(q, picked, kept);
            queued_favored := queued_favored + 1;
            picked := picked + [q];
          }
        }
        i := i + 1;
      }
      GreedyInQueue(picked);
      AllCovered(picked);
    }

    method Favor(q: QueueEntry, ghost picked: seq<QueueEntry>, ghost kept: set<QueueEntry>)
      requires q in queue && FavoredExactly(picked, kept)
      modifies q`favored
      ensures FavoredExactly(picked + [q], kept)
    {
      q.favored := true;
    }

    lemma GreedyInQueue(picked: seq<QueueEntry>)
      requires Greedy(picked)
      ensures forall e :: e in picked ==> e in queue
    {
    }

    lemma ValidShape()
      requires Valid()
      ensures Shape()
    {
    }

    lemma ValidSlot(i: nat)
      requires Valid() && i < map_size
      ensures top_rated.Length == map_size && map_size % 8 == 0
      ensures top_rated[i] != null ==>
                && top_rated[i] in queue && |top_rated[i].trace_mini| == map_size / 8
                && Includes(top_rated[i].trace_mini, i)
    {
    }

    /** temp_v holds the map bytes that no picked entry covers. */
    ghost predicate TempIs(temp_v: seq<bv8>, picked: seq<QueueEntry>)
      requires |temp_v| == map_size / 8 && map_size % 8 == 0
      reads picked`trace_mini
    {
      forall k: nat :: k < map_size ==> (Bit(temp_v, k) <==> !CoveredBy(picked, k))
    }

    lemma NothingPicked(temp_v: seq<bv8>)
      requires Shape() && |temp_v| == map_size / 8 && forall j :: 0 <= j < |temp_v| ==> temp_v[j] == 255
      ensures TempIs(temp_v, []) && Greedy([])
    {
      hide BitOf;
      forall i: nat | i < map_size ensures Bit(temp_v, i) {
        AllOrNothing(i % 8);
      }
    }

    lemma CoversMore(picked: seq<QueueEntry>, q: QueueEntry, k: nat)
      ensures CoveredBy(picked + [q], k) <==> CoveredBy(picked, k) || Includes(q.trace_mini, k)
    {
      assert q in picked + [q];
    }

    lemma GreedyMore(picked: seq<QueueEntry>, q: QueueEntry, i: nat)
      requires Shape() && Greedy(picked) && i < map_size && top_rated[i] == q && Includes(q.trace_mini, i)
      requires !CoveredBy(picked, i)
      ensures Greedy(picked + [q])
    {
      var more := picked + [q];
      forall k | 0 <= k < |more|
        ensures exists i: nat :: i < top_rated.Length && top_rated[i] == more[k] && !CoveredBy(more[..k], i)
      {
        if k < |picked| { assert more[..k] == picked[..k]; } else { assert more[..k] == picked; }
      }
    }

    lemma PickNext(picked: seq<QueueEntry>, q: QueueEntry, i: nat, before: seq<bv8>, after: seq<bv8>)
      requires Shape() && Greedy(picked) && i < map_size && top_rated[i] == q && Includes(q.trace_mini, i)
      requires |q.trace_mini| == |before| == |after| == map_size / 8
      requires TempIs(before, picked) && Bit(before, i)
      requires forall k: nat :: k < 8 * |after| ==> (Bit(after, k) <==> Bit(before, k) && !Bit(q.trace_mini, k))
      ensures Greedy(picked + [q]) && TempIs(after, picked + [q])
      ensures forall k: nat :: CoveredBy(picked, k) ==> CoveredBy(picked + [q], k)
      ensures CoveredBy(picked + [q], i)
    {
      hide Bit, CoveredBy, Greedy;
      forall k: nat ensures CoveredBy(picked + [q], k) <==> CoveredBy(picked, k) || Includes(q.trace_mini, k) {
        CoversMore(picked, q, k);
      }
      GreedyMore(picked, q, i);
    }

    lemma AllCovered(picked: seq<QueueEntry>)
      requires Valid()
      requires forall k: nat :: k < map_size && top_rated[k] != null ==> CoveredBy(picked, k)
      requires forall e :: e in picked ==> e in queue
      ensures EverHit(picked)
    {
      hide Includes;
      forall i: nat | i in ever && i < map_size ensures exists e :: e in picked && i in e.hits {
        assert CoveredBy(picked, i);
        var e :| e in picked && Includes(e.trace_mini, i);
        assert i in e.hits;
      }
    }

    /** The first queue walk of cull_queue: only initial seeds stay favoured. */
    method ResetFavored()
      requires Shape()
      modifies queue`favored
      ensures FavoredExactly([], old(KeptFavored()))
    {
      for k := 0 to |queue|
        invariant forall j :: 0 <= j < |queue| ==>
                    queue[j].favored ==
                      if j < k then queue[j].is_initial_seed && old(queue[j].favored) else old(queue[j].favored)
      {
        if !queue[k].is_initial_seed {
          queue[k].favored := false;
        }
      }
    }

    /** Each picked entry wins a slot that no entry picked before it covers. */
    ghost predicate Greedy(picked: seq<QueueEntry>)
      reads this`queue, this`top_rated, top_rated, picked`trace_mini
    {
      && (forall e :: e in picked ==> e in queue)
      && (forall j, k :: 0 <= j < k < |picked| ==> picked[j] != picked[k])
      && forall k :: 0 <= k < |picked| ==>
           exists i: nat :: i < top_rated.Length && top_rated[i] == picked[k] && !CoveredBy(picked[..k], i)
    }
  }

  ghost predicate KeptOrDropped(before: seq<bv8>, after: seq<bv8>) {
    after == before || after == []
  }

  /** mini is trace_bits, compacted. */
  ghost predicate TraceOf(mini: seq<bv8>, trace_bits: seq<bv8>) {
    8 * |mini| == |trace_bits| && forall k: nat :: k < |trace_bits| ==> (Includes(mini, k) <==> trace_bits[k] != 0)
  }

  lemma BitsAreIncluded(mini: seq<bv8>, trace_bits: seq<bv8>)
    requires 8 * |mini| == |trace_bits| && forall k: nat :: k < |trace_bits| ==> (Bit(mini, k) <==> trace_bits[k] != 0)
    ensures TraceOf(mini, trace_bits)
    ensures forall k: nat :: Includes(mini, k) ==> k in Hits(trace_bits)
  {
  }

  lemma NothingKept()
    ensures forall i: nat :: !Includes([], i)
  {
  }

  /** What happens to the queue: an entry joins it, its states are counted, it is scored,
      cull_queue runs. */
  datatype Event =
    | Queued(is_initial_seed: bool, unique_state_count: nat, fav_factor: nat)
    | Counted(k: nat, unique_state_count: nat)
    | Scored(k: nat, trace_bits: seq<bv8>)
    | Culled(dumb_mode: bool)

  // ----- the books kept by number: what a run amounts to -----

  datatype Seed = Seed(initial: bool, count: nat, hits: set<nat>, scored: bool)

  /** Seeds in queue order, bytes hit, and the number of each slot's winner, -1 for none. */
  datatype Books = Books(seeds: seq<Seed>, ever: set<nat>, winners: seq<int>, changed: bool)
  {
    ghost predicate Ok() {
      forall i :: 0 <= i < |winners| ==> winners[i] < |seeds|
    }

    predicate Wins(k: nat, trace_bits: seq<bv8>, i: nat)
      requires k < |seeds| && i < |winners| == |trace_bits| && winners[i] < |seeds|
    {
      trace_bits[i] != 0 && (winners[i] < 0 || seeds[k].count >= seeds[winners[i]].count)
    }
  }

  ghost predicate Allowed(b: Books, e: Event) {
    match e
    case Queued(_, _, _) => true
    case Counted(k, _) => k < |b.seeds|
    case Scored(k, trace_bits) =>
      k < |b.seeds| && |trace_bits| == |b.winners| && (b.seeds[k].scored ==> Hits(trace_bits) == b.seeds[k].hits)
    case Culled(_) => true
  }

  ghost function After(b: Books, e: Event): (r: Books)
    requires b.Ok() && Allowed(b, e)
    ensures r.Ok()
  {
    match e
    case Queued(initial, count, _) => b.(seeds := b.seeds + [Seed(initial, count, {}, false)])
    case Counted(k, n) => b.(seeds := b.seeds[k := b.seeds[k].(count := n)])
    case Scored(k, t) =>
      b.(seeds := b.seeds[k := b.seeds[k].(hits := b.seeds[k].hits + Hits(t), scored := true)],
         ever := b.ever + Hits(t),
         winners := seq(|b.winners|, i requires 0 <= i < |b.winners| => if b.Wins(k, t, i) then k else b.winners[i]),
         changed := b.changed || exists i: nat :: i < |b.winners| && b.Wins(k, t, i))
    case Culled(dumb_mode) => b.(changed := b.changed && dumb_mode)
  }

  ghost predicate AllAllowed(b: Books, events: seq<Event>)
    requires b.Ok()
    decreases |events|
  {
    events == [] || (Allowed(b, events[0]) && AllAllowed(After(b, events[0]), events[1..]))
  }

  ghost function AfterAll(b: Books, events: seq<Event>): (r: Books)
    requires b.Ok() && AllAllowed(b, events)
    ensures r.Ok()
    decreases |events|
  {
    if events == [] then b else AfterAll(After(b, events[0]), events[1..])
  }

  /** The bytes ever hit are those of the scored traces. */
  lemma {:induction false} EverIsUnion(b: Books, events: seq<Event>, i: nat)
    requires b.Ok() && AllAllowed(b, events)
    ensures i in AfterAll(b, events).ever <==>
              i in b.ever || exists j :: 0 <= j < |events| && events[j].Scored? && i in Hits(events[j].trace_bits)
    decreases |events|
  {
    hide Hits, Allowed;
    if events != [] {
      EverIsUnion(After(b, events[0]), events[1..], i);
      if j :| 0 <= j < |events| && events[j].Scored? && i in Hits(events[j].trace_bits) {
        if j > 0 { assert events[j] == events[1..][j - 1]; }
      }
    }
  }

  /** Each slot's winner has at least as many states as any other entry that hit the byte. */
  ghost predicate BestWins(b: Books)
    requires b.Ok()
  {
    forall k: nat, i: nat :: k < |b.seeds| && i < |b.winners| && i in b.seeds[k].hits ==>
      b.winners[i] >= 0 && b.seeds[k].count <= b.seeds[b.winners[i]].count
  }

  /** So it stays, unless states are counted anew for an entry that has hit something, as
      happens after the dry run. */
  lemma BestKeepsWinning(b: Books, e: Event)
    requires b.Ok() && BestWins(b) && Allowed(b, e)
    requires e.Counted? ==> b.seeds[e.k].hits == {} && e.k !in b.winners
    ensures BestWins(After(b, e))
  {
  }

  /** A kept trace of an entry scored before is the trace it is scored with again. */
  lemma KeptAccountsFor(q: QueueEntry, s: Seed, trace_bits: seq<bv8>)
    requires SeedMatches(q, s) && (s.scored ==> Hits(trace_bits) == s.hits)
    ensures q.trace_mini != [] ==> forall i: nat :: i < |trace_bits| && trace_bits[i] != 0 ==> Includes(q.trace_mini, i)
    ensures forall mini :: TraceOf(mini, trace_bits) ==> forall i: nat :: Includes(mini, i) <==> i in Hits(trace_bits)
    ensures s.hits + Hits(trace_bits) == Hits(trace_bits)
  {
    forall mini, i: nat | TraceOf(mini, trace_bits) ensures Includes(mini, i) <==> i in Hits(trace_bits) {
    }
  }

  /** Two entries that hit the same byte: the second one takes its slot exactly if it has no
      fewer states, however slow and large it is. */
  method OnlyStatesDecide(count1: nat, factor1: nat, count2: nat, factor2: nat)
    returns (s: Scores, first: QueueEntry, second: QueueEntry)
    ensures first.unique_state_count == count1 && first.fav_factor == factor1 && 0 in first.hits
    ensures second.unique_state_count == count2 && second.fav_factor == factor2 && 0 in second.hits
    ensures s.Valid() && s.top_rated.Length > 0 && first != second
    ensures s.top_rated[0] == if count2 < count1 then first else second
  {
    hide Scores.Valid, Scores.Settled, Includes, Hits, TraceOf, KeptOrDropped;
    var trace: seq<bv8> := [1, 0, 0, 0, 0, 0, 0, 0];
    assert 0 in Hits(trace) by { FirstByteHit(trace); }
    s := new Scores(8);
    first := new QueueEntry(false, count1, factor1);
    s.Enqueue(first);
    assert s.top_rated[0] == null by { NoWinnerYet(s); }
    s.UpdateBitmapScore(first, trace);
    second := new QueueEntry(false, count2, factor2);
    s.Enqueue(second);
    s.UpdateBitmapScore(second, trace);
  }

  lemma FirstByteHit(trace_bits: seq<bv8>)
    requires trace_bits != [] && trace_bits[0] != 0
    ensures 0 in Hits(trace_bits)
  {
  }

  lemma NoWinnerYet(s: Scores)
    requires s.Valid() && s.ever == {} && s.map_size > 0
    ensures s.top_rated.Length == s.map_size && s.top_rated[0] == null
  {
  }

  ghost predicate SeedMatches(q: QueueEntry, s: Seed)
    reads q
  {
    && q.is_initial_seed == s.initial && q.unique_state_count == s.count && q.hits == s.hits
    && (!s.scored ==> s.hits == {} && q.trace_mini == [])
    && (q.trace_mini != [] ==> forall i: nat :: Includes(q.trace_mini, i) <==> i in s.hits)
  }

  ghost predicate CoveredBy(picked: seq<QueueEntry>, i: nat)
    reads picked`trace_mini
  {
    exists e :: e in picked && Includes(e.trace_mini, i)
  }

  /** `temp_v[j] &= ~trace_mini[j]` for every j where trace_mini is not zero. */
  method RemoveBits(temp_v: seq<bv8>, mini: seq<bv8>) returns (r: seq<bv8>)
    requires |temp_v| == |mini|
    ensures |r| == |temp_v|
    ensures forall k: nat :: k < 8 * |r| ==> (Bit(r, k) <==> Bit(temp_v, k) && !Bit(mini, k))
  {
    hide BitOf, ClearBits;
    r := temp_v;
    var j: nat := |temp_v|;
    while j > 0
      invariant j <= |r| == |temp_v|
      invariant forall k :: 0 <= k < |r| ==> r[k] == if k >= j then ClearBits(temp_v[k], mini[k]) else temp_v[k]
    {
      j := j - 1;
      ClearBitsLaw(temp_v[j], mini[j], 0);
      if mini[j] != 0 {
        r := r[j := ClearBits(r[j], mini[j])];
      }
    }
    forall k: nat | k < 8 * |r| ensures Bit(r, k) <==> Bit(temp_v, k) && !Bit(mini, k) {
      ClearBitsLaw(temp_v[k / 8], mini[k / 8], k % 8);
    }
  }

  ghost predicate Includes(mini: seq<bv8>, i: nat) {
    i < 8 * |mini| && Bit(mini, i)
  }

  ghost function Hits(trace_bits: seq<bv8>): set<nat> {
    set i: nat | i < |trace_bits| && trace_bits[i] != 0
  }
}
