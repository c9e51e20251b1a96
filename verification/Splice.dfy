/** The message sequence M1 . M2 . M3 of a fuzzing session: choosing M2 in fuzz_one and
    replacing it in place, once per execution, in common_fuzz_stuff. */
module Splice {
  import opened Bytes
  import opened Klist

  // ----- the new M2, as a value -----

  /** The i-th message cut from out_buf; the last one allowed takes all the rest. */
  function Cut(out_buf: seq<byte>, regions: seq<Region>, max: nat, i: nat): Message
    requires Fits(regions, out_buf) && i < |regions| && i <= max
  {
    FitsAt(regions, out_buf, i);
    out_buf[regions[i].start..if i == max then Stop(regions) else regions[i].end + 1]
  }

  function MessageCount(regions: seq<Region>, max: nat): nat {
    if |regions| <= max + 1 then |regions| else max + 1
  }

  function Messages(out_buf: seq<byte>, regions: seq<Region>, max: nat): (ms: seq<Message>)
    requires Fits(regions, out_buf)
  {
    seq(MessageCount(regions, max), i requires 0 <= i < MessageCount(regions, max) => Cut(out_buf, regions, max, i))
  }

  /** The messages are exactly the framed part of out_buf, at most max + 1 of them. */
  lemma MessagesCoverBuffer(out_buf: seq<byte>, regions: seq<Region>, max: nat)
    requires Fits(regions, out_buf)
    ensures Concat(Messages(out_buf, regions, max)) == out_buf[..Stop(regions)]
    ensures |Messages(out_buf, regions, max)| <= max + 1
    ensures regions != [] ==> Messages(out_buf, regions, max) != []
  {
    var ms := Messages(out_buf, regions, max);
    if regions != [] {
      CoverFrom(out_buf, regions, max, 0);
      assert ms[0..] == ms;
      FitsAt(regions, out_buf, 0);
    }
  }

  /** One message for each region; those from the max-th region on make up a single one. */
  lemma MessagesOfRegions(out_buf: seq<byte>, regions: seq<Region>, max: nat, i: nat)
    requires Fits(regions, out_buf) && i < |regions| && i <= max
    ensures |Messages(out_buf, regions, max)| == if |regions| <= max then |regions| else max + 1
    ensures regions[i].start <= regions[i].end < Stop(regions) <= |out_buf|
    ensures i < max ==> Messages(out_buf, regions, max)[i] == out_buf[regions[i].start..regions[i].end + 1]
    ensures i == max ==> Messages(out_buf, regions, max)[i] == out_buf[regions[i].start..Stop(regions)]
  {
    FitsAt(regions, out_buf, i);
  }

  lemma {:induction false} CoverFrom(out_buf: seq<byte>, regions: seq<Region>, max: nat, i: nat)
    requires Fits(regions, out_buf) && i < MessageCount(regions, max)
    ensures regions[i].start <= Stop(regions)
    ensures Concat(Messages(out_buf, regions, max)[i..]) == out_buf[regions[i].start..Stop(regions)]
    decreases |regions| - i
  {
    var ms := Messages(out_buf, regions, max);
    FitsAt(regions, out_buf, i);
    if i == |ms| - 1 {
      assert ms[i] == out_buf[regions[i].start..Stop(regions)];
      assert ms[i..] == [ms[i]];
      ConcatOne(ms[i]);
    } else {
      FitsAt(regions, out_buf, i + 1);
      CoverFrom(out_buf, regions, max, i + 1);
      assert ms[i..][1..] == ms[i + 1..];
      assert Concat(ms[i..]) == ms[i] + Concat(ms[i + 1..]);
    }
  }

  /** The pool after k allocations. */
  ghost function Used(pool: seq<Node>, k: nat): seq<Node> {
    if k <= |pool| then pool[..|pool| - k] else []
  }

  // ----- the rearrangement, as a value -----

  /** From M1 M2 M3 N tail to M1 N M3 tail; n0 - 1 is where N starts. */
  ghost function Rearranged<T>(all: seq<T>, i1: nat, i2: nat, n0: nat): seq<T>
    requires i1 <= i2 < n0 < |all|
  {
    all[..i1] + all[n0 - 1..|all| - 1] + all[i2..n0 - 1] + [all[|all| - 1]]
  }

  /** The node that follows M2 once N has been pushed. */
  ghost function AfterM2(all: seq<Node>, i2: nat, n0: nat): Node
    requires i2 < n0 < |all|
  {
    if i2 == n0 - 1 then all[|all| - 1] else all[i2]
  }

  /** The next pointers of M1 M2 M3 N tail after the surgery. */
  ghost predicate Rewired(all: seq<Node>, i1: nat, i2: nat, n0: nat)
    requires i1 < i2 < n0 < |all|
    reads all
  {
    forall i :: 0 <= i < |all| - 1 ==>
      all[i].next == if i == i1 - 1 then all[n0 - 1]
                     else if i == |all| - 2 then AfterM2(all, i2, n0)
                     else if i == n0 - 2 then all[|all| - 1]
                     else all[i + 1]
  }

  lemma NextOf(all: seq<Node>, i1: nat, i2: nat, n0: nat, i: nat)
    requires i1 < i2 < n0 < |all| && Rewired(all, i1, i2, n0) && i < |all| - 1
    ensures all[i].next == if i == i1 - 1 then all[n0 - 1]
                           else if i == |all| - 2 then AfterM2(all, i2, n0)
                           else if i == n0 - 2 then all[|all| - 1]
                           else all[i + 1]
  {
  }

  lemma RewiredChains(all: seq<Node>, contents: seq<Message>, i1: nat, i2: nat, n0: nat)
    requires i1 < i2 < n0 < |all| && |contents| == |all| - 1
    requires Rewired(all, i1, i2, n0) && Holds(all, contents)
    ensures Chain(Rearranged(all, i1, i2, n0)) && Chain(all[i1..i2] + [AfterM2(all, i2, n0)])
    ensures Holds(Rearranged(all, i1, i2, n0), Spliced(contents, i1, i2, n0))
  {
    var r := Rearranged(all, i1, i2, n0);
    RearrangedSource(all, i1, i2, n0);
    forall i | 0 <= i < |r| - 1 ensures r[i].next == r[i + 1] {
      var s := Source(all, i1, i2, n0, i);
      assert r[i] == all[s] && r[i + 1] == all[Source(all, i1, i2, n0, i + 1)];
      NextOf(all, i1, i2, n0, s);
    }
    var d := all[i1..i2] + [AfterM2(all, i2, n0)];
    forall i | 0 <= i < |d| - 1 ensures d[i].next == d[i + 1] {
      assert d[i] == all[i1 + i];
      NextOf(all, i1, i2, n0, i1 + i);
    }
  }

  /** Where each node of the rearranged list was before. */
  ghost function Source<T>(all: seq<T>, i1: nat, i2: nat, n0: nat, i: nat): (j: nat)
    requires i1 < i2 < n0 < |all| && i < |all| - (i2 - i1)
    ensures j < |all|
  {
    var k := |all| - n0;
    if i < i1 then i
    else if i < i1 + k then n0 - 1 + (i - i1)
    else if i < |all| - (i2 - i1) - 1 then i2 + (i - i1 - k)
    else |all| - 1
  }

  lemma RearrangedSource<T>(all: seq<T>, i1: nat, i2: nat, n0: nat)
    requires i1 < i2 < n0 < |all|
    ensures |Rearranged(all, i1, i2, n0)| == |all| - (i2 - i1)
    ensures forall i :: 0 <= i < |all| - (i2 - i1) ==>
              Rearranged(all, i1, i2, n0)[i] == all[Source(all, i1, i2, n0, i)]
  {
  }

  lemma RearrangedAt(all: seq<Node>, i1: nat, i2: nat, n0: nat)
    requires i1 < i2 < n0 < |all|
    ensures var r := Rearranged(all, i1, i2, n0);
            && |r| == |all| - (i2 - i1)
            && (i1 > 0 ==> r[i1 - 1] == all[i1 - 1])
            && r[i1 + (|all| - n0)] == AfterM2(all, i2, n0)
            && AfterM2(all, i2, n0) in r
  {
    var r := Rearranged(all, i1, i2, n0);
    assert r[i1 + (|all| - n0)] == AfterM2(all, i2, n0);
  }

  lemma PrefixAgrees(all: seq<Node>, prefix: seq<Node>, i1: nat, i2: nat)
    requires i1 < i2 < |prefix| <= |all| && all[..|prefix|] == prefix
    ensures all[|prefix| - 2] == prefix[|prefix| - 2] && all[i1..i2] == prefix[i1..i2] && all[i2] == prefix[i2]
    ensures i1 > 0 ==> all[i1 - 1] == prefix[i1 - 1]
  {
    assert forall i :: 0 <= i < |prefix| ==> all[..|prefix|][i] == all[i];
  }

  lemma LaterRegionFits(regions: seq<Region>, out_buf: seq<byte>, i: nat)
    requires Fits(regions, out_buf) && i < |regions|
    ensures regions[i].start <= regions[|regions| - 1].end
  {
    LaterRegion(regions, i, |regions| - 1, Stop(regions));
  }

  lemma MessageAt(out_buf: seq<byte>, regions: seq<Region>, max: nat, i: nat)
    requires Fits(regions, out_buf) && i < MessageCount(regions, max)
    requires regions[i].start <= regions[i].end < |out_buf| && regions[i].start <= Stop(regions) <= |out_buf|
    ensures |Messages(out_buf, regions, max)| == MessageCount(regions, max)
    ensures Messages(out_buf, regions, max)[i] ==
            out_buf[regions[i].start..if i == max then regions[|regions| - 1].end + 1 else regions[i].end + 1]
  {
  }

  lemma UsedSteps(pool: seq<Node>, i: nat)
    ensures Used(pool, 0) == pool
    ensures Used(Used(pool, i), 1) == Used(pool, i + 1)
  {
  }

  lemma MessageCountIsLength(out_buf: seq<byte>, regions: seq<Region>, max: nat)
    requires Fits(regions, out_buf)
    ensures |Messages(out_buf, regions, max)| == MessageCount(regions, max)
    ensures regions != [] ==> MessageCount(regions, max) > 0
  {
  }

  lemma RearrangedDistinct(all: seq<Node>, i1: nat, i2: nat, n0: nat)
    requires i1 < i2 < n0 < |all| && Distinct(all)
    ensures Distinct(Rearranged(all, i1, i2, n0)) && Distinct(all[i1..i2])
    ensures Apart(all[i1..i2], Rearranged(all, i1, i2, n0))
    ensures forall x :: x in Rearranged(all, i1, i2, n0) ==> x in all
  {
    RearrangedSource(all, i1, i2, n0);
  }

  class Session {
    var kl_messages: List
    // Last message of M1, or null; first message of M3, or the sentinel.
    var M2_prev: Node?
    var M2_next: Node

    // M1 is nodes[..i1], M2 is nodes[i1..i2], M3 is nodes[i2..] without the sentinel.
    ghost var i1: nat
    ghost var i2: nat

    ghost predicate Valid()
      reads this, kl_messages, kl_messages.mp, kl_messages.nodes
    {
      && kl_messages.Valid() && this !in kl_messages.Repr
      && i1 < i2 < |kl_messages.nodes|
      && M2_prev == (if i1 == 0 then null else kl_messages.nodes[i1 - 1])
      && M2_next == kl_messages.nodes[i2]
    }

    ghost function M1(): seq<Message>
      requires Valid()
      reads this, kl_messages, kl_messages.mp, kl_messages.nodes
    {
      kl_messages.contents[..i1]
    }

    ghost function M2(): seq<Message>
      requires Valid()
      reads this, kl_messages, kl_messages.mp, kl_messages.nodes
    {
      kl_messages.contents[i1..i2]
    }

    ghost function M3(): seq<Message>
      requires Valid()
      reads this, kl_messages, kl_messages.mp, kl_messages.nodes
    {
      kl_messages.contents[i2..]
    }

    /** The walk of fuzz_one that turns region numbers into M2_prev and M2_next. */
    constructor (kl: List, M2_start_region_ID: nat, M2_region_count: nat)
      requires kl.Valid()
      requires M2_region_count > 0 && M2_start_region_ID + M2_region_count <= |kl.contents|
      ensures Valid() && kl_messages == kl
      ensures i1 == M2_start_region_ID && i2 == i1 + M2_region_count
    {
      kl_messages := kl;
      M2_prev := null;
      M2_next := kl.tail;
      i1, i2 := M2_start_region_ID, M2_start_region_ID + M2_region_count;
      new;
      hide Apart;
      var it := kl.head;
      var count := 0;
      while it != kl.tail
        invariant kl_messages == kl && kl.Valid() && i1 == M2_start_region_ID && i2 == i1 + M2_region_count
        invariant 0 <= count < |kl.nodes| && it == kl.nodes[count]
        invariant M2_prev == if M2_start_region_ID > 0 && count >= M2_start_region_ID then kl.nodes[i1 - 1] else null
        invariant M2_next == if count > i2 then kl.nodes[i2] else kl.tail
        decreases |kl.nodes| - count
      {
        if count == M2_start_region_ID - 1 {
          M2_prev := it;
        }
        if count == M2_start_region_ID + M2_region_count {
          M2_next := it;
        }
        assert it.next == kl.nodes[count + 1];
        it := it.next;
        count := count + 1;
      }
    }

    /** The push loop of common_fuzz_stuff. */
    method PushMessages(out_buf: seq<byte>, regions: seq<Region>, max: nat)
      requires Valid() && regions != [] && Fits(regions, out_buf)
      modifies this`M2_next, kl_messages.Repr
      ensures fresh(kl_messages.Repr - old(kl_messages.Repr)) && kl_messages == old(kl_messages)
      ensures kl_messages.Valid() && kl_messages.mp == old(kl_messages.mp)
      ensures kl_messages.contents == old(kl_messages.contents) + Messages(out_buf, regions, max)
      ensures kl_messages.nodes[..|old(kl_messages.nodes)|] == old(kl_messages.nodes)
      ensures M2_next == if i2 == |old(kl_messages.nodes)| - 1 then kl_messages.tail else old(M2_next)
      ensures kl_messages.mp.buf == Used(old(kl_messages.mp.buf), MessageCount(regions, max))
    {
      hide Messages, Fits, Used, Distinct, Apart, Chain, Holds;
      var kl := kl_messages;
      ghost var ms := Messages(out_buf, regions, max);
      MessageCountIsLength(out_buf, regions, max);
      UsedSteps(kl.mp.buf, 0);
      ghost var n0 := |kl.nodes|;
      var i := 0;
      while i < |regions|
        invariant kl == kl_messages && kl.Valid() && kl.mp == old(kl.mp)
        invariant 0 <= i <= |ms| && i <= max
        invariant kl.contents == old(kl.contents) + ms[..i]
        invariant |kl.nodes| == n0 + i && kl.nodes[..n0] == old(kl.nodes)
        invariant fresh(kl.Repr - old(kl.Repr)) && this !in kl.Repr
        invariant M2_next == if i2 == n0 - 1 then kl.tail else old(M2_next)
        invariant kl.mp.buf == Used(old(kl.mp.buf), i)
        decreases |regions| - i
      {
        FitsAt(regions, out_buf, i);
        FitsAt(regions, out_buf, |regions| - 1);
        LaterRegionFits(regions, out_buf, i);
        var len := if i == max then regions[|regions| - 1].end - regions[i].start + 1
                   else regions[i].end - regions[i].start + 1;
        var m := out_buf[regions[i].start..regions[i].start + len];
        MessageAt(out_buf, regions, max, i);
        UsedSteps(old(kl.mp.buf), i);
        PushOne(m, n0);
        i := i + 1;
        assert ms[..i] == ms[..i - 1] + [m];
        if i - 1 == max {
          break;
        }
      }
    }

    /** Push one message and repair M2_next if it was the sentinel that took the data. */
    method PushOne(m: Message, ghost n0: nat)
      requires kl_messages.Valid() && this !in kl_messages.Repr && i2 < n0 <= |kl_messages.nodes|
      requires M2_next == if i2 == n0 - 1 then kl_messages.tail else kl_messages.nodes[i2]
      modifies this`M2_next, kl_messages.Repr
      ensures fresh(kl_messages.Repr - old(kl_messages.Repr)) && kl_messages == old(kl_messages)
      ensures kl_messages.Valid() && kl_messages.mp == old(kl_messages.mp)
      ensures kl_messages.contents == old(kl_messages.contents) + [m]
      ensures kl_messages.nodes == old(kl_messages.nodes) + [kl_messages.tail]
      ensures M2_next == if i2 == n0 - 1 then kl_messages.tail else old(M2_next)
      ensures kl_messages.mp.buf == Used(old(kl_messages.mp.buf), 1)
    {
      var kl := kl_messages;
      ghost var nodes := kl.nodes;
      kl.Push(m);
      if i2 == n0 - 1 {
        assert nodes[|nodes| - 1] == kl.nodes[|nodes| - 1];
      } else {
        assert kl.nodes[i2].next == kl.nodes[i2 + 1];
      }
      if M2_next.next == kl.tail {
        M2_next := kl.tail;
      }
    }

    /** The pointer surgery: the messages just pushed behind M3 become the new M2, and the
        old M2 is detached. */
    method Relink(prev_last: Node, cur_last: Node, ghost n0: nat) returns (old_M2_start: Node)
      requires kl_messages.Linked() && this !in kl_messages.Repr
      requires i1 < i2 < n0 < |kl_messages.nodes|
      requires M2_prev == (if i1 == 0 then null else kl_messages.nodes[i1 - 1])
      requires M2_next == AfterM2(kl_messages.nodes, i2, n0)
      requires prev_last == kl_messages.nodes[n0 - 2] && cur_last == kl_messages.nodes[|kl_messages.nodes| - 2]
      modifies kl_messages`head, kl_messages.nodes
      ensures Rewired(kl_messages.nodes, i1, i2, n0)
      ensures Holds(kl_messages.nodes, kl_messages.contents)
      ensures old_M2_start == kl_messages.nodes[i1]
      ensures kl_messages.head == if i1 == 0 then kl_messages.nodes[n0 - 1] else old(kl_messages.head)
      ensures kl_messages.tail.next == null
    {
      var kl := kl_messages;
      ghost var all := kl.nodes;
      assert all[n0 - 2].next == all[n0 - 1];
      if M2_prev == null {
        old_M2_start := kl.head;
        kl.head := prev_last.next;
        cur_last.next := M2_next;
        prev_last.next := kl.tail;
      } else {
        assert all[i1 - 1].next == all[i1];
        old_M2_start := M2_prev.next;
        M2_prev.next := prev_last.next;
        cur_last.next := M2_next;
        prev_last.next := kl.tail;
      }
    }

    /** After Relink: the list without the detached nodes is in order again. */
    ghost method Reorder(n0: nat) returns (detached: seq<Node>)
      requires this !in kl_messages.Repr
      requires i1 < i2 < n0 < |kl_messages.nodes| && |kl_messages.contents| == |kl_messages.nodes| - 1
      requires Distinct(kl_messages.nodes) && Rewired(kl_messages.nodes, i1, i2, n0)
      requires Holds(kl_messages.nodes, kl_messages.contents)
      requires kl_messages.head == kl_messages.nodes[if i1 == 0 then n0 - 1 else 0]
      requires kl_messages.tail == kl_messages.nodes[|kl_messages.nodes| - 1] && kl_messages.tail.next == null
      requires kl_messages.PoolApart() && kl_messages.Owns()
      modifies kl_messages`nodes, kl_messages`contents
      ensures kl_messages.nodes == Rearranged(old(kl_messages.nodes), i1, i2, n0)
      ensures kl_messages.contents == Spliced(old(kl_messages.contents), i1, i2, n0)
      ensures kl_messages.Linked() && kl_messages.PoolApart() && kl_messages.Owns()
      ensures detached == old(kl_messages.nodes)[i1..i2]
      ensures Chain(detached + [AfterM2(old(kl_messages.nodes), i2, n0)]) && Distinct(detached)
      ensures Apart(detached, kl_messages.nodes) && Apart(detached, kl_messages.mp.buf)
      ensures forall n :: n in detached ==> n in kl_messages.Repr
    {
      hide Distinct, Chain, Rewired, Holds;
      var kl, all := kl_messages, kl_messages.nodes;
      RearrangedDistinct(all, i1, i2, n0);
      RewiredChains(all, kl.contents, i1, i2, n0);
      detached := all[i1..i2];
      kl.nodes := Rearranged(all, i1, i2, n0);
      kl.contents := Spliced(kl.contents, i1, i2, n0);
    }

    /** Hands the detached nodes to the pool, walking their next pointers up to M2_next. */
    method FreeDetached(old_M2_start: Node, ghost detached: seq<Node>)
      requires this !in kl_messages.Repr
      requires kl_messages.Linked() && kl_messages.PoolApart() && kl_messages.Owns()
      requires detached != [] && detached[0] == old_M2_start && Chain(detached + [M2_next])
      requires Distinct(detached) && Apart(detached, kl_messages.nodes) && Apart(detached, kl_messages.mp.buf)
      requires forall n :: n in detached ==> n in kl_messages.Repr
      requires M2_next in kl_messages.nodes
      requires kl_messages.size == |kl_messages.nodes| - 1 + |detached|
      requires kl_messages.mp.cnt == |kl_messages.nodes| + |detached|
      modifies kl_messages`size, kl_messages.mp
      ensures kl_messages.Valid()
      ensures kl_messages.mp.buf == old(kl_messages.mp.buf) + detached
    {
      hide Distinct, Apart;
      assert M2_next !in detached by { ApartFrom(detached, kl_messages.nodes, M2_next); }
      PoolGrows(kl_messages.nodes, kl_messages.mp.buf, detached);
      var kl := kl_messages;
      ghost var chain := detached + [M2_next];
      var cur_it, next_it := old_M2_start, old_M2_start.next;
      ghost var j := 0;
      assert chain[0].next == chain[1];
      while true
        invariant 0 <= j < |detached| && cur_it == chain[j] && next_it == chain[j + 1]
        invariant kl.mp.buf == old(kl.mp.buf) + detached[..j] && |kl.mp.buf| <= kl.mp.max
        invariant kl.size == |kl.nodes| - 1 + |detached| - j
        invariant kl.mp.cnt == |kl.nodes| + |detached| - j
        decreases |detached| - j
      {
        kl.mp.Free(cur_it);
        kl.size := kl.size - 1;
        cur_it := next_it;
        next_it := next_it.next;
        j := j + 1;
        LastOfChain(detached, M2_next, j);
        if cur_it == M2_next {
          break;
        }
        assert j < |detached| && chain[j].next == chain[j + 1];
      }
      assert detached[..j] == detached;
      assert kl.mp.buf == old(kl.mp.buf) + detached;
    }

    /** The list update once N has been pushed behind M3. */
    method InstallN(prev_last: Node, ghost n0: nat)
      requires kl_messages.Valid() && this !in kl_messages.Repr
      requires i1 < i2 < n0 < |kl_messages.nodes|
      requires M2_prev == (if i1 == 0 then null else kl_messages.nodes[i1 - 1])
      requires M2_next == AfterM2(kl_messages.nodes, i2, n0)
      requires prev_last == kl_messages.nodes[n0 - 2]
      modifies kl_messages, kl_messages.mp, kl_messages.nodes
      ensures kl_messages.Valid() && kl_messages.mp == old(kl_messages.mp)
      ensures kl_messages.Repr == old(kl_messages.Repr)
      ensures kl_messages.nodes == Rearranged(old(kl_messages.nodes), i1, i2, n0)
      ensures kl_messages.contents == Spliced(old(kl_messages.contents), i1, i2, n0)
      ensures kl_messages.mp.buf == old(kl_messages.mp.buf) + old(kl_messages.nodes)[i1..i2]
    {
      hide Distinct, Apart, Chain, Holds, Rewired, Rearranged, Spliced;
      var cur_last := kl_messages.GetLastMessage();
      RearrangedAt(kl_messages.nodes, i1, i2, n0);
      var old_M2_start := Relink(prev_last, cur_last, n0);
      ghost var detached := Reorder(n0);
      FreeDetached(old_M2_start, detached);
    }

    /** Push N behind M3, remembering the last message before it. */
    method PushBehind(out_buf: seq<byte>, regions: seq<Region>, max: nat) returns (prev_last: Node)
      requires Valid() && regions != [] && Fits(regions, out_buf)
      modifies this`M2_next, kl_messages.Repr
      ensures fresh(kl_messages.Repr - old(kl_messages.Repr)) && kl_messages == old(kl_messages)
      ensures kl_messages.Valid() && this !in kl_messages.Repr && kl_messages.mp == old(kl_messages.mp)
      ensures kl_messages.contents == old(kl_messages.contents) + Messages(out_buf, regions, max)
      ensures kl_messages.mp.buf == Used(old(kl_messages.mp.buf), MessageCount(regions, max))
      ensures i2 < |old(kl_messages.nodes)| < |kl_messages.nodes|
      ensures kl_messages.nodes[i1..i2] == old(kl_messages.nodes[i1..i2])
      ensures M2_prev == (if i1 == 0 then null else kl_messages.nodes[i1 - 1])
      ensures M2_next == AfterM2(kl_messages.nodes, i2, |old(kl_messages.nodes)|)
      ensures prev_last == kl_messages.nodes[|old(kl_messages.nodes)| - 2]
    {
      hide Distinct, Apart, Chain, Holds, Messages, Fits, Used, MessageCount;
      MessageCountIsLength(out_buf, regions, max);
      prev_last := kl_messages.GetLastMessage();
      PushMessages(out_buf, regions, max);
      PrefixAgrees(kl_messages.nodes, old(kl_messages.nodes), i1, i2);
    }

    /** common_fuzz_stuff's list update: M1 . M2 . M3 becomes M1 . N . M3, exactly the old M2
        nodes go to the pool, and M2 is the non-empty N. */
    method ReplaceM2(out_buf: seq<byte>, regions: seq<Region>, max: nat)
      requires Valid() && regions != [] && Fits(regions, out_buf)
      modifies this`M2_next, this`i2, kl_messages.Repr
      ensures Valid() && fresh(kl_messages.Repr - old(kl_messages.Repr)) && kl_messages == old(kl_messages)
      ensures M1() == old(M1()) && M2() == Messages(out_buf, regions, max) && M3() == old(M3())
      ensures i1 == old(i1) && i2 == i1 + MessageCount(regions, max)
      ensures kl_messages.size == old(kl_messages.size) - old(i2 - i1) + MessageCount(regions, max)
      ensures kl_messages.mp == old(kl_messages.mp)
      ensures kl_messages.mp.buf ==
              Used(old(kl_messages.mp.buf), MessageCount(regions, max)) + old(kl_messages.nodes[i1..i2])
    {
      hide Distinct, Apart, Chain, Holds, Messages, Fits, Rearranged, Spliced, Used, MessageCount;
      ghost var n0, k := |kl_messages.nodes|, MessageCount(regions, max);
      ghost var contents := kl_messages.contents;
      MessageCountIsLength(out_buf, regions, max);
      var prev_last := PushBehind(out_buf, regions, max);
      RearrangedAt(kl_messages.nodes, i1, i2, n0);
      InstallN(prev_last, n0);
      SplicedParts(contents, Messages(out_buf, regions, max), i1, i2);
      i2 := i1 + k;
    }

    /** Any number of executions: M1 and M3 never change, and M2 is always the last input. */
    method ReplaceRepeatedly(inputs: seq<(seq<byte>, seq<Region>)>, max: nat)
      requires Valid()
      requires forall i :: 0 <= i < |inputs| ==> inputs[i].1 != [] && Fits(inputs[i].1, inputs[i].0)
      modifies this`M2_next, this`i2, kl_messages.Repr
      ensures Valid() && M1() == old(M1()) && M3() == old(M3())
      ensures M2() == if inputs == [] then old(M2())
                      else Messages(inputs[|inputs| - 1].0, inputs[|inputs| - 1].1, max)
      ensures kl_messages.size == |M1()| + |M2()| + |M3()|
    {
      for i := 0 to |inputs|
        invariant Valid() && kl_messages == old(kl_messages) && fresh(kl_messages.Repr - old(kl_messages.Repr))
        invariant M1() == old(M1()) && M3() == old(M3())
        invariant M2() == if i == 0 then old(M2()) else Messages(inputs[i - 1].0, inputs[i - 1].1, max)
      {
        ReplaceM2(inputs[i].0, inputs[i].1, max);
      }
    }
  }

  ghost function Spliced(c: seq<Message>, i1: nat, i2: nat, n0: nat): seq<Message>
    requires i1 <= i2 < n0 <= |c| + 1
  {
    c[..i1] + c[n0 - 1..] + c[i2..n0 - 1]
  }

  lemma SplicedParts(old_contents: seq<Message>, ms: seq<Message>, i1: nat, i2: nat)
    requires i1 < i2 <= |old_contents|
    ensures var r := Spliced(old_contents + ms, i1, i2, |old_contents| + 1);
            r[..i1] == old_contents[..i1] && r[i1..i1 + |ms|] == ms && r[i1 + |ms|..] == old_contents[i2..]
  {
  }

  lemma LastOfChain(detached: seq<Node>, next: Node, j: nat)
    requires j <= |detached| && next !in detached
    ensures (detached + [next])[j] == next ==> j == |detached|
  {
    assert j < |detached| ==> (detached + [next])[j] in detached;
  }

  lemma ApartFrom(a: seq<Node>, b: seq<Node>, x: Node)
    requires Apart(a, b) && x in b
    ensures x !in a
  {
  }

  lemma PoolGrows(nodes: seq<Node>, buf: seq<Node>, freed: seq<Node>)
    requires Distinct(buf) && Distinct(freed) && Apart(freed, buf)
    requires Apart(nodes, buf) && Apart(freed, nodes)
    ensures Distinct(buf + freed) && Apart(nodes, buf + freed)
  {
    var r := buf + freed;
    forall i, j | 0 <= i < j < |r| ensures r[i] != r[j] {
      if i < |buf| <= j { assert freed[j - |buf|] in freed && buf[i] in buf; }
    }
  }
}
