/** klist.h: a singly linked list whose tail is an empty sentinel node, and the pool that
    recycles its nodes. */
module Klist {
  import opened Bytes

  class Node {
    var data: Message
    var next: Node?

    /** calloc. */
    constructor ()
      ensures next == null
    {
      data := [];
      next := null;
    }
  }

  class Mempool {
    var cnt: int
    var max: nat
    var buf: seq<Node>

    constructor ()
      ensures cnt == 0 && buf == [] && max == 0
    {
      cnt, max, buf := 0, 0, [];
    }

    /** kmp_alloc: the most recently freed node, or a fresh one. */
    method Alloc() returns (p: Node)
      modifies this
      ensures cnt == old(cnt) + 1 && max == old(max)
      ensures if old(buf) == [] then fresh(p) && buf == []
              else p == old(buf)[|old(buf)| - 1] && buf == old(buf)[..|old(buf)| - 1]
    {
      cnt := cnt + 1;
      if |buf| == 0 {
        p := new Node();
      } else {
        p := buf[|buf| - 1];
        buf := buf[..|buf| - 1];
      }
    }

    /** kmp_free; the buffer's capacity doubles when full. */
    method Free(p: Node)
      requires |buf| <= max
      modifies this
      ensures cnt == old(cnt) - 1 && buf == old(buf) + [p] && |buf| <= max
      ensures max == if |old(buf)| < old(max) then old(max) else if old(max) == 0 then 16 else 2 * old(max)
    {
      cnt := cnt - 1;
      if |buf| == max {
        max := if max != 0 then 2 * max else 16;
      }
      buf := buf + [p];
    }
  }

  ghost predicate Distinct(s: seq<Node>) {
    forall i, j :: 0 <= i < j < |s| ==> s[i] != s[j]
  }

  ghost predicate Apart(a: seq<Node>, b: seq<Node>) {
    forall x :: x in a ==> x !in b
  }

  lemma DistinctSnoc(s: seq<Node>, p: Node)
    requires Distinct(s)
    ensures p !in s ==> Distinct(s + [p])
    ensures forall i :: 0 <= i < |s| - 1 ==> s[i] != s[|s| - 1]
  {
  }

  /** Taking the pool's last node for the list keeps the two apart. */
  lemma PoolGivesNode(nodes: seq<Node>, buf: seq<Node>)
    requires Apart(nodes, buf) && Distinct(buf) && buf != []
    ensures var p, rest := buf[|buf| - 1], buf[..|buf| - 1];
            p !in nodes && Distinct(rest) && Apart(nodes + [p], rest)
  {
    assert buf[|buf| - 1] in buf;
  }

  /** Each node of s points at the one after it. */
  ghost predicate Chain(s: seq<Node>)
    reads s
  {
    forall i :: 0 <= i < |s| - 1 ==> s[i].next == s[i + 1]
  }

  ghost predicate Holds(s: seq<Node>, ms: seq<Message>)
    reads s
  {
    |ms| <= |s| && forall i :: 0 <= i < |ms| ==> s[i].data == ms[i]
  }

  class List {
    var head: Node
    var tail: Node
    var mp: Mempool
    var size: int

    // All nodes from head to the sentinel, and the messages in all but the sentinel.
    ghost var nodes: seq<Node>
    ghost var contents: seq<Message>

    // The list, its pool, and every node of either.
    ghost var Repr: set<object>

    ghost predicate Owns()
      reads this, mp
    {
      this in Repr && mp in Repr && (forall n :: n in nodes ==> n in Repr) && (forall n :: n in mp.buf ==> n in Repr)
    }

    ghost predicate Linked()
      reads this, nodes
    {
      && nodes != [] && Distinct(nodes) && Chain(nodes)
      && |contents| == |nodes| - 1 && Holds(nodes, contents)
      && head == nodes[0] && tail == nodes[|nodes| - 1] && tail.next == null
    }

    ghost predicate PoolApart()
      reads this, mp
    {
      Distinct(mp.buf) && Apart(nodes, mp.buf) && |mp.buf| <= mp.max
    }

    ghost predicate Valid()
      reads this, mp, nodes
    {
      Linked() && PoolApart() && Owns() && size == |nodes| - 1 && mp.cnt == |nodes|
    }

    /** kl_init. */
    constructor ()
      ensures Valid() && contents == [] && |nodes| == 1
      ensures fresh(Repr)
    {
      var pool := new Mempool();
      var p := pool.Alloc();
      mp, head, tail, size := pool, p, p, 0;
      nodes, contents := [p], [];
      Repr := {this, pool, p};
      new;
      head.next := null;
    }

    /** The node that kl_pushp takes for its new sentinel. */
    method NewSentinel() returns (p: Node)
      requires Valid()
      modifies mp, mp.buf
      ensures mp.cnt == old(mp.cnt) + 1 && |mp.buf| <= mp.max
      ensures Linked() && p.next == null && p !in nodes
      ensures Distinct(nodes + [p]) && Distinct(mp.buf) && Apart(nodes + [p], mp.buf)
      ensures if old(mp.buf) == [] then fresh(p) && mp.buf == []
              else p == old(mp.buf)[|old(mp.buf)| - 1] && mp.buf == old(mp.buf)[..|old(mp.buf)| - 1]
      ensures forall n :: n in nodes ==> unchanged(n)
    {
      ghost var pool := mp.buf;
      p := mp.Alloc();
      if pool != [] {
        PoolGivesNode(nodes, pool);
        assert pool[|pool| - 1] in pool;
      }
      assert p in pool || fresh(p);
      p.next := null;
      DistinctSnoc(nodes, p);
    }

    /** `*kl_pushp(kl) = m`: the old sentinel takes the data, a pool node becomes the
        new sentinel. */
    method Push(m: Message)
      requires Valid()
      modifies Repr
      ensures Valid() && mp == old(mp) && Repr == old(Repr) + {tail}
      ensures fresh(Repr - old(Repr))
      ensures nodes == old(nodes) + [tail] && tail !in old(nodes)
      ensures contents == old(contents) + [m]
      ensures head == old(head) && size == old(size) + 1
      ensures if old(mp.buf) == [] then fresh(tail) && mp.buf == []
              else tail == old(mp.buf)[|old(mp.buf)| - 1] && mp.buf == old(mp.buf)[..|old(mp.buf)| - 1]
      ensures forall n :: n in old(nodes) && n != old(tail) ==> unchanged(n)
    {
      hide Distinct, Apart;
      DistinctSnoc(nodes, tail);
      var p := NewSentinel();
      var q := tail;
      tail.next := p;
      tail := p;
      size := size + 1;
      q.data := m;
      nodes, contents := nodes + [p], contents + [m];
      Repr := Repr + {p};
      assert Chain(nodes) && Holds(nodes, contents);
      assert PoolApart() && Owns();
    }

    /** kl_shift. */
    method Shift() returns (ok: bool, d: Message)
      requires Valid()
      modifies this, mp
      ensures Valid() && mp == old(mp)
      ensures ok <==> old(contents) != []
      ensures ok ==> d == old(contents)[0] && contents == old(contents)[1..]
      ensures ok ==> nodes == old(nodes)[1..] && mp.buf == old(mp.buf) + [old(head)]
      ensures Repr == old(Repr)
      ensures !ok ==> contents == old(contents) && unchanged(this) && unchanged(mp)
    {
      d := [];
      assert |nodes| > 1 ==> nodes[0].next == nodes[1];
      if head.next == null {
        return false, d;
      }
      assert |nodes| > 1;
      size := size - 1;
      var p := head;
      head := head.next;
      d := p.data;
      assert p in nodes && p !in mp.buf;
      mp.Free(p);
      nodes, contents := nodes[1..], contents[1..];
      return true, d;
    }

    /** get_last_message; on an empty list the original dereferences the null after the sentinel. */
    method GetLastMessage() returns (it: Node)
      requires Valid() && size > 0
      ensures it == nodes[|nodes| - 2]
    {
      it := head;
      ghost var i := 0;
      while it.next != tail
        invariant 0 <= i <= |nodes| - 2 && it == nodes[i]
        decreases |nodes| - i
      {
        assert it.next == nodes[i + 1];
        it := it.next;
        i := i + 1;
      }
      assert it.next == nodes[i + 1];
    }
  }
}
