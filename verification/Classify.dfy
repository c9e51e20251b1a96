/** classify_counts: hit counts to one-bit buckets, two bytes per table look-up and sparse
    words skipped. */
module Classify {
  import opened Bytes

  /** count_class_lookup8 */
  function Bucket(b: byte): byte {
    if b == 0 then 0
    else if b == 1 then 1
    else if b == 2 then 2
    else if b == 3 then 4
    else if b < 8 then 8
    else if b < 16 then 16
    else if b < 32 then 32
    else if b < 128 then 64
    else 128
  }

  /** More hits never land in a lower bucket, no hit and some hits are never confused, and
      a bucket is a single bit, so a byte of the trace sets at most one bit. */
  lemma BucketsAreOrdered(a: byte, b: byte)
    requires a <= b
    ensures Bucket(a) <= Bucket(b)
    ensures Bucket(a) == 0 <==> a == 0
    ensures Bucket(a) in {0, 1, 2, 4, 8, 16, 32, 64, 128}
  {
  }

  /** The buckets of hit counts: 1, 2, 3, 4-7, 8-15, 16-31, 32-127, 128 and more. */
  lemma BucketIntervals(b: byte)
    ensures (Bucket(b) == 1 <==> b == 1) && (Bucket(b) == 2 <==> b == 2) && (Bucket(b) == 4 <==> b == 3)
    ensures (Bucket(b) == 8 <==> 4 <= b <= 7) && (Bucket(b) == 16 <==> 8 <= b <= 15)
    ensures (Bucket(b) == 32 <==> 16 <= b <= 31) && (Bucket(b) == 64 <==> 32 <= b <= 127)
    ensures Bucket(b) == 128 <==> 128 <= b
  {
  }

  /** The u16 made of bytes lo and hi. */
  function Wide(hi: byte, lo: byte): (w: nat)
    ensures w < 65536
  {
    256 * (hi as nat) + lo as nat
  }

  lemma WideParts(hi: byte, lo: byte)
    ensures Wide(hi, lo) / 256 == hi as nat && Wide(hi, lo) % 256 == lo as nat
  {
  }

  /** count_class_lookup16, entry by entry. */
  function Pair(w: nat): nat
    requires w < 65536
  {
    Wide(Bucket(w / 256), Bucket(w % 256))
  }

  ghost predicate TableReady(lookup16: seq<nat>) {
    |lookup16| == 65536 && forall w :: 0 <= w < 65536 ==> lookup16[w] == Pair(w)
  }

  /** init_count_class16. */
  method InitCountClass16() returns (lookup16: array<nat>)
    ensures fresh(lookup16) && TableReady(lookup16[..])
  {
    hide Bucket;
    lookup16 := new nat[65536](i => 0);
    for b1 := 0 to 256
      invariant forall w :: 0 <= w < 256 * b1 ==> lookup16[w] == Pair(w)
    {
      for b2 := 0 to 256
        invariant forall w :: 0 <= w < 256 * b1 + b2 ==> lookup16[w] == Pair(w)
      {
        WideParts(b1, b2);
        lookup16[256 * b1 + b2] := Wide(Bucket(b1), Bucket(b2));
      }
    }
  }

  function Buckets(m: seq<byte>): (r: seq<byte>)
    ensures |r| == |m|
  {
    seq(|m|, i requires 0 <= i < |m| => Bucket(m[i]))
  }

  /** One u16 looked up and stored back. */
  method ClassifyPair(mem: array<byte>, at: nat, lookup16: array<nat>)
    requires at + 1 < mem.Length && TableReady(lookup16[..])
    modifies mem
    ensures mem[..] == old(mem[..])[at := Bucket(old(mem[at]))][at + 1 := Bucket(old(mem[at + 1]))]
  {
    hide Bucket;
    var lo, hi := mem[at], mem[at + 1];
    WideParts(hi, lo);
    var w := lookup16[Wide(hi, lo)];
    assert w == Pair(Wide(hi, lo)) by { assert lookup16[..][Wide(hi, lo)] == Pair(Wide(hi, lo)); }
    WideParts(Bucket(hi), Bucket(lo));
    mem[at], mem[at + 1] := w % 256, w / 256;
  }

  /** classify_counts on 64-bit words: every byte gets its bucket, whichever words are skipped. */
  method ClassifyCounts(mem: array<byte>, lookup16: array<nat>)
    requires mem.Length % 8 == 0 && TableReady(lookup16[..])
    modifies mem
    ensures mem[..] == Buckets(old(mem[..]))
  {
    hide Bucket, TableReady;
    ZeroBucket();
    ghost var was := mem[..];
    var i := 0;
    while i < mem.Length / 8
      invariant 0 <= i <= mem.Length / 8
      invariant forall k :: 0 <= k < mem.Length ==> mem[k] == if k < 8 * i then Bucket(was[k]) else was[k]
    {
      var at := 8 * i;
      if !(mem[at] == 0 && mem[at + 1] == 0 && mem[at + 2] == 0 && mem[at + 3] == 0 &&
           mem[at + 4] == 0 && mem[at + 5] == 0 && mem[at + 6] == 0 && mem[at + 7] == 0) {
        ClassifyPair(mem, at, lookup16);
        ClassifyPair(mem, at + 2, lookup16);
        ClassifyPair(mem, at + 4, lookup16);
        ClassifyPair(mem, at + 6, lookup16);
      }
      i := i + 1;
    }
  }

  lemma ZeroBucket()
    ensures Bucket(0) == 0
  {
  }
}
