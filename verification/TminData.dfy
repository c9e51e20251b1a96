/** What afl-tmin does to its buffer, as facts about byte sequences. */
module TminData {
  import opened Bytes
  import opened Probe

  const ZERO: byte := 48  // the character '0'

  /** The buffer without the block of `len` bytes at `pos` (cut short at the end). */
  function Without(d: seq<byte>, pos: nat, len: nat): seq<byte>
    requires pos <= |d|
  {
    d[..pos] + if pos + len < |d| then d[pos + len..] else []
  }

  /** Bytes pos .. pos+len turned into '0'. */
  function Zeroed(d: seq<byte>, pos: nat, len: nat): (r: seq<byte>)
    requires pos + len <= |d|
    ensures |r| == |d|
  {
    seq(|d|, i requires 0 <= i < |d| => if pos <= i < pos + len then ZERO else d[i])
  }

  /** Every byte c turned into '0'. */
  function WithoutSymbol(d: seq<byte>, c: byte): (r: seq<byte>)
    ensures |r| == |d|
  {
    seq(|d|, i requires 0 <= i < |d| => if d[i] == c then ZERO else d[i])
  }

  /** How many bytes are not '0' yet. */
  function NonZero(d: seq<byte>): nat {
    if d == [] then 0 else (if d[0] == ZERO then 0 else 1) + NonZero(d[1..])
  }

  function Count(d: seq<byte>, c: byte): nat {
    if d == [] then 0 else (if d[0] == c then 1 else 0) + Count(d[1..], c)
  }

  /** d is what is left of d0 after deleting bytes and turning bytes into '0';
      `from` says which byte of d0 each byte of d is. */
  ghost predicate Derived(d0: seq<byte>, d: seq<byte>, from: seq<nat>) {
    && |from| == |d|
    && (forall i :: 0 <= i < |d| ==> from[i] < |d0| && (d[i] == d0[from[i]] || d[i] == ZERO))
    && (forall i, j :: 0 <= i < j < |d| ==> from[i] < from[j])
  }

  ghost predicate Simplified(d0: seq<byte>, d: seq<byte>) {
    exists from: seq<nat> :: Derived(d0, d, from)
  }

  /** No single byte of d can be dropped. */
  ghost predicate OneMinimal(oracle: seq<byte> -> bool, d: seq<byte>) {
    forall i: nat :: i < |d| ==> !oracle(d[..i] + d[i + 1..])
  }

  /** No block of `len` bytes that starts at a multiple of `len` below `upto` can be dropped. */
  ghost predicate BlockMinimal(oracle: seq<byte> -> bool, d: seq<byte>, len: nat, upto: nat)
    requires len > 0
  {
    forall p: nat :: p < |d| && p < upto && p % len == 0 ==> !oracle(Without(d, p, len))
  }

  /** The block lengths afl-tmin tries, from `len` down to 1 by halving. */
  ghost predicate AllBlocksMinimal(oracle: seq<byte> -> bool, d: seq<byte>, len: nat) {
    len > 0 ==> BlockMinimal(oracle, d, len, |d|) && AllBlocksMinimal(oracle, d, len / 2)
  }

  // ----- simplification is a preorder that every edit respects -----

  lemma SimplifiedItself(d: seq<byte>)
    ensures Simplified(d, d)
  {
    assert Derived(d, d, seq(|d|, i => i));
  }

  lemma SimplifiedTrans(a: seq<byte>, b: seq<byte>, c: seq<byte>)
    requires Simplified(a, b) && Simplified(b, c)
    ensures Simplified(a, c)
  {
    var f: seq<nat> :| Derived(a, b, f);
    var g: seq<nat> :| Derived(b, c, g);
    assert Derived(a, c, seq(|c|, i requires 0 <= i < |c| => f[g[i]]));
  }

  lemma WithoutSimplifies(d: seq<byte>, pos: nat, len: nat)
    requires pos <= |d|
    ensures Simplified(d, Without(d, pos, len))
    ensures pos < |d| && len > 0 ==> |Without(d, pos, len)| < |d|
  {
    var r := Without(d, pos, len);
    assert Derived(d, r, seq(|r|, i => if i < pos then i else i + len));
  }

  lemma ZeroedSimplifies(d: seq<byte>, pos: nat, len: nat)
    requires pos + len <= |d|
    ensures Simplified(d, Zeroed(d, pos, len))
  {
    assert Derived(d, Zeroed(d, pos, len), seq(|d|, i => i));
  }

  lemma WithoutSymbolSimplifies(d: seq<byte>, c: byte)
    ensures Simplified(d, WithoutSymbol(d, c))
  {
    assert Derived(d, WithoutSymbol(d, c), seq(|d|, i => i));
  }

  // ----- progress -----

  lemma {:induction false} SymbolRemovalCounts(d: seq<byte>, c: byte, e: byte)
    requires c != ZERO
    ensures NonZero(WithoutSymbol(d, c)) + Count(d, c) == NonZero(d)
    ensures e != ZERO && e != c ==> Count(WithoutSymbol(d, c), e) == Count(d, e)
  {
    if d != [] {
      SymbolRemovalCounts(d[1..], c, e);
      assert WithoutSymbol(d, c)[1..] == WithoutSymbol(d[1..], c);
    }
  }

  lemma {:induction false} ZeroOneCounts(d: seq<byte>, i: nat)
    requires i < |d| && d[i] != ZERO
    ensures NonZero(d[i := ZERO]) + 1 == NonZero(d)
  {
    if i == 0 {
      assert d[i := ZERO][1..] == d[1..];
    } else {
      ZeroOneCounts(d[1..], i - 1);
      assert d[i := ZERO][1..] == d[1..][i - 1 := ZERO];
    }
  }

  lemma {:induction false} CountSnoc(d: seq<byte>, i: nat, c: byte)
    requires i < |d|
    ensures Count(d[..i + 1], c) == Count(d[..i], c) + if d[i] == c then 1 else 0
  {
    if i == 0 {
      assert d[..1] == [d[0]] && d[..0] == [];
      assert Count([d[0]][1..], c) == 0;
    } else {
      CountSnoc(d[1..], i - 1, c);
      assert d[..i + 1][1..] == d[1..][..i] && d[..i][1..] == d[1..][..i - 1];
    }
  }

  // ----- the stages with every test made -----

  /** A trial replaces the data if the target accepts it. */
  function Kept(oracle: seq<byte> -> bool, trial: seq<byte>, d: seq<byte>): seq<byte> {
    if oracle(trial) then trial else d
  }

  /** Stage 0 from `pos` on: block by block, all bytes '0'. */
  function Normalized(oracle: seq<byte> -> bool, d: seq<byte>, len: nat, pos: nat): (r: seq<byte>)
    requires len > 0
    ensures |r| == |d|
    decreases |d| - pos
  {
    if pos >= |d| then d
    else
      var use_len := if len < |d| - pos then len else |d| - pos;
      Normalized(oracle, Kept(oracle, Zeroed(d, pos, use_len), d), len, pos + len)
  }

  /** One sweep of stage 1 from `pos` on. */
  function Swept(oracle: seq<byte> -> bool, d: seq<byte>, len: nat, pos: nat): (r: seq<byte>)
    requires len > 0
    ensures |r| <= |d|
    decreases |d| - pos
  {
    if pos >= |d| then d
    else
      var trial := Without(d, pos, len);
      if oracle(trial) then Swept(oracle, trial, len, pos) else Swept(oracle, d, len, pos + len)
  }

  /** Stage 1: sweeps with halved block lengths. */
  function Shrunk(oracle: seq<byte> -> bool, d: seq<byte>, len: nat): seq<byte>
    requires len > 0
    decreases len
  {
    var swept := Swept(oracle, d, len, 0);
    if len > 1 && |swept| >= 1 then Shrunk(oracle, swept, len / 2) else swept
  }

  /** Stage 2 from symbol c on. */
  function Merged(oracle: seq<byte> -> bool, d: seq<byte>, c: nat): seq<byte>
    requires c <= 256
    decreases 256 - c
  {
    if c == 256 then d else Merged(oracle, Kept(oracle, WithoutSymbol(d, c), d), c + 1)
  }

  /** Stage 3 from byte i on. */
  function Spared(oracle: seq<byte> -> bool, d: seq<byte>, i: nat): seq<byte>
    requires i <= |d|
    decreases |d| - i
  {
    if i == |d| then d else Spared(oracle, Kept(oracle, d[i := ZERO], d), i + 1)
  }

  /** A symbol that does not occur, or is '0', changes nothing. */
  lemma {:induction false} AbsentSymbol(d: seq<byte>, c: byte)
    requires c == ZERO || Count(d, c) == 0
    ensures WithoutSymbol(d, c) == d
  {
    if d != [] && c != ZERO {
      AbsentSymbol(d[1..], c);
      assert forall i :: 1 <= i < |d| ==> WithoutSymbol(d, c)[i] == WithoutSymbol(d[1..], c)[i - 1] == d[i];
    }
  }

  // ----- the trials, byte by byte -----

  /** r is d with '0' from byte pos on, for `len` bytes or to the end. */
  ghost predicate BlockOfZeros(d: seq<byte>, r: seq<byte>, pos: nat, len: nat) {
    |r| == |d| && forall i :: 0 <= i < |d| ==> r[i] == if pos <= i < pos + len then 48 else d[i]
  }

  /** r is d with '0' for every byte c. */
  ghost predicate SymbolOfZeros(d: seq<byte>, r: seq<byte>, c: byte) {
    |r| == |d| && forall i :: 0 <= i < |d| ==> r[i] == if d[i] == c then 48 else d[i]
  }

  /** r is d without the bytes from pos on, `len` of them or to the end. */
  ghost predicate BlockCutOut(d: seq<byte>, r: seq<byte>, pos: nat, len: nat)
    requires pos <= |d|
  {
    var n := if pos + len < |d| then len else |d| - pos;
    && |r| == |d| - n
    && forall i :: 0 <= i < |r| ==> r[i] == d[if i < pos then i else i + n]
  }

  /** Stage 0 tries the block at pos and goes on behind it. */
  lemma NormalizedStep(oracle: seq<byte> -> bool, d: seq<byte>, r: seq<byte>, len: nat, pos: nat)
    requires len > 0 && pos < |d| && BlockOfZeros(d, r, pos, len)
    ensures Normalized(oracle, d, len, pos) == Normalized(oracle, if oracle(r) then r else d, len, pos + len)
  {
    assert r == Zeroed(d, pos, if len < |d| - pos then len else |d| - pos);
  }

  /** A sweep of stage 1 tries to cut out the block at pos; only if it must stay it goes on. */
  lemma SweptStep(oracle: seq<byte> -> bool, d: seq<byte>, r: seq<byte>, len: nat, pos: nat)
    requires len > 0 && pos < |d| && BlockCutOut(d, r, pos, len)
    ensures Swept(oracle, d, len, pos) ==
            if oracle(r) then Swept(oracle, r, len, pos) else Swept(oracle, d, len, pos + len)
  {
    assert r == Without(d, pos, len);
  }

  /** Stage 2 tries symbol c, then the next. */
  lemma MergedTries(oracle: seq<byte> -> bool, d: seq<byte>, r: seq<byte>, c: byte)
    requires SymbolOfZeros(d, r, c)
    ensures Merged(oracle, d, c) == Merged(oracle, if oracle(r) then r else d, c + 1)
  {
    assert r == WithoutSymbol(d, c);
  }

  /** Stage 3 tries byte i, then the next. */
  lemma SparedTries(oracle: seq<byte> -> bool, d: seq<byte>, r: seq<byte>, i: nat)
    requires i < |d| && BlockOfZeros(d, r, i, 1)
    ensures Spared(oracle, d, i) == Spared(oracle, if oracle(r) then r else d, i + 1)
  {
    assert r == d[i := ZERO];
  }

  /** Each stage ends behind the data. */
  lemma StagesEnd(oracle: seq<byte> -> bool, d: seq<byte>, len: nat, pos: nat)
    requires len > 0 && pos >= |d|
    ensures Normalized(oracle, d, len, pos) == d && Swept(oracle, d, len, pos) == d
    ensures Merged(oracle, d, 256) == d && Spared(oracle, d, |d|) == d
  {
  }

  lemma {:induction false} ZeroedCounts(d: seq<byte>, pos: nat, len: nat)
    requires pos + len <= |d|
    ensures Zeroed(d, pos, len) == d || NonZero(Zeroed(d, pos, len)) < NonZero(d)
    ensures NonZero(Zeroed(d, pos, len)) <= NonZero(d)
  {
    var r := Zeroed(d, pos, len);
    if d != [] {
      assert r[1..] == if pos > 0 then Zeroed(d[1..], pos - 1, len)
                       else if len > 0 then Zeroed(d[1..], 0, len - 1) else d[1..];
      if pos > 0 { ZeroedCounts(d[1..], pos - 1, len); }
      else if len > 0 { ZeroedCounts(d[1..], 0, len - 1); }
      if r[1..] == d[1..] && r[0] == d[0] { assert r == [r[0]] + r[1..] && d == [d[0]] + d[1..]; }
    }
  }

  /** p is `from` or a number of blocks behind it. */
  ghost predicate Aligned(p: nat, from: nat, len: nat)
    requires len > 0
  {
    p >= from && (p - from) % len == 0
  }

  lemma AlignedNext(p: nat, from: nat, len: nat)
    requires len > 0
    ensures Aligned(p, from, len) <==> p == from || Aligned(p, from + len, len)
  {
    if p >= from + len {
      ModShift(p - (from + len), 1, len);
    } else if p >= from {
      ModUnique(p - from, 0, p - from, len);
    }
  }

  /** No aligned block from `from` on that could be turned into '0'. */
  ghost predicate NoBlockToZero(oracle: seq<byte> -> bool, d: seq<byte>, len: nat, from: nat)
    requires len > 0
  {
    forall p: nat, r: seq<byte> ::
      p < |d| && Aligned(p, from, len) && BlockOfZeros(d, r, p, len) ==> r == d || !oracle(r)
  }

  /** Stage 0 changes nothing exactly when there is no such block. */
  lemma {:induction false} NormalizedIdle(oracle: seq<byte> -> bool, d: seq<byte>, len: nat, pos: nat)
    requires len > 0
    ensures Normalized(oracle, d, len, pos) == d || NonZero(Normalized(oracle, d, len, pos)) < NonZero(d)
    ensures Normalized(oracle, d, len, pos) == d <==> NoBlockToZero(oracle, d, len, pos)
    decreases |d| - pos
  {
    hide NonZero, Zeroed, Normalized;
    if pos >= |d| {
      StagesEnd(oracle, d, len, pos);
    } else {
      var use_len := if len < |d| - pos then len else |d| - pos;
      var r := Zeroed(d, pos, use_len);
      ZeroedIsBlock(d, pos, len);
      NormalizedStep(oracle, d, r, len, pos);
      ZeroedCounts(d, pos, use_len);
      var next := if oracle(r) then r else d;
      NormalizedIdle(oracle, next, len, pos + len);
      BlocksFrom(oracle, d, len, pos);
    }
  }

  lemma ZeroedIsBlock(d: seq<byte>, pos: nat, len: nat)
    requires pos < |d|
    ensures var r := Zeroed(d, pos, if len < |d| - pos then len else |d| - pos);
            BlockOfZeros(d, r, pos, len) && forall s :: BlockOfZeros(d, s, pos, len) ==> s == r
  {
  }

  /** The blocks from pos on are the one at pos and those from pos + len on. */
  lemma BlocksFrom(oracle: seq<byte> -> bool, d: seq<byte>, len: nat, pos: nat)
    requires len > 0 && pos < |d|
    ensures NoBlockToZero(oracle, d, len, pos) <==>
            NoBlockToZero(oracle, d, len, pos + len) &&
            forall r :: BlockOfZeros(d, r, pos, len) ==> r == d || !oracle(r)
  {
    hide BlockOfZeros, Aligned;
    forall p: nat ensures Aligned(p, pos, len) <==> p == pos || Aligned(p, pos + len, len) {
      AlignedNext(p, pos, len);
    }
  }

  /** No symbol is left that could be turned into '0' altogether. */
  ghost predicate NoSymbolToMerge(oracle: seq<byte> -> bool, d: seq<byte>, from: nat) {
    forall c: byte :: from <= c ==> WithoutSymbol(d, c) == d || !oracle(WithoutSymbol(d, c))
  }

  /** No byte is left that could be turned into '0'. */
  ghost predicate NoByteToSpare(oracle: seq<byte> -> bool, d: seq<byte>, from: nat) {
    forall i: nat :: from <= i < |d| ==> d[i] == ZERO || !oracle(d[i := ZERO])
  }

  lemma SymbolCounts(d: seq<byte>, c: byte)
    ensures WithoutSymbol(d, c) == d || NonZero(WithoutSymbol(d, c)) < NonZero(d)
  {
    if c == ZERO || Count(d, c) == 0 { AbsentSymbol(d, c); } else { SymbolRemovalCounts(d, c, c); }
  }

  /** Stage 2 changes nothing exactly when there is nothing to merge. */
  lemma {:induction false} MergedIdle(oracle: seq<byte> -> bool, d: seq<byte>, c: nat)
    requires c <= 256
    ensures Merged(oracle, d, c) == d || NonZero(Merged(oracle, d, c)) < NonZero(d)
    ensures Merged(oracle, d, c) == d <==> NoSymbolToMerge(oracle, d, c)
    decreases 256 - c
  {
    hide WithoutSymbol, NonZero;
    if c < 256 {
      SymbolCounts(d, c);
      MergedIdle(oracle, Kept(oracle, WithoutSymbol(d, c), d), c + 1);
    }
  }

  /** Stage 3 changes nothing exactly when there is nothing to spare. */
  lemma {:induction false} SparedIdle(oracle: seq<byte> -> bool, d: seq<byte>, i: nat)
    requires i <= |d|
    ensures Spared(oracle, d, i) == d || NonZero(Spared(oracle, d, i)) < NonZero(d)
    ensures Spared(oracle, d, i) == d <==> NoByteToSpare(oracle, d, i)
    decreases |d| - i
  {
    hide NonZero;
    if i < |d| {
      if d[i] == ZERO { assert d[i := ZERO] == d; } else { ZeroOneCounts(d, i); }
      SparedIdle(oracle, Kept(oracle, d[i := ZERO], d), i + 1);
    }
  }

  // ----- skipped tests are still covered -----

  /** A block equal to the one before it: dropping either gives the same buffer. */
  lemma EqualBlocks(d: seq<byte>, pos: nat, len: nat)
    requires len <= pos && pos + len <= |d| && d[pos - len..pos] == d[pos..pos + len]
    ensures Without(d, pos - len, len) == Without(d, pos, len)
  {
    var a, b := Without(d, pos - len, len), Without(d, pos, len);
    assert |a| == |b| == |d| - len;
    forall i | 0 <= i < |a| ensures a[i] == b[i] {
      if pos - len <= i < pos {
        assert d[pos - len..pos][i - (pos - len)] == d[pos..pos + len][i - (pos - len)];
      }
    }
  }

  lemma BlocksOfOne(oracle: seq<byte> -> bool, d: seq<byte>)
    requires BlockMinimal(oracle, d, 1, |d|)
    ensures OneMinimal(oracle, d)
  {
    forall i: nat | i < |d| ensures !oracle(d[..i] + d[i + 1..]) {
      assert i % 1 == 0;
      assert Without(d, i, 1) == d[..i] + d[i + 1..];
    }
  }

  lemma {:induction false} SmallestBlockIsOne(oracle: seq<byte> -> bool, d: seq<byte>, len: nat)
    requires len > 0 && AllBlocksMinimal(oracle, d, len)
    ensures OneMinimal(oracle, d)
  {
    if len == 1 {
      BlocksOfOne(oracle, d);
    } else {
      SmallestBlockIsOne(oracle, d, len / 2);
    }
  }

  /** One more aligned block known not to be droppable. */
  lemma NextBlock(oracle: seq<byte> -> bool, d: seq<byte>, len: nat, pos: nat)
    requires len > 0 && pos % len == 0 && pos < |d|
    requires BlockMinimal(oracle, d, len, pos) && !oracle(Without(d, pos, len))
    ensures BlockMinimal(oracle, d, len, pos + len) && (pos + len) % len == 0
  {
    ModShift(pos, 1, len);
    forall p: nat | p < |d| && p < pos + len && p % len == 0 ensures !oracle(Without(d, p, len)) {
      AlignedBelow(pos, p, len);
    }
  }

  lemma AlignedBelow(pos: nat, p: nat, len: nat)
    requires len > 0 && pos % len == 0 && p % len == 0 && p < pos + len
    ensures p <= pos
  {
    if p > pos {
      assert p == (pos / len) * len + (p - pos);
      ModUnique(p, pos / len, p - pos, len);
    }
  }
}
