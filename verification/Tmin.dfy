/** afl-tmin's `minimize`: normalise blocks, then delete blocks, merge symbols and zero
    bytes, pass after pass, for as long as the target keeps behaving the same. */
module Tmin {
  import opened Bytes
  import opened Probe
  import opened TminData

  const TMIN_SET_MIN_SIZE: nat := 4
  const TMIN_SET_STEPS: nat := 128
  const TRIM_START_STEPS: nat := 16

  /** First power of two greater or equal to val. */
  method NextP2(val: nat) returns (ret: nat)
    ensures IsPow2(ret) && val <= ret && (ret == 1 || ret < 2 * val)
    ensures ret == NextP2Of(val)
  {
    ret := 1;
    ghost var m: nat := 0;
    while val > ret
      invariant ret == Pow2(m) && (ret == 1 || ret < 2 * val)
      invariant NextP2From(ret, val) == NextP2Of(val)
      decreases 2 * val - ret
    {
      ret := ret * 2;
      m := m + 1;
    }
  }

  ghost function NextP2From(ret: nat, val: nat): nat
    requires ret > 0
    decreases if val > ret then val - ret else 0
  {
    if val > ret then NextP2From(2 * ret, val) else ret
  }

  ghost function NextP2Of(val: nat): (r: nat)
    ensures r > 0
  {
    NextP2IsPositive(1, val);
    NextP2From(1, val)
  }

  lemma NextP2IsPositive(ret: nat, val: nat)
    requires ret > 0
    ensures NextP2From(ret, val) >= ret
    decreases if val > ret then val - ret else 0
  {
    if val > ret { NextP2IsPositive(2 * ret, val); }
  }

  /** The least power of two that is not below v. */
  ghost predicate LeastPowerOf2(r: nat, v: nat) {
    IsPow2(r) && v <= r && (r == 1 || r < 2 * v)
  }

  lemma {:induction false} NextP2Least(ret: nat, val: nat)
    requires IsPow2(ret) && (ret == 1 || ret < 2 * val)
    ensures LeastPowerOf2(NextP2From(ret, val), val)
    decreases if val > ret then val - ret else 0
  {
    if val > ret {
      var m: nat :| ret == Pow2(m);
      assert 2 * ret == Pow2(m + 1);
      NextP2Least(2 * ret, val);
    }
  }

  /** The block lengths of stages 0 and 1. */
  lemma StageLengths(len: nat)
    ensures LeastPowerOf2(Minimizer.BlockLength(len), if len / 128 < 4 then 4 else len / 128)
    ensures LeastPowerOf2(NextP2Of(len / TRIM_START_STEPS), len / 16)
  {
    assert Pow2(0) == 1 && Pow2(2) == 2 * Pow2(1) == 4 * Pow2(0);
    NextP2Least(1, len / 128);
    NextP2Least(1, len / 16);
  }

  class Minimizer {
    const oracle: seq<byte> -> bool

    var in_data: array<byte>
    var in_len: nat
    var tmp_buf: array<byte>

    ghost predicate Valid()
      reads this, in_data, tmp_buf
    {
      in_data != tmp_buf && in_len <= in_data.Length <= tmp_buf.Length
    }

    function Data(): (d: seq<byte>)
      requires in_len <= in_data.Length
      reads this, in_data
    {
      in_data[..in_len]
    }

    constructor (oracle: seq<byte> -> bool, data: seq<byte>)
      ensures Valid() && Data() == data && this.oracle == oracle
      ensures fresh(in_data) && fresh(tmp_buf)
    {
      this.oracle := oracle;
      in_len := |data|;
      in_data := new byte[|data|](i requires 0 <= i < |data| => data[i]);
      tmp_buf := new byte[|data|](i => 0);
    }

    /** memcpy. */
    static method Copy(dst: array<byte>, di: nat, src: array<byte>, si: nat, n: nat)
      requires dst != src && di + n <= dst.Length && si + n <= src.Length
      modifies dst
      ensures dst[..] == old(dst[..di]) + src[si..si + n] + old(dst[di + n..])
    {
      for k := 0 to n
        invariant dst[..di] == old(dst[..di])
        invariant dst[di..di + k] == src[si..si + k]
        invariant dst[di + k..] == old(dst[di + k..])
      {
        dst[di + k] := src[si + k];
      }
    }

    /** memset(dst + pos, '0', n). */
    static method Zero(dst: array<byte>, pos: nat, n: nat, ghost len: nat)
      requires pos + n <= len <= dst.Length
      modifies dst
      ensures dst[..len] == Zeroed(old(dst[..len]), pos, n)
    {
      for k := 0 to n
        invariant forall j :: 0 <= j < dst.Length ==>
                    dst[j] == if pos <= j < pos + k then ZERO else old(dst[j])
      {
        dst[pos + k] := ZERO;
      }
    }

    /** What every stage promises: the length never grows, the buffer is a simplification of
        what it was, and unless nothing changed the target accepts it. */
    twostate predicate StageKeeps()
      reads this, in_data, tmp_buf
    {
      && old(Valid()) && Valid() && in_data == old(in_data) && tmp_buf == old(tmp_buf)
      && in_len <= old(in_len)
      && Simplified(old(Data()), Data())
      && (Data() == old(Data()) || oracle(Data()))
    }

    /** Stage 0: one-time block normalization. */
    method NormalizeBlocks()
      requires Valid()
      modifies in_data, tmp_buf
      ensures StageKeeps()
      ensures Data() == Normalized(oracle, old(Data()), BlockLength(in_len), 0)
    {
      hide Simplified, NextP2Of, Normalized;
      var set_len := NextP2(in_len / TMIN_SET_STEPS);
      if set_len < TMIN_SET_MIN_SIZE {
        set_len := TMIN_SET_MIN_SIZE;
      }
      var set_pos := 0;
      SimplifiedItself(Data());
      while set_pos < in_len
        invariant Simplified(old(Data()), Data())
        invariant Data() == old(Data()) || oracle(Data())
        invariant Normalized(oracle, Data(), set_len, set_pos) == Normalized(oracle, old(Data()), set_len, 0)
        decreases in_len - set_pos
      {
        var use_len := if set_len < in_len - set_pos then set_len else in_len - set_pos;
        ghost var d := Data();
        NormalizedStep(oracle, d, set_len, set_pos);
        NormalizeBlock(set_pos, use_len);
        SimplifiedTrans(old(Data()), d, Data());
        set_pos := set_pos + set_len;
      }
      NormalizedStep(oracle, Data(), set_len, set_pos);
    }

    /** The block length of stage 0. */
    static ghost function BlockLength(len: nat): (n: nat)
      ensures n > 0
    {
      var n := NextP2Of(len / TMIN_SET_STEPS);
      if n < TMIN_SET_MIN_SIZE then TMIN_SET_MIN_SIZE else n
    }

    static lemma NormalizedStep(oracle: seq<byte> -> bool, d: seq<byte>, len: nat, pos: nat)
      requires len > 0
      ensures pos >= |d| ==> Normalized(oracle, d, len, pos) == d
      ensures pos < |d| ==>
                var use_len := if len < |d| - pos then len else |d| - pos;
                Normalized(oracle, d, len, pos) ==
                  Normalized(oracle, Kept(oracle, Zeroed(d, pos, use_len), d), len, pos + len)
    {
    }

    /** Stage 0 on one block. */
    method NormalizeBlock(set_pos: nat, use_len: nat)
      requires Valid() && set_pos + use_len <= in_len
      modifies in_data, tmp_buf
      ensures StageKeeps()
      ensures Data() == Kept(oracle, Zeroed(old(Data()), set_pos, use_len), old(Data()))
    {
      hide Simplified;
      SimplifiedItself(Data());
      ghost var d := Data();
      var i := 0;
      while i < use_len && in_data[set_pos + i] == ZERO
        invariant 0 <= i <= use_len
        invariant forall k :: set_pos <= k < set_pos + i ==> in_data[k] == ZERO
      {
        i := i + 1;
      }
      if i != use_len {
        Copy(tmp_buf, 0, in_data, 0, in_len);
        assert tmp_buf[..in_len] == d;
        Zero(tmp_buf, set_pos, use_len, in_len);
        var res := oracle(tmp_buf[..in_len]);
        if res {
          Zero(in_data, set_pos, use_len, in_len);
          ZeroedSimplifies(d, set_pos, use_len);
        }
      } else {
        assert Zeroed(d, set_pos, use_len) == d;
      }
    }

    /** One sweep of stage 1 with blocks of del_len bytes.  A sweep that deletes nothing has
        shown that no aligned block can go, tested or skipped. */
    method DeleteBlocks(del_len: nat) returns (changed: bool)
      requires Valid() && del_len > 0
      modifies this`in_len, in_data, tmp_buf
      ensures StageKeeps()
      ensures Data() == Swept(oracle, old(Data()), del_len, 0)
      ensures changed ==> in_len < old(in_len) && oracle(Data())
      ensures !changed ==> Data() == old(Data()) && BlockMinimal(oracle, Data(), del_len, in_len)
    {
      hide Simplified, BlockMinimal, Swept, Without;
      EmptySweep(del_len);
      var del_pos := 0;
      var prev_del := true;
      changed := false;
      SimplifiedItself(Data());
      while del_pos < in_len
        invariant Valid() && in_data == old(in_data) && tmp_buf == old(tmp_buf) && in_len <= old(in_len)
        invariant Simplified(old(Data()), Data())
        invariant changed ==> in_len < old(in_len) && oracle(Data())
        invariant !changed ==> Data() == old(Data()) && del_pos % del_len == 0
        invariant !changed ==> BlockMinimal(oracle, Data(), del_len, del_pos)
        invariant Swept(oracle, Data(), del_len, del_pos) == Swept(oracle, old(Data()), del_len, 0)
        invariant !prev_del ==> del_len <= del_pos
        invariant !prev_del && del_pos < in_len ==> !oracle(Without(Data(), del_pos - del_len, del_len))
        decreases in_len - del_pos
      {
        ghost var d := Data();
        SweptStep(oracle, d, del_len, del_pos);
        var tail_len := if del_pos + del_len < in_len then in_len - del_pos - del_len else 0;
        if !prev_del && tail_len > 0 {
          var same := SameAsPrevious(del_pos, del_len);
          if same {
            if !changed { NextBlock(oracle, d, del_len, del_pos); }
            del_pos := del_pos + del_len;
            continue;
          }
        }
        prev_del := false;
        BuildWithout(del_pos, del_len, tail_len);
        var res := oracle(tmp_buf[..del_pos + tail_len]);
        if res {
          Accept(del_pos + tail_len);
          prev_del := true;
          changed := true;
          WithoutSimplifies(d, del_pos, del_len);
          SimplifiedTrans(old(Data()), d, Data());
        } else {
          if !changed { NextBlock(oracle, d, del_len, del_pos); }
          del_pos := del_pos + del_len;
        }
      }
      SweptStep(oracle, Data(), del_len, del_pos);
    }

    /** memcmp of a block with the one before it. */
    method SameAsPrevious(del_pos: nat, del_len: nat) returns (same: bool)
      requires Valid() && del_len <= del_pos && del_pos + del_len <= in_len
      ensures same ==> Without(Data(), del_pos - del_len, del_len) == Without(Data(), del_pos, del_len)
    {
      hide Without;
      same := in_data[del_pos - del_len..del_pos] == in_data[del_pos..del_pos + del_len];
      if same {
        assert Data()[del_pos - del_len..del_pos] == in_data[del_pos - del_len..del_pos];
        assert Data()[del_pos..del_pos + del_len] == in_data[del_pos..del_pos + del_len];
        EqualBlocks(Data(), del_pos, del_len);
      }
    }

    /** The accepted trial becomes the data. */
    method Accept(n: nat)
      requires Valid() && n <= in_len
      modifies this`in_len, in_data
      ensures Valid() && in_len == n && Data() == old(tmp_buf[..n])
    {
      Copy(in_data, 0, tmp_buf, 0, n);
      in_len := n;
    }

    static lemma SweptStep(oracle: seq<byte> -> bool, d: seq<byte>, len: nat, pos: nat)
      requires len > 0
      ensures pos >= |d| ==> Swept(oracle, d, len, pos) == d
      ensures pos < |d| ==>
                var trial := Without(d, pos, len);
                Swept(oracle, d, len, pos) ==
                  if oracle(trial) then Swept(oracle, trial, len, pos) else Swept(oracle, d, len, pos + len)
    {
    }

    lemma EmptySweep(del_len: nat)
      requires Valid() && del_len > 0
      ensures BlockMinimal(oracle, Data(), del_len, 0) && 0 % del_len == 0
      ensures forall upto: nat :: upto >= in_len && BlockMinimal(oracle, Data(), del_len, upto) ==>
                BlockMinimal(oracle, Data(), del_len, in_len)
    {
    }

    /** Head and tail around the block, into tmp_buf. */
    method BuildWithout(del_pos: nat, del_len: nat, tail_len: nat)
      requires Valid() && del_pos < in_len && del_len > 0
      requires tail_len == if del_pos + del_len < in_len then in_len - del_pos - del_len else 0
      modifies tmp_buf
      ensures tmp_buf[..del_pos + tail_len] == Without(Data(), del_pos, del_len)
    {
      Copy(tmp_buf, 0, in_data, 0, del_pos);
      if tail_len > 0 {
        Copy(tmp_buf, del_pos, in_data, del_pos + del_len, tail_len);
      }
    }

    /** Stage 1 of a pass: block lengths from next_p2(in_len / 16) down to 1. */
    method DeletionStage() returns (changed: bool)
      requires Valid()
      modifies this`in_len, in_data, tmp_buf
      ensures StageKeeps()
      ensures Data() == Shrunk(oracle, old(Data()), NextP2Of(old(in_len) / TRIM_START_STEPS))
      ensures changed ==> in_len < old(in_len) && oracle(Data())
      ensures !changed ==> Data() == old(Data())
      ensures !changed ==> AllBlocksMinimal(oracle, Data(), NextP2Of(in_len / TRIM_START_STEPS))
    {
      hide Simplified, BlockMinimal, AllBlocksMinimal, NextP2Of, IsPow2, Swept, Shrunk;
      var del_len := NextP2(in_len / TRIM_START_STEPS);
      ghost var start := del_len;
      ShrunkStep(oracle, Data(), del_len);
      changed := DeleteBlocks(del_len);
      while del_len > 1 && in_len >= 1
        invariant Valid() && in_data == old(in_data) && tmp_buf == old(tmp_buf) && in_len <= old(in_len)
        invariant del_len > 0
        invariant Shrunk(oracle, old(Data()), start) ==
                  if del_len > 1 && in_len >= 1 then Shrunk(oracle, Data(), del_len / 2) else Data()
        invariant Simplified(old(Data()), Data())
        invariant changed ==> in_len < old(in_len) && oracle(Data())
        invariant !changed ==> Data() == old(Data())
        invariant !changed ==> BlockMinimal(oracle, Data(), del_len, in_len)
        invariant !changed ==> (AllBlocksMinimal(oracle, Data(), del_len) ==> AllBlocksMinimal(oracle, Data(), start))
        decreases del_len
      {
        if !changed { AllBlocksStep(oracle, Data(), del_len); }
        del_len := del_len / 2;
        ghost var d := Data();
        ShrunkStep(oracle, d, del_len);
        var c := DeleteBlocks(del_len);
        SimplifiedTrans(old(Data()), d, Data());
        changed := changed || c;
      }
      if !changed {
        if in_len == 0 {
          NothingToDelete(oracle, Data(), start);
        } else {
          AllBlocksStep(oracle, Data(), del_len);
        }
      }
    }

    static lemma ShrunkStep(oracle: seq<byte> -> bool, d: seq<byte>, len: nat)
      requires len > 0
      ensures var swept := Swept(oracle, d, len, 0);
              Shrunk(oracle, d, len) == if len > 1 && |swept| >= 1 then Shrunk(oracle, swept, len / 2) else swept
    {
    }

    static lemma AllBlocksStep(oracle: seq<byte> -> bool, d: seq<byte>, len: nat)
      requires len > 0 && BlockMinimal(oracle, d, len, |d|)
      ensures AllBlocksMinimal(oracle, d, len / 2) ==> AllBlocksMinimal(oracle, d, len)
      ensures len == 1 ==> AllBlocksMinimal(oracle, d, len)
    {
    }

    static lemma {:induction false} NothingToDelete(oracle: seq<byte> -> bool, d: seq<byte>, len: nat)
      requires d == []
      ensures AllBlocksMinimal(oracle, d, len)
    {
      if len > 0 { NothingToDelete(oracle, d, len / 2); }
    }

    /** Stage 2: try to turn every occurrence of a symbol into '0', symbol by symbol. */
    method SymbolStage() returns (changed: bool)
      requires Valid()
      modifies in_data, tmp_buf
      ensures StageKeeps()
      ensures Data() == Merged(oracle, old(Data()), 0)
      ensures if changed then oracle(Data()) && NonZero(Data()) < old(NonZero(Data())) else Data() == old(Data())
    {
      hide Simplified, NonZero, Count, Merged;
      var alpha_map := CountSymbols();
      changed := false;
      SimplifiedItself(Data());
      for i := 0 to 256
        invariant Simplified(old(Data()), Data())
        invariant if changed then oracle(Data()) && NonZero(Data()) < old(NonZero(Data())) else Data() == old(Data())
        invariant forall c: byte :: i <= c && c != ZERO ==> alpha_map[c] == Count(Data(), c)
        invariant Merged(oracle, Data(), i) == Merged(oracle, old(Data()), 0)
      {
        MergedStep(oracle, Data(), i);
        if i == ZERO || alpha_map[i] == 0 {
          AbsentSymbol(Data(), i);
          continue;
        }
        ghost var d := Data();
        Copy(tmp_buf, 0, in_data, 0, in_len);
        assert tmp_buf[..in_len] == d;
        MergeSymbol(i);
        var res := oracle(tmp_buf[..in_len]);
        if res {
          Copy(in_data, 0, tmp_buf, 0, in_len);
          assert Data() == WithoutSymbol(d, i);
          changed := true;
          WithoutSymbolSimplifies(d, i);
          SimplifiedTrans(old(Data()), d, Data());
          forall c: byte | i < c && c != ZERO ensures alpha_map[c] == Count(Data(), c) {
            SymbolRemovalCounts(d, i, c);
          }
          SymbolRemovalCounts(d, i, i);
        } else {
          assert Data() == d;
        }
      }
      MergedStep(oracle, Data(), 256);
    }

    static lemma MergedStep(oracle: seq<byte> -> bool, d: seq<byte>, c: nat)
      requires c <= 256
      ensures Merged(oracle, d, c) ==
              if c == 256 then d else Merged(oracle, Kept(oracle, WithoutSymbol(d, c), d), c + 1)
    {
    }

    /** The histogram of the buffer. */
    method CountSymbols() returns (alpha_map: seq<nat>)
      requires Valid()
      ensures |alpha_map| == 256 && forall c: byte :: alpha_map[c] == Count(Data(), c)
    {
      alpha_map := seq(256, _ => 0);
      for i := 0 to in_len
        invariant |alpha_map| == 256
        invariant forall c: byte :: alpha_map[c] == Count(Data()[..i], c)
      {
        forall c: byte ensures Count(Data()[..i + 1], c) == Count(Data()[..i], c) + if in_data[i] == c then 1 else 0 {
          CountSnoc(Data(), i, c);
        }
        alpha_map := alpha_map[in_data[i] := alpha_map[in_data[i]] + 1];
      }
      assert Data()[..in_len] == Data();
    }

    /** `if (tmp_buf[r] == i) tmp_buf[r] = '0'` for every r. */
    method MergeSymbol(c: byte)
      requires Valid()
      modifies tmp_buf
      ensures tmp_buf[..in_len] == WithoutSymbol(old(tmp_buf[..in_len]), c)
    {
      for r := 0 to in_len
        invariant forall j :: 0 <= j < tmp_buf.Length ==>
                    tmp_buf[j] == if j < r && old(tmp_buf[j]) == c then ZERO else old(tmp_buf[j])
      {
        if tmp_buf[r] == c {
          tmp_buf[r] := ZERO;
        }
      }
    }

    /** Stage 3: try to turn single bytes into '0'. */
    method CharacterStage() returns (changed: bool)
      requires Valid()
      modifies in_data, tmp_buf
      ensures StageKeeps()
      ensures Data() == Spared(oracle, old(Data()), 0)
      ensures if changed then oracle(Data()) && NonZero(Data()) < old(NonZero(Data())) else Data() == old(Data())
    {
      hide Simplified, NonZero, Spared;
      Copy(tmp_buf, 0, in_data, 0, in_len);
      assert tmp_buf[..in_len] == Data();
      changed := false;
      SimplifiedItself(Data());
      for i := 0 to in_len
        invariant tmp_buf[..in_len] == Data()
        invariant Spared(oracle, Data(), i) == Spared(oracle, old(Data()), 0)
        invariant Simplified(old(Data()), Data())
        invariant if changed then oracle(Data()) && NonZero(Data()) < old(NonZero(Data())) else Data() == old(Data())
      {
        ghost var d := Data();
        SparedStep(oracle, d, i);
        assert tmp_buf[..in_len][i] == d[i];
        if tmp_buf[i] == ZERO {
          continue;
        }
        var res := TrySpare(i);
        if res {
          changed := true;
          assert Zeroed(d, i, 1) == d[i := ZERO];
          ZeroedSimplifies(d, i, 1);
          SimplifiedTrans(old(Data()), d, Data());
          ZeroOneCounts(d, i);
        }
      }
      SparedStep(oracle, Data(), in_len);
    }

    /** Stage 3 on one byte; tmp_buf follows in_data. */
    method TrySpare(i: nat) returns (res: bool)
      requires Valid() && i < in_len && tmp_buf[..in_len] == Data() && Data()[i] != ZERO
      modifies in_data, tmp_buf
      ensures Valid() && tmp_buf[..in_len] == Data()
      ensures res <==> oracle(old(Data())[i := ZERO])
      ensures Data() == Kept(oracle, old(Data())[i := ZERO], old(Data()))
    {
      ghost var d := Data();
      var orig := tmp_buf[i];
      assert orig == d[i];
      tmp_buf[i] := ZERO;
      assert tmp_buf[..in_len] == d[i := ZERO];
      res := oracle(tmp_buf[..in_len]);
      if res {
        in_data[i] := ZERO;
        assert Data() == d[i := ZERO];
      } else {
        tmp_buf[i] := orig;
        assert tmp_buf[..in_len] == d;
      }
    }

    static lemma SparedStep(oracle: seq<byte> -> bool, d: seq<byte>, i: nat)
      requires i <= |d|
      ensures Spared(oracle, d, i) == if i == |d| then d else Spared(oracle, Kept(oracle, d[i := ZERO], d), i + 1)
      ensures i < |d| && d[i] == ZERO ==> d[i := ZERO] == d
    {
    }

    /** What a pass computes that skips no test. */
    static ghost function Pass(oracle: seq<byte> -> bool, d: seq<byte>): seq<byte> {
      Spared(oracle, Merged(oracle, Shrunk(oracle, d, NextP2Of(|d| / TRIM_START_STEPS)), 0), 0)
    }

    static ghost function Passes(oracle: seq<byte> -> bool, d: seq<byte>, n: nat): seq<byte> {
      if n == 0 then d else Pass(oracle, Passes(oracle, d, n - 1))
    }

    /** Stage 1 finds nothing to delete. */
    static ghost predicate Undeletable(oracle: seq<byte> -> bool, d: seq<byte>) {
      Shrunk(oracle, d, NextP2Of(|d| / TRIM_START_STEPS)) == d
    }

    /** Where nothing can be deleted, a pass with every test made is without effect exactly
        when neither a symbol nor a byte is left to turn into '0'. */
    static lemma FixedPoint(oracle: seq<byte> -> bool, d: seq<byte>)
      requires Undeletable(oracle, d)
      ensures Pass(oracle, d) == d <==> NoSymbolToMerge(oracle, d, 0) && NoByteToSpare(oracle, d, 0)
    {
      hide NoSymbolToMerge, NoByteToSpare, NonZero, Shrunk, Merged, Spared, NextP2Of;
      MergedIdle(oracle, d, 0);
      SparedIdle(oracle, Merged(oracle, d, 0), 0);
    }

    /** One pass, from `next_pass` to the `goto`: says whether another one is wanted. */
    method OnePass(cur_pass: nat) returns (again: bool)
      requires Valid()
      modifies this`in_len, in_data, tmp_buf
      ensures StageKeeps()
      ensures again || cur_pass == 1 ==> Data() == Pass(oracle, old(Data()))
      ensures again ==> in_len < old(in_len) || (in_len == old(in_len) && NonZero(Data()) < old(NonZero(Data())))
      ensures !again ==> Data() == old(Data())
      ensures !again ==> AllBlocksMinimal(oracle, Data(), NextP2Of(in_len / TRIM_START_STEPS))
      ensures !again ==> Undeletable(oracle, Data())
      ensures again && cur_pass > 1 ==> !Undeletable(oracle, old(Data()))
    {
      hide Simplified, AllBlocksMinimal, NonZero, NextP2Of, Shrunk, Merged, Spared;
      var changed_any := DeletionStage();
      if cur_pass > 1 && !changed_any {
        return false;
      }
      ghost var d1 := Data();
      var merged := SymbolStage();
      SimplifiedTrans(old(Data()), d1, Data());
      ghost var d2 := Data();
      var zeroed := CharacterStage();
      SimplifiedTrans(old(Data()), d2, Data());
      return changed_any || merged || zeroed;
    }

    /** minimize().  The result is a simplification of the input that the target still
        accepts (if it accepted the input), from which no aligned block of any tried length,
        and so no single byte, can be dropped.  Each further pass has made the buffer
        shorter or, at the same length, left fewer bytes other than '0'.  The tests it skips
        make no difference: the result is that of passes with every test made, the first one
        and then as many as it takes until nothing can be deleted. */
    method Minimize() returns (ghost passes: nat)
      requires Valid()
      modifies this`in_len, in_data, tmp_buf
      ensures StageKeeps()
      ensures Data() == Passes(oracle, Normalized(oracle, old(Data()), BlockLength(old(in_len)), 0), passes)
      ensures AllBlocksMinimal(oracle, Data(), NextP2Of(in_len / TRIM_START_STEPS))
      ensures OneMinimal(oracle, Data())
      ensures passes > 0 && Undeletable(oracle, Data())
      ensures var normal := Normalized(oracle, old(Data()), BlockLength(old(in_len)), 0);
              forall p: nat :: 0 < p < passes ==> !Undeletable(oracle, Passes(oracle, normal, p))
    {
      hide Simplified, AllBlocksMinimal, NonZero, NextP2Of, Pass, Normalized, Undeletable;
      NormalizeBlocks();
      ghost var normal := Data();
      passes := 0;
      var cur_pass := 0;
      var changed_any := true;
      while changed_any
        invariant Valid() && in_data == old(in_data) && tmp_buf == old(tmp_buf) && in_len <= old(in_len)
        invariant Simplified(old(Data()), Data())
        invariant Data() == old(Data()) || oracle(Data())
        invariant !changed_any ==> AllBlocksMinimal(oracle, Data(), NextP2Of(in_len / TRIM_START_STEPS))
        invariant Data() == Passes(oracle, normal, passes)
        invariant if cur_pass == 0 then changed_any && passes == 0 else passes > 0
        invariant !changed_any ==> Undeletable(oracle, Data())
        invariant forall p: nat :: 0 < p < passes ==> !Undeletable(oracle, Passes(oracle, normal, p))
        decreases in_len, NonZero(Data()), if changed_any then 1 else 0
      {
        cur_pass := cur_pass + 1;
        ghost var d := Data();
        changed_any := OnePass(cur_pass);
        if changed_any || cur_pass == 1 { passes := passes + 1; }
        SimplifiedTrans(old(Data()), d, Data());
      }
      SmallestBlockIsOne(oracle, Data(), NextP2Of(in_len / TRIM_START_STEPS));
    }
  }

  // ----- a byte that could still be turned into '0' -----

  predicate Accepted(d: seq<byte>) {
    d == [97, 98, 98] || d == [97, 48, 98] || d == [48, 48, 98]
  }

  /** The pass that changes the second byte is the last one to try the first. */
  method ByteLeftOver() returns (d: seq<byte>)
    ensures d == [97, ZERO, 98] && Accepted(d[0 := ZERO])
  {
    hide Normalized, Accepted, Minimizer.Passes, Minimizer.BlockLength, Minimizer.Undeletable, Simplified, OneMinimal,
         AllBlocksMinimal;
    var m := new Minimizer(Accepted, [97, 98, 98]);
    ghost var passes := m.Minimize();
    OnePassDoes();
    d := m.Data();
    FirstByteToo(d);
  }

  lemma FirstByteToo(d: seq<byte>)
    requires d == [97, ZERO, 98]
    ensures Accepted(d[0 := ZERO])
  {
  }

  lemma OnePassDoes()
    ensures var normal := Normalized(Accepted, [97, 98, 98], Minimizer.BlockLength(3), 0);
            Minimizer.Passes(Accepted, normal, 1) == [97, ZERO, 98] && Minimizer.Undeletable(Accepted, [97, ZERO, 98])
  {
    var d: seq<byte> := [97, 98, 98];
    NothingNormalized();
    OnlyThreeBytes(d);
    OnlyThreeBytes([97, ZERO, 98]);
    NothingMerged();
    TwoBytesTried();
    assert Minimizer.Passes(Accepted, d, 0) == d;
  }

  lemma NothingNormalized()
    ensures Normalized(Accepted, [97, 98, 98], Minimizer.BlockLength(3), 0) == [97, 98, 98]
  {
    assert NextP2Of(0) == 1;
    assert Zeroed([97, 98, 98], 0, 3) == [ZERO, ZERO, ZERO];
  }

  lemma OnlyThreeBytes(d: seq<byte>)
    requires |d| == 3
    ensures Minimizer.Undeletable(Accepted, d)
    ensures Shrunk(Accepted, d, NextP2Of(|d| / TRIM_START_STEPS)) == d
  {
    assert NextP2Of(0) == 1;
    assert Swept(Accepted, d, 1, 3) == d;
    assert Swept(Accepted, d, 1, 2) == d;
    assert Swept(Accepted, d, 1, 1) == d;
    assert Swept(Accepted, d, 1, 0) == d;
  }

  lemma NothingMerged()
    ensures Merged(Accepted, [97, 98, 98], 0) == [97, 98, 98]
  {
    var d: seq<byte> := [97, 98, 98];
    forall c: byte ensures WithoutSymbol(d, c) == d || !Accepted(WithoutSymbol(d, c)) {
      var r := WithoutSymbol(d, c);
      assert r == [if c == 97 then ZERO else 97, if c == 98 then ZERO else 98, if c == 98 then ZERO else 98];
    }
    MergedIdle(Accepted, d, 0);
  }

  lemma TwoBytesTried()
    ensures Spared(Accepted, [97, 98, 98], 0) == [97, ZERO, 98]
  {
    var d: seq<byte> := [97, 98, 98];
    assert d[0 := ZERO] == [ZERO, 98, 98] && d[1 := ZERO] == [97, ZERO, 98];
    assert [97, ZERO, 98][2 := ZERO] == [97, ZERO, ZERO];
    Minimizer.SparedStep(Accepted, d, 0);
    Minimizer.SparedStep(Accepted, d, 1);
    Minimizer.SparedStep(Accepted, [97, ZERO, 98], 2);
    Minimizer.SparedStep(Accepted, [97, ZERO, 98], 3);
  }

  /** What one execution of the target shows; `anything_set` when it left a trace at all. */
  datatype Observation = Observation(timed_out: bool, crashed: bool, anything_set: bool, cksum: nat)

  /** run_target's verdict once the dry run has fixed crash_mode and orig_cksum. */
  predicate Accepts(o: Observation, crash_mode: bool, exact_mode: bool, orig_cksum: nat) {
    if o.timed_out then false
    else if o.crashed then crash_mode && (!exact_mode || o.cksum == orig_cksum)
    else !crash_mode && o.cksum == orig_cksum
  }

  /** Two executions afl-tmin does not tell apart: both crash or both do not, and the trace
      checksums agree wherever they are compared. */
  predicate SameBehaviour(a: Observation, b: Observation, exact_mode: bool)
    ensures !SameBehaviour(a, b, exact_mode) <==>
            a.timed_out || b.timed_out || a.crashed != b.crashed || (a.cksum != b.cksum && (exact_mode || !a.crashed))
  {
    && !a.timed_out && !b.timed_out
    && a.crashed == b.crashed
    && ((a.crashed && !exact_mode) || a.cksum == b.cksum)
  }

  datatype Outcome = TimesOut | NotInstrumented | Minimized(data: seq<byte>)

  /** The whole tool on a deterministic target: dry run, then minimize. */
  method AflTmin(target: seq<byte> -> Observation, exact_mode: bool, data: seq<byte>) returns (r: Outcome)
    ensures r == TimesOut <==> target(data).timed_out
    ensures r == NotInstrumented <==>
              !target(data).timed_out && !target(data).crashed && !target(data).anything_set
    ensures r.Minimized? ==>
              && SameBehaviour(target(data), target(r.data), exact_mode)
              && !target(r.data).timed_out && target(r.data).crashed == target(data).crashed
              && (target(r.data).cksum == target(data).cksum || (target(data).crashed && !exact_mode))
              && |r.data| <= |data| && Simplified(data, r.data)
              && forall i: nat :: i < |r.data| ==>
                   !SameBehaviour(target(data), target(r.data[..i] + r.data[i + 1..]), exact_mode)
  {
    var first := target(data);
    if first.timed_out {
      return TimesOut;
    }
    if !first.crashed && !first.anything_set {
      return NotInstrumented;
    }
    hide Simplified, Minimizer.Passes, Normalized, AllBlocksMinimal, OneMinimal, SameBehaviour;
    var oracle := (d: seq<byte>) => Accepts(target(d), first.crashed, exact_mode, first.cksum);
    var m := new Minimizer(oracle, data);
    ghost var passes := m.Minimize();
    LikeTheInput(target, exact_mode, data, oracle, m.Data());
    return Minimized(m.Data());
  }

  lemma LikeTheInput(target: seq<byte> -> Observation, exact_mode: bool, data: seq<byte>, oracle: seq<byte> -> bool,
                     d: seq<byte>)
    requires !target(data).timed_out
    requires forall x :: oracle(x) == Accepts(target(x), target(data).crashed, exact_mode, target(data).cksum)
    requires (d == data || oracle(d)) && OneMinimal(oracle, d)
    ensures SameBehaviour(target(data), target(d), exact_mode)
    ensures forall i: nat :: i < |d| ==> !SameBehaviour(target(data), target(d[..i] + d[i + 1..]), exact_mode)
  {
  }
}
