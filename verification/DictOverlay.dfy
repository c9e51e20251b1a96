/** The dictionary stages of fuzz_one: tokens laid over the input, and tokens inserted. */
module DictOverlay {
  import opened Bytes

  type Token = t: seq<byte> | t != [] witness [0]

  /** What else decides whether a token is tried: the effector map and, with many tokens, the
      dice.  The stage for automatic tokens never rolls them. */
  datatype Env = Env(eff_map: seq<bool>, dropped: (nat, nat) -> bool)
  {
    ghost predicate Fits(len: nat) {
      |eff_map| == (len + 7) / 8
    }

    /** memchr(eff_map + EFF_APOS(i), 1, EFF_SPAN_ALEN(i, n)) */
    predicate Effective(i: nat, n: nat)
      requires n > 0 && (i + n - 1) / 8 < |eff_map|
    {
      true in eff_map[i / 8..(i + n - 1) / 8 + 1]
    }
  }

  /** A run of bytes counts as effective if a block of eight that it touches does. */
  lemma EffectiveMeans(env: Env, i: nat, n: nat)
    requires n > 0 && (i + n - 1) / 8 < |env.eff_map|
    ensures env.Effective(i, n) <==> exists k :: i <= k < i + n && env.eff_map[k / 8]
  {
    var a, b := i / 8, (i + n - 1) / 8;
    if env.Effective(i, n) {
      var j :| 0 <= j < b + 1 - a && env.eff_map[a..b + 1][j];
      var k := if j == 0 then i else 8 * (a + j);
      assert env.eff_map[k / 8];
    }
    if k :| i <= k < i + n && env.eff_map[k / 8] {
      assert env.eff_map[a..b + 1][k / 8 - a];
    }
  }

  /** memcpy(buf + i, t, |t|) */
  function Overlay(buf: seq<byte>, i: nat, t: seq<byte>): (r: seq<byte>)
    requires i + |t| <= |buf|
    ensures |r| == |buf|
  {
    buf[..i] + t + buf[i + |t|..]
  }

  lemma OverlayBytes(buf: seq<byte>, i: nat, t: seq<byte>)
    requires i + |t| <= |buf|
    ensures forall k :: 0 <= k < |buf| ==> Overlay(buf, i, t)[k] == if i <= k < i + |t| then t[k - i] else buf[k]
  {
  }

  predicate Skips(env: Env, buf: seq<byte>, i: nat, j: nat, t: Token)
    requires env.Fits(|buf|) && i < |buf|
  {
    env.dropped(i, j) || |t| > |buf| - i || t == buf[i..i + |t|] || !env.Effective(i, |t|)
  }

  /** The buffers handed to the target, in order, and the buffer left behind. */
  datatype Effect = Effect(trials: seq<seq<byte>>, buf: seq<byte>)

  /** The tokens from j on at offset i; at the end as many bytes are restored as the last
      token laid down there was long. */
  function AtOffset(env: Env, in_buf: seq<byte>, buf: seq<byte>, i: nat, extras: seq<Token>, j: nat,
                    last_len: nat): (e: Effect)
    requires |buf| == |in_buf| && env.Fits(|buf|) && i < |buf| && j <= |extras| && i + last_len <= |buf|
    ensures |e.buf| == |buf|
    decreases |extras| - j
  {
    if j == |extras| then Effect([], Overlay(buf, i, in_buf[i..i + last_len]))
    else if Skips(env, buf, i, j, extras[j]) then AtOffset(env, in_buf, buf, i, extras, j + 1, last_len)
    else
      var laid := Overlay(buf, i, extras[j]);
      var e := AtOffset(env, in_buf, laid, i, extras, j + 1, |extras[j]|);
      Effect([laid] + e.trials, e.buf)
  }

  function Stage(env: Env, in_buf: seq<byte>, buf: seq<byte>, i: nat, extras: seq<Token>): (e: Effect)
    requires |buf| == |in_buf| && env.Fits(|buf|) && i <= |buf|
    ensures |e.buf| == |buf|
    decreases |buf| - i
  {
    if i == |buf| then Effect([], buf)
    else
      var here := AtOffset(env, in_buf, buf, i, extras, 0, 0);
      var later := Stage(env, in_buf, here.buf, i + 1, extras);
      Effect(here.trials + later.trials, later.buf)
  }

  lemma Unfolded(env: Env, in_buf: seq<byte>, buf: seq<byte>, i: nat, extras: seq<Token>, j: nat, last_len: nat)
    requires |buf| == |in_buf| && env.Fits(|buf|) && i < |buf| && j < |extras| && i + last_len <= |buf|
    ensures Skips(env, buf, i, j, extras[j]) ==>
              AtOffset(env, in_buf, buf, i, extras, j, last_len) ==
                AtOffset(env, in_buf, buf, i, extras, j + 1, last_len)
    ensures !Skips(env, buf, i, j, extras[j]) ==>
              var laid := Overlay(buf, i, extras[j]);
              var e := AtOffset(env, in_buf, laid, i, extras, j + 1, |extras[j]|);
              AtOffset(env, in_buf, buf, i, extras, j, last_len) == Effect([laid] + e.trials, e.buf)
  {
    hide Overlay;
  }

  lemma Restored(env: Env, in_buf: seq<byte>, buf: seq<byte>, i: nat, extras: seq<Token>, last_len: nat)
    requires |buf| == |in_buf| && env.Fits(|buf|) && i < |buf| && i + last_len <= |buf|
    ensures AtOffset(env, in_buf, buf, i, extras, |extras|, last_len) ==
            Effect([], Overlay(buf, i, in_buf[i..i + last_len]))
  {
  }

  // ----- the loops -----

  /** The part of the trials that is run: up to the first that makes the fuzzer move on. */
  ghost predicate RunUpTo(executed: seq<seq<byte>>, trials: seq<seq<byte>>, fuzz: seq<byte> -> bool, abandoned: bool) {
    && executed <= trials
    && (forall k :: 0 <= k < |executed| - (if abandoned then 1 else 0) ==> !fuzz(executed[k]))
    && (if abandoned then executed != [] && fuzz(executed[|executed| - 1]) else executed == trials)
  }

  /** One stage after the other. */
  lemma ThenRun(executed: seq<seq<byte>>, trials: seq<seq<byte>>, fuzz: seq<byte> -> bool, some: seq<seq<byte>>,
                more: seq<seq<byte>>, abandoned: bool)
    requires RunUpTo(executed, trials, fuzz, false) && RunUpTo(some, more, fuzz, abandoned)
    ensures RunUpTo(executed + some, trials + more, fuzz, abandoned)
  {
  }

  /** After the trial that ends it nothing is run. */
  lemma NoMoreRun(executed: seq<seq<byte>>, trials: seq<seq<byte>>, fuzz: seq<byte> -> bool, more: seq<seq<byte>>)
    requires RunUpTo(executed, trials, fuzz, true)
    ensures RunUpTo(executed, trials + more, fuzz, true)
  {
  }

  /** In the middle of a stage: none of the trials run so far ended it. */
  ghost predicate Underway(all: Effect, executed: seq<seq<byte>>, rest: Effect, fuzz: seq<byte> -> bool) {
    && all.trials == executed + rest.trials && all.buf == rest.buf
    && forall k :: 0 <= k < |executed| ==> !fuzz(executed[k])
  }

  lemma Onward(all: Effect, executed: seq<seq<byte>>, rest: Effect, fuzz: seq<byte> -> bool, some: seq<seq<byte>>,
               next: Effect)
    requires Underway(all, executed, rest, fuzz) && rest == Effect(some + next.trials, next.buf)
    requires forall k :: 0 <= k < |some| ==> !fuzz(some[k])
    ensures Underway(all, executed + some, next, fuzz)
  {
    assert executed + (some + next.trials) == executed + some + next.trials;
  }

  lemma Ended(all: Effect, executed: seq<seq<byte>>, rest: Effect, fuzz: seq<byte> -> bool, some: seq<seq<byte>>,
              trials: seq<seq<byte>>)
    requires Underway(all, executed, rest, fuzz) && RunUpTo(some, trials, fuzz, true) && trials <= rest.trials
    ensures RunUpTo(executed + some, all.trials, fuzz, true)
  {
  }

  /** The inner loop: `fuzz` is common_fuzz_stuff, true to abandon the entry. */
  method TokensAt(env: Env, in_buf: seq<byte>, out_buf: array<byte>, i: nat, extras: seq<Token>,
                  fuzz: seq<byte> -> bool)
    returns (executed: seq<seq<byte>>, abandoned: bool)
    requires out_buf.Length == |in_buf| && env.Fits(|in_buf|) && i < |in_buf|
    modifies out_buf
    ensures RunUpTo(executed, AtOffset(env, in_buf, old(out_buf[..]), i, extras, 0, 0).trials, fuzz, abandoned)
    ensures !abandoned ==> out_buf[..] == AtOffset(env, in_buf, old(out_buf[..]), i, extras, 0, 0).buf
  {
    hide Overlay, AtOffset, Env.Effective, Underway, RunUpTo;
    executed := [];
    var last_len: nat := 0;
    ghost var all := AtOffset(env, in_buf, out_buf[..], i, extras, 0, 0);
    NotYet(all, fuzz);
    for j := 0 to |extras|
      invariant i + last_len <= out_buf.Length
      invariant Underway(all, executed, AtOffset(env, in_buf, out_buf[..], i, extras, j, last_len), fuzz)
    {
      ghost var rest := AtOffset(env, in_buf, out_buf[..], i, extras, j, last_len);
      Unfolded(env, in_buf, out_buf[..], i, extras, j, last_len);
      var t := extras[j];
      if env.dropped(i, j) || |t| > out_buf.Length - i || t == out_buf[i..i + |t|] || !env.Effective(i, |t|) {
        continue;
      }
      last_len := |t|;
      Copy(out_buf, i, t);
      var trial := out_buf[..];
      if fuzz(trial) {
        LastOne(rest.trials, trial, fuzz);
        Ended(all, executed, rest, fuzz, [trial], rest.trials);
        return executed + [trial], true;
      }
      Onward(all, executed, rest, fuzz, [trial], AtOffset(env, in_buf, trial, i, extras, j + 1, last_len));
      executed := executed + [trial];
    }
    Restored(env, in_buf, out_buf[..], i, extras, last_len);
    Finished(all, executed, AtOffset(env, in_buf, out_buf[..], i, extras, |extras|, last_len), fuzz);
    Copy(out_buf, i, in_buf[i..i + last_len]);
    return executed, false;
  }

  lemma NotYet(all: Effect, fuzz: seq<byte> -> bool)
    ensures Underway(all, [], all, fuzz)
  {
    assert all.trials == [] + all.trials;
  }

  lemma LastOne(trials: seq<seq<byte>>, trial: seq<byte>, fuzz: seq<byte> -> bool)
    requires trials != [] && trials[0] == trial && fuzz(trial)
    ensures RunUpTo([trial], trials, fuzz, true)
  {
  }

  lemma Finished(all: Effect, executed: seq<seq<byte>>, rest: Effect, fuzz: seq<byte> -> bool)
    requires Underway(all, executed, rest, fuzz) && rest.trials == []
    ensures RunUpTo(executed, all.trials, fuzz, false) && all.buf == rest.buf
  {
    assert executed + [] == executed;
  }

  /** memcpy */
  method Copy(a: array<byte>, i: nat, t: seq<byte>)
    requires i + |t| <= a.Length
    modifies a
    ensures a[..] == Overlay(old(a[..]), i, t)
  {
    for k := 0 to |t|
      invariant forall m :: i <= m < i + k ==> a[m] == t[m - i]
      invariant forall m :: 0 <= m < i || i + k <= m < a.Length ==> a[m] == old(a[m])
    {
      a[i + k] := t[k];
    }
  }

  lemma StageUnfolded(env: Env, in_buf: seq<byte>, buf: seq<byte>, i: nat, extras: seq<Token>)
    requires |buf| == |in_buf| && env.Fits(|buf|) && i < |buf|
    ensures var here := AtOffset(env, in_buf, buf, i, extras, 0, 0);
            var later := Stage(env, in_buf, here.buf, i + 1, extras);
            Stage(env, in_buf, buf, i, extras) == Effect(here.trials + later.trials, later.buf)
  {
    hide AtOffset;
  }

  /** The stages "user extras (over)" and "auto extras (over)". */
  method OverwriteStage(env: Env, in_buf: seq<byte>, out_buf: array<byte>, extras: seq<Token>, fuzz: seq<byte> -> bool)
    returns (executed: seq<seq<byte>>, abandoned: bool)
    requires out_buf.Length == |in_buf| && env.Fits(|in_buf|) && out_buf[..] == in_buf
    modifies out_buf
    ensures RunUpTo(executed, Stage(env, in_buf, in_buf, 0, extras).trials, fuzz, abandoned)
    ensures !abandoned ==> out_buf[..] == Stage(env, in_buf, in_buf, 0, extras).buf
  {
    hide AtOffset, Stage, Underway, RunUpTo;
    executed := [];
    ghost var all := Stage(env, in_buf, in_buf, 0, extras);
    NotYet(all, fuzz);
    for i := 0 to |in_buf|
      invariant Underway(all, executed, Stage(env, in_buf, out_buf[..], i, extras), fuzz)
    {
      ghost var rest := Stage(env, in_buf, out_buf[..], i, extras);
      ghost var here := AtOffset(env, in_buf, out_buf[..], i, extras, 0, 0);
      StageUnfolded(env, in_buf, out_buf[..], i, extras);
      var some, stop := TokensAt(env, in_buf, out_buf, i, extras, fuzz);
      if stop {
        Ended(all, executed, rest, fuzz, some, here.trials);
        return executed + some, true;
      }
      AllRun(some, here.trials, fuzz);
      Onward(all, executed, rest, fuzz, some, Stage(env, in_buf, here.buf, i + 1, extras));
      executed := executed + some;
    }
    StageEnds(env, in_buf, out_buf[..], extras);
    Finished(all, executed, Stage(env, in_buf, out_buf[..], |in_buf|, extras), fuzz);
    return executed, false;
  }

  lemma AllRun(some: seq<seq<byte>>, trials: seq<seq<byte>>, fuzz: seq<byte> -> bool)
    requires RunUpTo(some, trials, fuzz, false)
    ensures some == trials && forall k :: 0 <= k < |some| ==> !fuzz(some[k])
  {
  }

  lemma StageEnds(env: Env, in_buf: seq<byte>, buf: seq<byte>, extras: seq<Token>)
    requires |buf| == |in_buf| && env.Fits(|buf|)
    ensures Stage(env, in_buf, buf, |buf|, extras) == Effect([], buf)
  {
  }

  // ----- with tokens sorted by length -----

  /** A token that the stage may try at offset i. */
  ghost predicate Admissible(env: Env, in_buf: seq<byte>, i: nat, extras: seq<Token>, j: nat)
    requires env.Fits(|in_buf|)
  {
    i < |in_buf| && j < |extras| && i + |extras[j]| <= |in_buf| && !env.dropped(i, j) && env.Effective(i, |extras[j]|)
  }

  /** The input with exactly one admissible token laid over it at offset i. */
  ghost predicate OneOverlay(env: Env, in_buf: seq<byte>, i: nat, extras: seq<Token>, trial: seq<byte>)
    requires env.Fits(|in_buf|)
  {
    exists j: nat :: Admissible(env, in_buf, i, extras, j) && trial == Overlay(in_buf, i, extras[j])
  }

  lemma OverlayTwice(buf: seq<byte>, i: nat, short: seq<byte>, long: seq<byte>)
    requires |short| <= |long| && i + |long| <= |buf|
    ensures Overlay(Overlay(buf, i, short), i, long) == Overlay(buf, i, long)
  {
  }

  lemma OverlayRestored(buf: seq<byte>, i: nat, t: seq<byte>)
    requires i + |t| <= |buf|
    ensures Overlay(Overlay(buf, i, t), i, buf[i..i + |t|]) == buf
  {
  }

  /** A token found in the buffer changes nothing when laid there. */
  lemma OverlaySame(buf: seq<byte>, i: nat, t: seq<byte>)
    requires i + |t| <= |buf| && t == buf[i..i + |t|]
    ensures Overlay(buf, i, t) == buf
  {
  }

  /** At one offset, starting from the input with `last` laid over it: every trial is the input
      with one token, the buffer is restored, and no admissible token is missed: skipped as
      redundant, it would have given the input itself or the buffer tried before. */
  lemma {:induction false} OffsetSound(env: Env, in_buf: seq<byte>, i: nat, extras: seq<Token>, j: nat, last: seq<byte>)
    requires env.Fits(|in_buf|) && i < |in_buf| && j <= |extras| && i + |last| <= |in_buf|
    requires SortedByLength(extras) && (j < |extras| ==> |last| <= |extras[j]|)
    ensures var buf := Overlay(in_buf, i, last);
            var e := AtOffset(env, in_buf, buf, i, extras, j, |last|);
            && e.buf == in_buf
            && (forall k :: 0 <= k < |e.trials| ==> OneOverlay(env, in_buf, i, extras, e.trials[k]))
            && (forall m :: j <= m < |extras| && Admissible(env, in_buf, i, extras, m) ==>
                  Overlay(in_buf, i, extras[m]) == buf || Overlay(in_buf, i, extras[m]) in e.trials)
    decreases |extras| - j
  {
    hide Overlay;
    var buf := Overlay(in_buf, i, last);
    var e := AtOffset(env, in_buf, buf, i, extras, j, |last|);
    if j == |extras| {
      OverlayRestored(in_buf, i, last);
    } else if Skips(env, buf, i, j, extras[j]) {
      OffsetSound(env, in_buf, i, extras, j + 1, last);
      if Admissible(env, in_buf, i, extras, j) {
        OverlaySame(buf, i, extras[j]);
        OverlayTwice(in_buf, i, last, extras[j]);
      }
    } else {
      OverlayTwice(in_buf, i, last, extras[j]);
      OffsetSound(env, in_buf, i, extras, j + 1, extras[j]);
      var rest := AtOffset(env, in_buf, Overlay(in_buf, i, extras[j]), i, extras, j + 1, |extras[j]|);
      assert e.trials == [Overlay(in_buf, i, extras[j])] + rest.trials;
      assert Admissible(env, in_buf, i, extras, j);
    }
  }

  /** Each buffer differs from the one before it. */
  ghost predicate Changing(buf: seq<byte>, ts: seq<seq<byte>>)
    decreases |ts|
  {
    ts == [] || (ts[0] != buf && Changing(ts[0], ts[1..]))
  }

  /** At one offset no trial repeats the buffer the token is laid into. */
  lemma {:induction false} TrialsDiffer(env: Env, in_buf: seq<byte>, buf: seq<byte>, i: nat, extras: seq<Token>, j: nat,
                                        last_len: nat)
    requires |buf| == |in_buf| && env.Fits(|buf|) && i < |buf| && j <= |extras| && i + last_len <= |buf|
    ensures Changing(buf, AtOffset(env, in_buf, buf, i, extras, j, last_len).trials)
    decreases |extras| - j
  {
    hide Overlay, Env.Effective, AtOffset;
    if j == |extras| {
      Restored(env, in_buf, buf, i, extras, last_len);
    } else {
      Unfolded(env, in_buf, buf, i, extras, j, last_len);
      if Skips(env, buf, i, j, extras[j]) {
        TrialsDiffer(env, in_buf, buf, i, extras, j + 1, last_len);
      } else {
        var laid := Overlay(buf, i, extras[j]);
        TrialsDiffer(env, in_buf, laid, i, extras, j + 1, |extras[j]|);
        LaidThere(buf, i, extras[j]);
        var later := AtOffset(env, in_buf, laid, i, extras, j + 1, |extras[j]|).trials;
        assert ([laid] + later)[1..] == later;
      }
    }
  }

  lemma LaidThere(buf: seq<byte>, i: nat, t: seq<byte>)
    requires i + |t| <= |buf|
    ensures Overlay(buf, i, t)[i..i + |t|] == t
  {
  }

  ghost predicate OverlaidSomewhere(env: Env, in_buf: seq<byte>, extras: seq<Token>, trial: seq<byte>)
    requires env.Fits(|in_buf|)
  {
    exists i: nat :: OneOverlay(env, in_buf, i, extras, trial)
  }

  /** No admissible token is missed from offset `from` on, unless it changes nothing. */
  ghost predicate NoneMissed(env: Env, in_buf: seq<byte>, from: nat, extras: seq<Token>, trials: seq<seq<byte>>)
    requires env.Fits(|in_buf|)
  {
    forall i: nat, m: nat :: from <= i && Admissible(env, in_buf, i, extras, m) ==>
      Overlay(in_buf, i, extras[m]) == in_buf || Overlay(in_buf, i, extras[m]) in trials
  }

  /** The stage as a whole, from any offset on. */
  lemma {:induction false} StageSound(env: Env, in_buf: seq<byte>, i: nat, extras: seq<Token>)
    requires env.Fits(|in_buf|) && i <= |in_buf| && SortedByLength(extras)
    ensures var e := Stage(env, in_buf, in_buf, i, extras);
            && e.buf == in_buf
            && (forall k :: 0 <= k < |e.trials| ==> OverlaidSomewhere(env, in_buf, extras, e.trials[k]))
            && NoneMissed(env, in_buf, i, extras, e.trials)
    decreases |in_buf| - i
  {
    hide AtOffset, OneOverlay, Overlay;
    if i < |in_buf| {
      NothingLaid(in_buf, i);
      OffsetSound(env, in_buf, i, extras, 0, []);
      StageSound(env, in_buf, i + 1, extras);
      var here := AtOffset(env, in_buf, in_buf, i, extras, 0, 0);
      var later := Stage(env, in_buf, in_buf, i + 1, extras);
      var e := Stage(env, in_buf, in_buf, i, extras);
      assert e == Effect(here.trials + later.trials, later.buf);
      forall k | 0 <= k < |e.trials| ensures OverlaidSomewhere(env, in_buf, extras, e.trials[k]) {
        if k < |here.trials| {
          assert OneOverlay(env, in_buf, i, extras, here.trials[k]);
        } else {
          assert e.trials[k] == later.trials[k - |here.trials|];
        }
      }
    }
  }

  lemma NothingLaid(buf: seq<byte>, i: nat)
    requires i <= |buf|
    ensures Overlay(buf, i, []) == buf
  {
  }

  /** The loops with sorted tokens: whatever runs is the input with one token over it; unless
      a trial ends the entry, no admissible token is missed and the input is back in the
      buffer. */
  method SortedOverwriteStage(env: Env, in_buf: seq<byte>, out_buf: array<byte>, extras: seq<Token>,
                              fuzz: seq<byte> -> bool)
    returns (executed: seq<seq<byte>>, abandoned: bool)
    requires out_buf.Length == |in_buf| && env.Fits(|in_buf|) && out_buf[..] == in_buf && SortedByLength(extras)
    modifies out_buf
    ensures RunUpTo(executed, Stage(env, in_buf, in_buf, 0, extras).trials, fuzz, abandoned)
    ensures forall k :: 0 <= k < |executed| ==> OverlaidSomewhere(env, in_buf, extras, executed[k])
    ensures !abandoned ==> out_buf[..] == in_buf && NoneMissed(env, in_buf, 0, extras, executed)
  {
    hide OverlaidSomewhere, NoneMissed, Stage;
    executed, abandoned := OverwriteStage(env, in_buf, out_buf, extras, fuzz);
    StageSound(env, in_buf, 0, extras);
  }

  /** Sorting matters: a shorter token after a longer one leaves the longer one's tail in the
      trial and in the buffer. */
  lemma UnsortedLeavesTail(env: Env)
    requires env == Env([true], (i, j) => false)
    ensures var e := AtOffset(env, [0, 0], [0, 0], 0, [[1, 2], [3]], 0, 0);
            e.trials == [[1, 2], [3, 2]] && e.buf == [0, 2]
  {
    var e0: Token, e1: Token := [1, 2], [3];
    var extras: seq<Token> := [e0, e1];
    assert env.Effective(0, 2) && env.Effective(0, 1) by { assert env.eff_map[0..1][0]; }
    hide AtOffset, Overlay, Env.Effective;
    assert Overlay([0, 0], 0, e0) == [1, 2] by { OverlayBytes([0, 0], 0, e0); }
    assert Overlay([1, 2], 0, e1) == [3, 2] by { OverlayBytes([1, 2], 0, e1); }
    assert Overlay([3, 2], 0, [0]) == [0, 2] by { OverlayBytes([3, 2], 0, [0]); }
    assert [0, 0][0..2] == [0, 0] != e0 && [1, 2][0..1] == [1] != e1 && [0, 0][0..1] == [0];
    Unfolded(env, [0, 0], [0, 0], 0, extras, 0, 0);
    Unfolded(env, [0, 0], [1, 2], 0, extras, 1, 2);
    Restored(env, [0, 0], [3, 2], 0, extras, 1);
  }

  // ----- inserting -----

  const MAX_FILE := 0x10_0000

  function Inserted(buf: seq<byte>, i: nat, t: seq<byte>): seq<byte>
    requires i <= |buf|
  {
    buf[..i] + t + buf[i..]
  }

  lemma InsertedBytes(buf: seq<byte>, i: nat, t: seq<byte>)
    requires i <= |buf|
    ensures |Inserted(buf, i, t)| == |buf| + |t|
    ensures forall k :: 0 <= k < |buf| + |t| ==>
              Inserted(buf, i, t)[k] == if k < i then buf[k] else if k < i + |t| then t[k - i] else buf[k - |t|]
  {
  }

  function InsertedAt(buf: seq<byte>, i: nat, extras: seq<Token>, j: nat): seq<seq<byte>>
    requires i <= |buf| && j <= |extras|
    decreases |extras| - j
  {
    if j == |extras| then []
    else
      (if |buf| + |extras[j]| > MAX_FILE then [] else [Inserted(buf, i, extras[j])]) + InsertedAt(buf, i, extras, j + 1)
  }

  function AllInserted(buf: seq<byte>, i: nat, extras: seq<Token>): seq<seq<byte>>
    requires i <= |buf| + 1
    decreases |buf| + 1 - i
  {
    if i == |buf| + 1 then [] else InsertedAt(buf, i, extras, 0) + AllInserted(buf, i + 1, extras)
  }

  /** Every token that leaves room is inserted everywhere, before, between and after the bytes. */
  lemma {:induction false} InsertedEverywhere(buf: seq<byte>, i: nat, extras: seq<Token>, at: nat, j: nat)
    requires i <= at <= |buf| && j < |extras| && |buf| + |extras[j]| <= 0x10_0000
    ensures Inserted(buf, at, extras[j]) in AllInserted(buf, i, extras)
    decreases at - i
  {
    hide Inserted;
    if at == i { InsertedHere(buf, i, extras, 0, j); } else { InsertedEverywhere(buf, i + 1, extras, at, j); }
  }

  /** And nothing else runs in that stage. */
  lemma {:induction false} OnlyInserted(buf: seq<byte>, i: nat, extras: seq<Token>, trial: seq<byte>)
    requires i <= |buf| + 1 && trial in AllInserted(buf, i, extras)
    ensures InsertedSomewhere(buf, extras, trial)
    decreases |buf| + 1 - i
  {
    hide Inserted;
    if i <= |buf| {
      if trial in InsertedAt(buf, i, extras, 0) {
        OnlyInsertedHere(buf, i, extras, 0, trial);
      } else {
        OnlyInserted(buf, i + 1, extras, trial);
      }
    }
  }

  ghost predicate InsertedSomewhere(buf: seq<byte>, extras: seq<Token>, trial: seq<byte>) {
    exists i: nat, t: Token :: i <= |buf| && t in extras && |buf| + |t| <= 0x10_0000 && trial == Inserted(buf, i, t)
  }

  lemma {:induction false} OnlyInsertedHere(buf: seq<byte>, i: nat, extras: seq<Token>, j: nat, trial: seq<byte>)
    requires i <= |buf| && j <= |extras| && trial in InsertedAt(buf, i, extras, j)
    ensures InsertedSomewhere(buf, extras, trial)
    decreases |extras| - j
  {
    hide Inserted;
    if j < |extras| && (|buf| + |extras[j]| > MAX_FILE || trial != Inserted(buf, i, extras[j])) {
      OnlyInsertedHere(buf, i, extras, j + 1, trial);
    }
  }

  lemma {:induction false} InsertedHere(buf: seq<byte>, i: nat, extras: seq<Token>, from: nat, j: nat)
    requires i <= |buf| && from <= j < |extras| && |buf| + |extras[j]| <= MAX_FILE
    ensures Inserted(buf, i, extras[j]) in InsertedAt(buf, i, extras, from)
    decreases j - from
  {
    hide Inserted;
    if from < j { InsertedHere(buf, i, extras, from + 1, j); }
  }

  /** The stage "user extras (insert)": the head of the scratch buffer grows with the offset,
      token and tail are copied anew each time.  At the end the byte after out_buf, whatever
      it is, is copied too. */
  method InsertStage(out_buf: seq<byte>, after: byte, extras: seq<Token>, fuzz: seq<byte> -> bool)
    returns (executed: seq<seq<byte>>, abandoned: bool)
    requires forall j :: 0 <= j < |extras| ==> |extras[j]| <= 128
    ensures RunUpTo(executed, AllInserted(out_buf, 0, extras), fuzz, abandoned)
  {
    hide Inserted, InsertedAt, AllInserted, Underway, RunUpTo;
    var len := |out_buf|;
    var ex_tmp := new byte[len + 128](i => 0);
    executed := [];
    ghost var all := Effect(AllInserted(out_buf, 0, extras), []);
    NotYet(all, fuzz);
    assert out_buf[..0] == [] == ex_tmp[..0];
    for i := 0 to len + 1
      invariant ex_tmp[..Min(i, len)] == out_buf[..Min(i, len)]
      invariant Underway(all, executed, Effect(AllInserted(out_buf, i, extras), []), fuzz)
    {
      ghost var rest := Effect(AllInserted(out_buf, i, extras), []);
      ghost var here := InsertedAt(out_buf, i, extras, 0);
      InsertionsUnfolded(out_buf, i, extras);
      var some, stop := InsertTokensAt(out_buf, ex_tmp, i, extras, fuzz);
      if stop {
        Ended(all, executed, rest, fuzz, some, here);
        return executed + some, true;
      }
      AllRun(some, here, fuzz);
      Onward(all, executed, rest, fuzz, some, Effect(AllInserted(out_buf, i + 1, extras), []));
      executed := executed + some;
      ex_tmp[i] := if i < len then out_buf[i] else after;
      if i < len { assert ex_tmp[..i + 1] == ex_tmp[..i] + [out_buf[i]]; }
    }
    InsertionsEnd(out_buf, extras);
    Finished(all, executed, Effect(AllInserted(out_buf, len + 1, extras), []), fuzz);
    return executed, false;
  }

  lemma InsertionsUnfolded(buf: seq<byte>, i: nat, extras: seq<Token>)
    requires i <= |buf|
    ensures AllInserted(buf, i, extras) == InsertedAt(buf, i, extras, 0) + AllInserted(buf, i + 1, extras)
  {
  }

  lemma InsertionsEnd(buf: seq<byte>, extras: seq<Token>)
    ensures AllInserted(buf, |buf| + 1, extras) == []
  {
  }

  method InsertTokensAt(out_buf: seq<byte>, ex_tmp: array<byte>, i: nat, extras: seq<Token>, fuzz: seq<byte> -> bool)
    returns (executed: seq<seq<byte>>, abandoned: bool)
    requires i <= |out_buf| && ex_tmp.Length == |out_buf| + 128 && ex_tmp[..i] == out_buf[..i]
    requires forall j :: 0 <= j < |extras| ==> |extras[j]| <= 128
    modifies ex_tmp
    ensures RunUpTo(executed, InsertedAt(out_buf, i, extras, 0), fuzz, abandoned)
    ensures ex_tmp[..i] == out_buf[..i]
  {
    hide Overlay;
    executed := [];
    for j := 0 to |extras|
      invariant ex_tmp[..i] == out_buf[..i]
      invariant forall k :: 0 <= k < |executed| ==> !fuzz(executed[k])
      invariant InsertedAt(out_buf, i, extras, 0) == executed + InsertedAt(out_buf, i, extras, j)
    {
      var t := extras[j];
      if |out_buf| + |t| > MAX_FILE {
        continue;
      }
      ghost var was := ex_tmp[..];
      Copy(ex_tmp, i, t);
      Copy(ex_tmp, i + |t|, out_buf[i..]);
      TokenAndTail(was, out_buf, i, t);
      var trial := ex_tmp[..|out_buf| + |t|];
      executed := executed + [trial];
      if fuzz(trial) {
        return executed, true;
      }
    }
    return executed, false;
  }

  lemma TokenAndTail(was: seq<byte>, out_buf: seq<byte>, i: nat, t: Token)
    requires i <= |out_buf| && |was| == |out_buf| + 128 && |t| <= 128 && was[..i] == out_buf[..i]
    ensures var now := Overlay(Overlay(was, i, t), i + |t|, out_buf[i..]);
            now[..|out_buf| + |t|] == Inserted(out_buf, i, t) && now[..i] == out_buf[..i]
  {
  }
}
