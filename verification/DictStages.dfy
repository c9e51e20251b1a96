/** From the dictionary file and the collected tokens to the inputs run in the dictionary
    stages of fuzz_one. */
module DictStages {
  import opened Bytes
  import opened CLibrary
  import opened Sorting
  import opened Tokens
  import opened DictOverlay
  import opened AutoDictionary

  datatype UserDictionary = NoDictionary | UserExtras(extras: seq<Token>)

  ghost predicate Usable(t: seq<byte>) {
    0 < |t| <= MAX_DICT_FILE
  }

  /** A keyword the parser lets through has a byte, and not too many. */
  lemma KeywordsAreUsable(line: seq<byte>, dict_level: nat)
    requires Meaning(line, dict_level).Keyword?
    ensures Usable(Meaning(line, dict_level).data)
  {
    hide TrimRight, SkipWhile, Atoi, StartsHexEscape;
  }

  lemma {:induction false} LoadedAreUsable(file: seq<byte>, pos: nat, cur_line: nat, dict_level: nat)
    requires pos <= |file|
    ensures var r := LoadFrom(file, pos, cur_line, dict_level);
            r.Extras? ==> forall t :: t in r.tokens ==> Usable(t)
    decreases |file| - pos
  {
    hide Meaning, UntilNul;
    if pos < |file| {
      var e := LineEnd(file, pos, MAX_LINE - 1);
      var line := UntilNul(file[pos..e]);
      LoadedAreUsable(file, e, cur_line + 1, dict_level);
      if Meaning(line, dict_level).Keyword? { KeywordsAreUsable(line, dict_level); }
    }
  }

  function AsTokens(ts: seq<seq<byte>>): (r: seq<Token>)
    requires forall t :: t in ts ==> Usable(t)
    ensures r == ts
  {
    if ts == [] then []
    else
      assert ts[0] in ts && Usable(ts[0]);
      var t: Token := ts[0];
      [t] + AsTokens(ts[1..])
  }

  /** load_extras on a file: the tokens of the file, shortest first. */
  method LoadExtras(file: seq<byte>, dict_level: nat) returns (d: UserDictionary)
    ensures d.NoDictionary? <==>
            LoadFrom(file, 0, 0, dict_level) == Extras([]) || LoadFrom(file, 0, 0, dict_level).Failed?
    ensures d.UserExtras? ==> multiset(d.extras) == multiset(LoadFrom(file, 0, 0, dict_level).tokens)
    ensures d.UserExtras? ==> SortedByLength(d.extras) && forall t :: t in d.extras ==> Usable(t)
  {
    hide LoadFrom;
    var r := LoadExtrasFile(file, dict_level);
    LoadedAreUsable(file, 0, 0, dict_level);
    if r.Failed? || r.tokens == [] {
      return NoDictionary;
    }
    var tokens := AsTokens(r.tokens);
    var sorted := Qsort(tokens, (t: Token) => |t|);
    assert forall t :: t in sorted ==> t in multiset(sorted);
    return UserExtras(sorted);
  }

  /** The automatic tokens in use. */
  function InUse(d: Dictionary): (tokens: seq<Token>)
    requires d.Valid()
    reads d
    ensures |tokens| == d.Top() == Min(50, |d.a_extras|) && SortedByLength(tokens)
    ensures forall j :: 0 <= j < |tokens| ==> tokens[j] == d.a_extras[j].data
  {
    CollectedHaveBytes(d);
    seq(d.Top(), j requires 0 <= j < d.Top() && d.a_extras[j].data != [] reads d => d.a_extras[j].data)
  }

  lemma CollectedHaveBytes(d: Dictionary)
    requires d.Valid()
    ensures forall j :: 0 <= j < |d.a_extras| ==> d.a_extras[j].data != []
    ensures forall j, k :: 0 <= j <= k < d.Top() ==> |d.a_extras[j].data| <= |d.a_extras[k].data|
  {
    forall j | 0 <= j < |d.a_extras| ensures d.a_extras[j].data != [] {
      assert d.a_extras[j] in d.a_extras;
    }
    forall j, k | 0 <= j <= k < d.Top() ensures |d.a_extras[j].data| <= |d.a_extras[k].data| {
      var used := Contents(d.a_extras[..d.Top()]);
      assert used[j] == d.a_extras[j].data && used[k] == d.a_extras[k].data;
    }
  }

  /** Everything the three stages are meant to run: the input with one token of either
      dictionary over it, or with one user token inserted. */
  ghost predicate Intended(env: Env, autoEnv: Env, in_buf: seq<byte>, user: seq<Token>, auto: seq<Token>,
                           trial: seq<byte>)
    requires env.Fits(|in_buf|) && autoEnv.Fits(|in_buf|)
  {
    || OverlaidSomewhere(env, in_buf, user, trial)
    || InsertedSomewhere(in_buf, user, trial)
    || OverlaidSomewhere(autoEnv, in_buf, auto, trial)
  }

  /** The trials of the three stages, in order. */
  ghost function AllTrials(env: Env, autoEnv: Env, in_buf: seq<byte>, user: seq<Token>,
                           auto: seq<Token>): seq<seq<byte>>
    requires env.Fits(|in_buf|) && autoEnv.Fits(|in_buf|)
  {
    Stage(env, in_buf, in_buf, 0, user).trials + AllInserted(in_buf, 0, user) +
      Stage(autoEnv, in_buf, in_buf, 0, auto).trials
  }

  lemma OverlaysAreRun(env: Env, in_buf: seq<byte>, extras: seq<Token>, trial: seq<byte>)
    requires env.Fits(|in_buf|) && SortedByLength(extras) && OverlaidSomewhere(env, in_buf, extras, trial)
    ensures trial == in_buf || trial in Stage(env, in_buf, in_buf, 0, extras).trials
  {
    hide Overlay, Stage;
    StageSound(env, in_buf, 0, extras);
    var i: nat :| OneOverlay(env, in_buf, i, extras, trial);
    var j: nat :| Admissible(env, in_buf, i, extras, j) && trial == Overlay(in_buf, i, extras[j]);
  }

  lemma InsertionsAreRun(in_buf: seq<byte>, extras: seq<Token>, trial: seq<byte>)
    requires InsertedSomewhere(in_buf, extras, trial)
    ensures trial in AllInserted(in_buf, 0, extras)
  {
    hide Inserted, AllInserted;
    var i: nat, t: Token :| i <= |in_buf| && t in extras && |in_buf| + |t| <= MAX_FILE &&
      trial == Inserted(in_buf, i, t);
    var j :| 0 <= j < |extras| && extras[j] == t;
    InsertedEverywhere(in_buf, 0, extras, i, j);
  }

  /** The stages are meant to run exactly what is intended, the input itself aside. */
  lemma TrialsAreIntended(env: Env, autoEnv: Env, in_buf: seq<byte>, user: seq<Token>, auto: seq<Token>,
                          trial: seq<byte>)
    requires env.Fits(|in_buf|) && autoEnv.Fits(|in_buf|) && SortedByLength(user) && SortedByLength(auto)
    ensures trial in AllTrials(env, autoEnv, in_buf, user, auto) ==> Intended(env, autoEnv, in_buf, user, auto, trial)
    ensures Intended(env, autoEnv, in_buf, user, auto, trial) ==>
              trial == in_buf || trial in AllTrials(env, autoEnv, in_buf, user, auto)
  {
    hide OverlaidSomewhere, InsertedSomewhere, NoneMissed, AllInserted, Stage;
    StageSound(env, in_buf, 0, user);
    StageSound(autoEnv, in_buf, 0, auto);
    if trial in AllInserted(in_buf, 0, user) { OnlyInserted(in_buf, 0, user, trial); }
    if OverlaidSomewhere(env, in_buf, user, trial) { OverlaysAreRun(env, in_buf, user, trial); }
    if OverlaidSomewhere(autoEnv, in_buf, auto, trial) { OverlaysAreRun(autoEnv, in_buf, auto, trial); }
    if InsertedSomewhere(in_buf, user, trial) { InsertionsAreRun(in_buf, user, trial); }
  }

  /** What the trials run so far amount to. */
  lemma WhatIsRun(env: Env, autoEnv: Env, in_buf: seq<byte>, user: seq<Token>, auto: seq<Token>,
                  executed: seq<seq<byte>>, fuzz: seq<byte> -> bool, abandoned: bool)
    requires env.Fits(|in_buf|) && autoEnv.Fits(|in_buf|) && SortedByLength(user) && SortedByLength(auto)
    requires RunUpTo(executed, AllTrials(env, autoEnv, in_buf, user, auto), fuzz, abandoned)
    ensures forall k :: 0 <= k < |executed| ==> Intended(env, autoEnv, in_buf, user, auto, executed[k])
    ensures !abandoned ==>
              forall trial :: Intended(env, autoEnv, in_buf, user, auto, trial) && trial != in_buf ==> trial in executed
  {
    hide Intended, AllTrials;
    var all := AllTrials(env, autoEnv, in_buf, user, auto);
    forall k | 0 <= k < |executed| ensures Intended(env, autoEnv, in_buf, user, auto, executed[k]) {
      assert executed[k] == all[k];
      TrialsAreIntended(env, autoEnv, in_buf, user, auto, executed[k]);
    }
    forall trial | Intended(env, autoEnv, in_buf, user, auto, trial) && trial != in_buf ensures trial in all {
      TrialsAreIntended(env, autoEnv, in_buf, user, auto, trial);
    }
  }

  /** The dictionary part of fuzz_one: the trials of the three stages up to the first that
      ends the entry; if none does, every intended one is run, and nothing else.  The later
      stages read out_buf as the first one leaves it: they find the input.  `autoEnv` has no
      dice. */
  method DictionaryStages(user: seq<Token>, auto: Dictionary, env: Env, autoEnv: Env, in_buf: seq<byte>,
                          out_buf: array<byte>, after: byte, fuzz: seq<byte> -> bool)
    returns (executed: seq<seq<byte>>, abandoned: bool)
    requires SortedByLength(user) && forall t :: t in user ==> Usable(t)
    requires auto.Valid() && out_buf.Length == |in_buf| && out_buf[..] == in_buf
    requires env.Fits(|in_buf|) && autoEnv.Fits(|in_buf|)
    modifies out_buf
    ensures RunUpTo(executed, AllTrials(env, autoEnv, in_buf, user, InUse(auto)), fuzz, abandoned)
    ensures forall k :: 0 <= k < |executed| ==> Intended(env, autoEnv, in_buf, user, InUse(auto), executed[k])
    ensures !abandoned ==>
              && out_buf[..] == in_buf
              && forall trial :: Intended(env, autoEnv, in_buf, user, InUse(auto), trial) && trial != in_buf ==>
                 trial in executed
  {
    hide OverlaidSomewhere, InsertedSomewhere, NoneMissed, AllInserted, Stage, RunUpTo, Intended, Dictionary.Valid;
    var tokens := InUse(auto);
    ghost var first := Stage(env, in_buf, in_buf, 0, user).trials;
    ghost var second := AllInserted(in_buf, 0, user);
    ghost var third := Stage(autoEnv, in_buf, in_buf, 0, tokens).trials;
    executed, abandoned := SortedOverwriteStage(env, in_buf, out_buf, user, fuzz);
    if abandoned {
      NoMoreRun(executed, first, fuzz, second);
      NoMoreRun(executed, first + second, fuzz, third);
    } else {
      assert forall j :: 0 <= j < |user| ==> user[j] in user;
      var some, stop := InsertStage(out_buf[..], after, user, fuzz);
      ThenRun(executed, first, fuzz, some, second, stop);
      executed := executed + some;
      if stop {
        NoMoreRun(executed, first + second, fuzz, third);
      } else {
        some, stop := SortedOverwriteStage(autoEnv, in_buf, out_buf, tokens, fuzz);
        ThenRun(executed, first + second, fuzz, some, third, stop);
        executed := executed + some;
      }
      abandoned := stop;
    }
    WhatIsRun(env, autoEnv, in_buf, user, tokens, executed, fuzz, abandoned);
  }
}
