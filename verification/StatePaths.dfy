/** State sequences as paths: loops trimmed, transitions, and what the path hash looks at. */
module StatePaths {
  import opened Bytes

  // ----- loop trimming -----

  predicate Skipped(s: seq<nat>, i: nat)
    requires i < |s|
  {
    i >= 2 && s[i] == s[i - 1] && s[i] == s[i - 2]
  }

  function Trim(s: seq<nat>): seq<nat> {
    if s == [] then []
    else Trim(s[..|s| - 1]) + if Skipped(s, |s| - 1) then [] else [s[|s| - 1]]
  }

  /** The loop at the start of is_state_sequence_interesting. */
  method TrimStateSequence(state_sequence: seq<nat>) returns (trimmed: seq<nat>)
    ensures trimmed == Trim(state_sequence)
  {
    trimmed := [];
    assert state_sequence[..0] == [];
    for i := 0 to |state_sequence|
      invariant trimmed == Trim(state_sequence[..i])
    {
      assert state_sequence[..i + 1][..i] == state_sequence[..i];
      if i >= 2 && state_sequence[i] == state_sequence[i - 1] && state_sequence[i] == state_sequence[i - 2] {
        continue;
      }
      trimmed := trimmed + [state_sequence[i]];
    }
    assert state_sequence[..|state_sequence|] == state_sequence;
  }

  /** Trimming loops loses no state. */
  lemma {:induction false} TrimKeepsStates(s: seq<nat>)
    ensures Elements(Trim(s)) == Elements(s)
    ensures |s| >= 2 ==> |Trim(s)| >= 2
  {
    if s != [] {
      var shorter, last := s[..|s| - 1], s[|s| - 1];
      TrimKeepsStates(shorter);
      assert s == shorter + [last];
      assert Elements(s) == Elements(shorter) + {last};
      if Skipped(s, |s| - 1) {
        assert s[|s| - 2] == shorter[|s| - 2];
        assert last in shorter;
        assert Elements(s) == Elements(shorter);
      } else {
        assert Elements(Trim(s)) == Elements(Trim(shorter)) + {last};
      }
      if |s| == 2 { assert Trim(shorter) == [s[0]] by { assert shorter[..0] == []; } }
    }
  }

  /** The transitions of a path. */
  function Edges(s: seq<nat>): set<(nat, nat)> {
    if |s| < 2 then {} else Edges(s[..|s| - 1]) + {(s[|s| - 2], s[|s| - 1])}
  }

  lemma {:induction false} TrimEndsAlike(s: seq<nat>)
    requires s != []
    ensures Trim(s) != [] && Trim(s)[|Trim(s)| - 1] == s[|s| - 1]
  {
    if |s| > 1 && Skipped(s, |s| - 1) {
      var shorter := s[..|s| - 1];
      TrimEndsAlike(shorter);
      assert shorter[|shorter| - 1] == s[|s| - 2];
    }
  }

  /** Trimming loops loses no transition either. */
  lemma {:induction false} TrimKeepsEdges(s: seq<nat>)
    ensures Edges(Trim(s)) == Edges(s)
  {
    if |s| == 1 {
      TrimOfOne(s);
    } else if |s| > 1 {
      var shorter, last := s[..|s| - 1], s[|s| - 1];
      TrimKeepsEdges(shorter);
      if Skipped(s, |s| - 1) {
        assert Trim(s) == Trim(shorter);
        assert Edges(shorter) == Edges(shorter[..|shorter| - 1]) + {(last, last)};
        assert Edges(s) == Edges(shorter) + {(last, last)};
      } else {
        TrimEndsAlike(shorter);
        var t := Trim(s);
        assert t == Trim(shorter) + [last] && t[..|t| - 1] == Trim(shorter);
        assert t[|t| - 2] == shorter[|shorter| - 1] == s[|s| - 2];
      }
    }
  }

  lemma TrimOfOne(s: seq<nat>)
    requires |s| == 1
    ensures Trim(s) == s
  {
    assert s[..0] == [];
    assert Trim(s[..0]) == [];
  }

  lemma TrimOfShort(s: seq<nat>)
    ensures |Trim(s)| > 1 ==> |s| > 1
    ensures |s| > 1 ==> |Trim(s)| > 1
  {
    TrimKeepsStates(s);
    if |s| == 1 { TrimOfOne(s); }
  }

  // ----- what trimming does to a path -----

  /** Three times the same state in a row. */
  ghost predicate HasTriple(s: seq<nat>) {
    exists i :: 0 <= i < |s| - 2 && s[i] == s[i + 1] == s[i + 2]
  }

  /** The last two states stay the last two. */
  lemma {:induction false} TrimKeepsLastTwo(s: seq<nat>)
    requires |s| >= 2
    ensures var t := Trim(s); |t| >= 2 && t[|t| - 1] == s[|s| - 1] && t[|t| - 2] == s[|s| - 2]
  {
    TrimEndsAlike(s);
    var shorter := s[..|s| - 1];
    TrimEndsAlike(shorter);
    if Skipped(s, |s| - 1) {
      TrimKeepsLastTwo(shorter);
      assert Trim(s) == Trim(shorter);
    } else {
      assert Trim(s) == Trim(shorter) + [s[|s| - 1]];
    }
  }

  /** A trimmed path never stays in a state for three steps. */
  lemma {:induction false} NoTripleIsLeft(s: seq<nat>)
    ensures !HasTriple(Trim(s))
  {
    if s != [] {
      var shorter, t := s[..|s| - 1], Trim(s);
      NoTripleIsLeft(shorter);
      if !Skipped(s, |s| - 1) {
        var u := Trim(shorter);
        if |shorter| >= 2 { TrimKeepsLastTwo(shorter); } else if |shorter| == 1 { TrimOfOne(shorter); }
        forall i | 0 <= i < |t| - 2 ensures !(t[i] == t[i + 1] == t[i + 2]) {
          if i + 2 < |u| { assert !(u[i] == u[i + 1] == u[i + 2]); }
        }
      }
    }
  }

  /** A path that never does is left alone. */
  lemma {:induction false} NothingToTrim(s: seq<nat>)
    ensures !HasTriple(s) <==> Trim(s) == s
  {
    NoTripleIsLeft(s);
    if s != [] && !HasTriple(s) {
      var shorter := s[..|s| - 1];
      assert !HasTriple(shorter) by {
        forall i | 0 <= i < |shorter| - 2 ensures !(shorter[i] == shorter[i + 1] == shorter[i + 2]) {
          assert !(s[i] == s[i + 1] == s[i + 2]);
        }
      }
      NothingToTrim(shorter);
      if |s| >= 3 { assert !(s[|s| - 3] == s[|s| - 2] == s[|s| - 1]); }
    }
  }

  /** Another turn in a loop of two or more changes nothing. */
  lemma {:induction false} OneMoreTurn(a: seq<nat>, x: nat, b: seq<nat>)
    ensures Trim(a + [x, x, x] + b) == Trim(a + [x, x] + b)
    decreases |b|
  {
    var s, t := a + [x, x, x] + b, a + [x, x] + b;
    if b == [] {
      assert s[..|s| - 1] == t;
    } else {
      var c := b[..|b| - 1];
      OneMoreTurn(a, x, c);
      assert s[..|s| - 1] == a + [x, x, x] + c && t[..|t| - 1] == a + [x, x] + c;
    }
  }

  function Turns(x: nat, n: nat): (s: seq<nat>)
    ensures |s| == n
  {
    seq(n, _ => x)
  }

  /** However often a loop of two or more repeats, the trimmed path is the same. */
  lemma {:induction false} TurnsDoNotMatter(a: seq<nat>, x: nat, n: nat, b: seq<nat>)
    requires n >= 2
    ensures Trim(a + Turns(x, n) + b) == Trim(a + [x, x] + b)
    decreases n
  {
    if n == 2 {
      assert Turns(x, n) == [x, x];
    } else {
      TurnsDoNotMatter(a, x, n - 1, b);
      var rest := Turns(x, n - 3) + b;
      assert a + Turns(x, n) + b == a + [x, x, x] + rest;
      assert a + Turns(x, n - 1) + b == a + [x, x] + rest;
      OneMoreTurn(a, x, rest);
    }
  }

  /** A transition is a state and the one after it. */
  lemma {:induction false} EdgesAreSteps(s: seq<nat>, from: nat, to: nat)
    ensures (from, to) in Edges(s) <==> exists i :: 0 <= i < |s| - 1 && s[i] == from && s[i + 1] == to
  {
    if |s| >= 2 {
      var shorter := s[..|s| - 1];
      EdgesAreSteps(shorter, from, to);
      if i :| 0 <= i < |s| - 1 && s[i] == from && s[i + 1] == to {
        if i < |s| - 2 { assert shorter[i] == from && shorter[i + 1] == to; }
      }
      if i :| 0 <= i < |shorter| - 1 && shorter[i] == from && shorter[i + 1] == to {
        assert s[i] == from && s[i + 1] == to;
      }
    }
  }

  // ----- the real path hash -----

  /** What hash32 looks at on x86_64: the length, and whole pairs of 32-bit codes. */
  function Hash32Input(codes: seq<nat>): (nat, seq<nat>) {
    (4 * |codes|, codes[..|codes| / 2 * 2])
  }

  function PathHash(mix: (nat, seq<nat>) -> nat): seq<nat> -> nat {
    codes => mix(Hash32Input(codes).0, Hash32Input(codes).1)
  }

  /** However hash32 mixes, paths of odd length that differ only in their last code collide. */
  lemma LastCodeIsDropped(mix: (nat, seq<nat>) -> nat, codes: seq<nat>, a: nat, b: nat)
    requires |codes| % 2 == 0
    ensures PathHash(mix)(codes + [a]) == PathHash(mix)(codes + [b])
  {
    assert |codes + [a]| / 2 * 2 == |codes| == |codes + [b]| / 2 * 2;
    assert (codes + [a])[..|codes|] == codes == (codes + [b])[..|codes|];
    assert Hash32Input(codes + [a]) == (4 * |codes| + 4, codes) == Hash32Input(codes + [b]);
  }

  /** On paths of even length hash32 looks at all codes, on others at all but the last. */
  lemma HashedCodes(a: seq<nat>, b: seq<nat>)
    ensures Hash32Input(a) == Hash32Input(b) <==>
            |a| == |b| && forall i :: 0 <= i < |a| - |a| % 2 ==> a[i] == b[i]
  {
    if |a| == |b| && forall i :: 0 <= i < |a| - |a| % 2 ==> a[i] == b[i] {
      assert a[..|a| / 2 * 2] == b[..|a| / 2 * 2];
    } else if Hash32Input(a) == Hash32Input(b) {
      forall i | 0 <= i < |a| - |a| % 2 ensures a[i] == b[i] {
        assert a[..|a| / 2 * 2][i] == b[..|a| / 2 * 2][i];
      }
    }
  }
}
